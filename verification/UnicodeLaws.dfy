/** utf8.c: which code points are valid, as numbers instead of masks. */
module UnicodeLaws {
  import opened Utf8
  import opened Utf8Strict

  /**
    The code points a string may hold: in the seventeen planes, no surrogate, none of the 32 set aside from
    0xfdd0 on, and not one of the last two of its plane.
   */
  ghost predicate IsCodePoint(c: nat) {
    && c < 17 * 65536
    && !(0xd800 <= c <= 0xdfff)
    && !(0xfdd0 <= c <= 0xfdef)
    && forall p: nat | p < 17 :: c != p * 65536 + 65534 && c != p * 65536 + 65535
  }

  lemma SameNumber(c: bv32, d: bv32)
    ensures c == d <==> c as nat == d as nat
  {
    if c as nat == d as nat {
      assert (c as nat) as bv32 == (d as nat) as bv32;
    }
  }

  /** The last two of a plane. */
  predicate EndsPlane(c: bv32, p: bv32) {
    c == p * 0x10000 + 0xfffe || c == p * 0x10000 + 0xffff
  }

  lemma EndsPlaneBits(c: bv32, p: bv32)
    requires c < 0x110000 && p < 17
    ensures c / 0x10000 < 17 && (c & 0xfffe == 0xfffe ==> EndsPlane(c, c / 0x10000))
    ensures EndsPlane(c, p) ==> c & 0xfffe == 0xfffe
  {
  }

  lemma PlaneNumbers(p: bv32)
    requires p < 17
    ensures p as nat < 17
    ensures (p * 0x10000 + 0xfffe) as nat == p as nat * 65536 + 65534
    ensures (p * 0x10000 + 0xffff) as nat == p as nat * 65536 + 65535
  {
  }

  lemma EndsPlaneNumber(c: bv32, p: bv32)
    requires p < 17
    ensures p as nat < 17
    ensures EndsPlane(c, p) <==> c as nat == p as nat * 65536 + 65534 || c as nat == p as nat * 65536 + 65535
  {
    PlaneNumbers(p);
    SameNumber(c, p * 0x10000 + 0xfffe);
    SameNumber(c, p * 0x10000 + 0xffff);
  }

  lemma RangeNumbers(c: bv32)
    ensures c < 0x110000 <==> c as nat < 17 * 65536
    ensures c & 0xfffff800 == 0xd800 <==> 0xd800 <= c <= 0xdfff
    ensures 0xd800 <= c <= 0xdfff <==> 0xd800 <= c as nat <= 0xdfff
    ensures 0xfdd0 <= c <= 0xfdef <==> 0xfdd0 <= c as nat <= 0xfdef
  {
  }

  predicate LastTwo(c: bv32) {
    c & 0xfffe == 0xfffe
  }

  ghost predicate LastTwoOf(c: nat, p: nat) {
    c == p * 65536 + 65534 || c == p * 65536 + 65535
  }

  /** The number of a plane, both ways. */
  lemma PlaneOf(p: nat) returns (q: bv32)
    requires p < 17
    ensures q < 17 && q as nat == p
  {
    q := p as bv32;
  }

  lemma LastTwoBits(c: bv32, p: bv32)
    requires c < 0x110000 && p < 17
    ensures EndsPlane(c, p) ==> LastTwo(c)
    ensures c / 0x10000 < 17 && (LastTwo(c) ==> EndsPlane(c, c / 0x10000))
  {
    EndsPlaneBits(c, p);
  }

  lemma LastTwoMeans(c: bv32, k: nat)
    requires c < 0x110000 && k == c as nat
    ensures LastTwo(c) <==> exists p: nat :: p < 17 && LastTwoOf(k, p)
  {
    hide LastTwo, EndsPlane, LastTwoOf;
    LastTwoBits(c, 0);
    if LastTwo(c) {
      PlaneEnd(c, c / 0x10000);
    }
    forall p: nat | p < 17 && LastTwoOf(k, p) ensures LastTwo(c) {
      var q := PlaneOf(p);
      PlaneEnd(c, q);
      LastTwoBits(c, q);
    }
  }

  lemma PlaneEnd(c: bv32, p: bv32)
    requires p < 17
    ensures p as nat < 17 && (EndsPlane(c, p) <==> LastTwoOf(c as nat, p as nat))
  {
    hide EndsPlane;
    EndsPlaneNumber(c, p);
  }

  lemma UnicodeValidIs(c: bv32)
    ensures UnicodeValid(c)
            <==> c < 0x110000 && c & 0xfffff800 != 0xd800 && !(0xfdd0 <= c <= 0xfdef) && !LastTwo(c)
  {
  }

  lemma IsCodePointIs(c: nat)
    ensures IsCodePoint(c)
            <==> && c < 17 * 65536 && !(0xd800 <= c <= 0xdfff) && !(0xfdd0 <= c <= 0xfdef)
                 && !exists p: nat :: p < 17 && LastTwoOf(c, p)
  {
    if !IsCodePoint(c) && c < 17 * 65536 && !(0xd800 <= c <= 0xdfff) && !(0xfdd0 <= c <= 0xfdef) {
      var p: nat :| p < 17 && (c == p * 65536 + 65534 || c == p * 65536 + 65535);
      assert LastTwoOf(c, p);
    }
  }

  /** UNICODE_VALID without its masks. */
  lemma UnicodeValidMeans(c: bv32)
    ensures UnicodeValid(c) <==> IsCodePoint(c as nat)
  {
    hide UnicodeValid, IsCodePoint, LastTwo, LastTwoOf;
    UnicodeValidIs(c);
    RangeNumbers(c);
    IsCodePointIs(c as nat);
    if c < 0x110000 {
      LastTwoMeans(c, c as nat);
    }
  }
}

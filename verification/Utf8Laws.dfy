/** utf8.c: the forms and their decoding in ordinary arithmetic, without masks and shifts. */
module Utf8Laws {
  import opened UnicodeLaws
  import opened Utf8
  import opened Utf8Strict
  import opened Utf8Strings

  /** The smallest first byte of an `n` byte form, and how many there are. */
  function FirstOf(n: nat): bv8
    requires 2 <= n <= 6
  {
    if n == 2 then 192 else if n == 3 then 224 else if n == 4 then 240 else if n == 5 then 248 else 252
  }

  function FirstCount(n: nat): bv8
    requires 2 <= n <= 6
  {
    if n == 2 then 32 else if n == 3 then 16 else if n == 4 then 8 else if n == 5 then 4 else 2
  }

  predicate IsFirst(b: bv8, n: nat)
    requires 1 <= n <= 6
  {
    if n == 1 then b < 128 else FirstOf(n) <= b <= FirstOf(n) + (FirstCount(n) - 1)
  }

  predicate IsNext(b: bv8) {
    128 <= b < 192
  }

  lemma LeadMeans(b: bv8, n: nat)
    requires 1 <= n <= 6
    ensures Lead(b, n) <==> IsFirst(b, n)
    ensures Cont(b) <==> IsNext(b)
  {
  }

  /** A continuation byte with the last digit of `d` to the base 64. */
  function Next(d: bv32): bv8 {
    (128 + d % 64) as bv8
  }

  lemma First1(c: bv32)
    ensures c < 128 ==> LeadOf(c, 1) == c as bv8
  {
  }

  lemma First2(c: bv32)
    ensures LeadOf(c, 2) == (192 + c / 64 % 32) as bv8
  {
  }

  lemma First3(c: bv32)
    ensures LeadOf(c, 3) == (224 + c / 4096 % 16) as bv8
  {
  }

  lemma First4(c: bv32)
    ensures LeadOf(c, 4) == (240 + c / 262144 % 8) as bv8
  {
  }

  lemma First5(c: bv32)
    ensures LeadOf(c, 5) == (248 + c / 16777216 % 4) as bv8
  {
  }

  lemma First6(c: bv32)
    ensures LeadOf(c, 6) == (252 + c / 1073741824 % 2) as bv8
  {
  }

  lemma Tail0(c: bv32)
    ensures Tail(c) == Next(c)
  {
  }

  lemma Tail1(c: bv32)
    ensures Tail(c >> 6) == Next(c / 64)
  {
  }

  lemma Tail2(c: bv32)
    ensures Tail(c >> 12) == Next(c / 4096)
  {
  }

  lemma Tail3(c: bv32)
    ensures Tail(c >> 18) == Next(c / 262144)
  {
  }

  lemma Tail4(c: bv32)
    ensures Tail(c >> 24) == Next(c / 16777216)
  {
  }

  /** The bytes of a form behind the first are the digits of the value to the base 64. */
  lemma FormMeans(c: bv32)
    ensures c < 128 ==> Form(c, 1) == [c as bv8]
    ensures Form(c, 2) == [(192 + c / 64 % 32) as bv8, Next(c)]
    ensures Form(c, 3) == [(224 + c / 4096 % 16) as bv8, Next(c / 64), Next(c)]
    ensures Form(c, 4) == [(240 + c / 262144 % 8) as bv8, Next(c / 4096), Next(c / 64), Next(c)]
    ensures Form(c, 5) == [(248 + c / 16777216 % 4) as bv8, Next(c / 262144), Next(c / 4096), Next(c / 64), Next(c)]
    ensures Form(c, 6)
            == [(252 + c / 1073741824 % 2) as bv8,
                Next(c / 16777216), Next(c / 262144), Next(c / 4096), Next(c / 64), Next(c)]
  {
    hide Tail, LeadOf, Next;
    First1(c);
    First2(c);
    First3(c);
    First4(c);
    First5(c);
    First6(c);
    Tail0(c);
    Tail1(c);
    Tail2(c);
    Tail3(c);
    Tail4(c);
  }

  /** An `n` byte form stands in front. */
  predicate WholeForm(in_: CString, n: nat)
    requires 2 <= n <= 6
  {
    n <= |in_| && IsFirst(in_[0], n) && forall i | 1 <= i < n :: IsNext(in_[i])
  }

  /** Its value up to its `k`-th byte behind the first. */
  function Value(in_: CString, n: nat, k: nat): bv32
    requires 2 <= n <= 6 && k < |in_|
  {
    if k == 0 then in_[0] as bv32 - FirstOf(n) as bv32 else Value(in_, n, k - 1) * 64 + (in_[k] as bv32 - 128)
  }

  lemma ShiftedMeans(wc: bv32, b: bv8)
    requires IsNext(b)
    ensures Shifted(wc, b) == wc * 64 + (b as bv32 - 128)
  {
  }

  lemma MaskedMeans(b: bv8, n: nat)
    requires 2 <= n <= 6 && IsFirst(b, n)
    ensures Masked(b as bv32, n) == b as bv32 - FirstOf(n) as bv32
  {
  }

  lemma {:induction false} GatheredMeans(in_: CString, n: nat, k: nat)
    requires 2 <= n <= 6 && WholeForm(in_, n) && k < n
    ensures Gathered(in_, n, k) == Value(in_, n, k)
  {
    hide Shifted, Masked, FirstOf, IsFirst, IsNext, NoNul;
    if k == 0 {
      MaskedMeans(in_[0], n);
    } else {
      GatheredMeans(in_, n, k - 1);
      ShiftedMeans(Gathered(in_, n, k - 1), in_[k]);
    }
  }

  /** fcitx_utf8_get_char on a whole form: its value, and its length. */
  lemma GetCharMeans(in_: CString, n: nat)
    requires 2 <= n <= 6 && WholeForm(in_, n)
    ensures GetChar(in_) == (Value(in_, n, n - 1), n)
  {
    hide Cont, Lead, Gathered, Value, GetChar, IsFirst, IsNext, Join2, Join3, Join4, Join5, Join6;
    LeadMeans(in_[0], n);
    forall i | 1 <= i < n ensures Cont(in_[i]) {
      LeadMeans(in_[i], n);
    }
    ContsAll(in_, n - 1);
    FormOfGathered(in_, n);
    GatheredMeans(in_, n, n - 1);
    GetCharOf(in_, n);
  }

  lemma WholeFormIs(in_: CString, n: nat)
    requires 2 <= n <= 6 && in_ != []
    ensures Lead(in_[0], n) && Conts(in_, n - 1) <==> WholeForm(in_, n)
  {
    hide Cont, Lead, IsFirst, IsNext;
    LeadMeans(in_[0], n);
    forall i | 1 <= i < n && i < |in_| ensures Cont(in_[i]) <==> IsNext(in_[i]) {
      LeadMeans(in_[i], n);
    }
    if WholeForm(in_, n) {
      ContsAll(in_, n - 1);
    }
  }

  /** And anywhere else the byte as it is, whatever it is. */
  lemma GetCharOtherwise(in_: CString)
    requires forall n | 2 <= n <= 6 :: !WholeForm(in_, n)
    ensures GetChar(in_) == (if in_ == [] then 0 else in_[0] as bv32, 1)
  {
    hide Cont, Lead, Conts, WholeForm, IsFirst, Join2, Join3, Join4, Join5, Join6;
    if in_ == [] {
      LeadMeans(0, 1);
      FirstNul();
    } else {
      WholeFormIs(in_, 2);
      WholeFormIs(in_, 3);
      WholeFormIs(in_, 4);
      WholeFormIs(in_, 5);
      WholeFormIs(in_, 6);
    }
  }

  lemma FirstNul()
    ensures IsFirst(0, 1)
  {
  }

  /** The strict decoder's length is that of the shortest form: in a shorter one the value gets lost. */
  lemma LengthIsLeast(c: bv32, n: nat, in_: CString)
    requires c < 0x80000000 && 2 <= n <= 6 && n <= |in_| && in_[..n] == Form(c, n)
    ensures Length(c) == 1 <==> c < 128
    ensures GetChar(in_) == (c, n) <==> Length(c) <= n
  {
    hide Form, GetChar, Kept, Length;
    DecodeForm(c, n, in_);
    KeptMeans(c, n);
    LengthOne(c);
  }

  lemma Room2(c: bv32)
    ensures Kept(c, 2) == c <==> c < 0x800
  {
  }

  lemma Room3(c: bv32)
    ensures Kept(c, 3) == c <==> c < 0x10000
  {
  }

  lemma Room4(c: bv32)
    ensures Kept(c, 4) == c <==> c < 0x200000
  {
  }

  lemma Room5(c: bv32)
    ensures Kept(c, 5) == c <==> c < 0x4000000
  {
  }

  lemma Room6(c: bv32)
    ensures Kept(c, 6) == c <==> c < 0x80000000
  {
  }

  lemma LengthIs(c: bv32, n: nat)
    requires c < 0x80000000 && 2 <= n <= 6
    ensures Length(c) <= n
            <==> if n == 2 then c < 0x800 else if n == 3 then c < 0x10000 else if n == 4 then c < 0x200000
                 else if n == 5 then c < 0x4000000 else c < 0x80000000
  {
  }

  lemma KeptMeans(c: bv32, n: nat)
    requires c < 0x80000000 && 2 <= n <= 6
    ensures Kept(c, n) == c <==> Length(c) <= n
  {
    hide Kept, Length;
    LengthIs(c, n);
    Room2(c);
    Room3(c);
    Room4(c);
    Room5(c);
    Room6(c);
  }

  lemma LengthOne(c: bv32)
    ensures Length(c) == 1 <==> c < 128
  {
  }

  /** fcitx_ucs4_to_utf8 uses that length, but in the band from 2^26 to 2^27 one byte less. */
  lemma Ucs4CharLenMeans(c: bv32)
    requires c < 0x80000000
    ensures Ucs4CharLen(c) == if 0x4000000 <= c < 0x8000000 then 5 else Length(c)
  {
  }

  /** U+1F600 is a text. */
  lemma SmileIsText()
    ensures NoNul([0xf0, 0x9f, 0x98, 0x80]) && IsText([0xf0, 0x9f, 0x98, 0x80])
  {
    var cs: seq<bv32> := [0x1f600];
    assert Encode(0x1f600) == [0xf0, 0x9f, 0x98, 0x80];
    assert cs[1..] == [] && EncodeAll(cs) == Encode(0x1f600) + [];
    assert Text(cs);
  }

  /** A surrogate in three bytes is not. */
  lemma SurrogateIsNoText()
    ensures NoNul([0xed, 0xa0, 0x80]) && !IsText([0xed, 0xa0, 0x80])
  {
    var s: seq<bv8> := [0xed, 0xa0, 0x80];
    var cs: seq<bv32> := [0xd800];
    assert Encode(0xd800) == s;
    assert cs[1..] == [] && EncodeAll(cs) == Encode(0xd800) + [] == s;
    if IsText(s) {
      var t :| Text(t) && EncodeAll(t) == s;
      TextIsReadable(t);
      assert Readable(cs);
      EncodingIsUnique(t, cs);
      assert false;
    }
  }
}

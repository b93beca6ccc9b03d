/**
  utf8.c on bit-vectors. A pointer into a C string is the sequence of bytes from there up to the
  terminator; `Byte` may read those and the terminator, so that no function here reads past it.
 */
module Utf8 {
  predicate NoNul(s: seq<bv8>) {
    forall i | 0 <= i < |s| :: s[i] != 0
  }

  type CString = s: seq<bv8> | NoNul(s)

  function Byte(in_: CString, i: nat): bv8
    requires i <= |in_|
  {
    if i < |in_| then in_[i] else 0
  }

  /** FCITX_ISUTF8_CB */
  predicate Cont(b: bv8) {
    b & 0xc0 == 0x80
  }

  lemma ContIsNotNul(b: bv8)
    requires Cont(b)
    ensures b != 0
  {
  }

  /** The first byte of an `n` byte form. */
  predicate Lead(b: bv8, n: nat) {
    if n == 1 then b & 0x80 == 0
    else if n == 2 then b & 0xe0 == 0xc0
    else if n == 3 then b & 0xf0 == 0xe0
    else if n == 4 then b & 0xf8 == 0xf0
    else if n == 5 then b & 0xfc == 0xf8
    else n == 6 && b & 0xfe == 0xfc
  }

  /** The next `k` bytes are continuation bytes; looks no further than the first that is not. */
  predicate Conts(in_: CString, k: nat)
    requires in_ != []
    ensures Conts(in_, k) ==> k < |in_| && forall i | 1 <= i <= k :: Cont(in_[i])
  {
    k == 0 || (Conts(in_, k - 1) && Cont(Byte(in_, k)))
  }

  /** fcitx_utf8_char_len: never past the terminator. */
  function CharLen(in_: CString): (n: nat)
    ensures 1 <= n <= 6 && (in_ != [] ==> n <= |in_|)
  {
    var b := Byte(in_, 0);
    if Lead(b, 1) then 1
    else if Lead(b, 2) && Conts(in_, 1) then 2
    else if Lead(b, 3) && Conts(in_, 2) then 3
    else if Lead(b, 4) && Conts(in_, 3) then 4
    else if Lead(b, 5) && Conts(in_, 4) then 5
    else if Lead(b, 6) && Conts(in_, 5) then 6
    else 1
  }

  function Payload(b: bv8): bv32 {
    (b & 0x3f) as bv32
  }

  function Join2(x: bv8, b: bv8): bv32 {
    (((x & 0x1f) as bv32) << 6) | Payload(b)
  }

  function Join3(x: bv8, b: bv8, c: bv8): bv32 {
    (((x & 0xf) as bv32) << 12) | (Payload(b) << 6) | Payload(c)
  }

  function Join4(x: bv8, b: bv8, c: bv8, d: bv8): bv32 {
    (((x & 0x7) as bv32) << 18) | (Payload(b) << 12) | (Payload(c) << 6) | Payload(d)
  }

  function Join5(x: bv8, b: bv8, c: bv8, d: bv8, e: bv8): bv32 {
    (((x & 0x3) as bv32) << 24) | (Payload(b) << 18) | (Payload(c) << 12) | (Payload(d) << 6) | Payload(e)
  }

  function Join6(x: bv8, b: bv8, c: bv8, d: bv8, e: bv8, f: bv8): bv32 {
    (((x & 0x1) as bv32) << 30) | (Payload(b) << 24) | (Payload(c) << 18)
    | (Payload(d) << 12) | (Payload(e) << 6) | Payload(f)
  }

  /** fcitx_utf8_get_char: the character and how far the returned pointer has moved. */
  function GetChar(in_: CString): (r: (bv32, nat))
    ensures r.1 == CharLen(in_)
  {
    var b := Byte(in_, 0);
    if Lead(b, 1) then (b as bv32, 1)
    else if Lead(b, 2) && Conts(in_, 1) then (Join2(b, in_[1]), 2)
    else if Lead(b, 3) && Conts(in_, 2) then (Join3(b, in_[1], in_[2]), 3)
    else if Lead(b, 4) && Conts(in_, 3) then (Join4(b, in_[1], in_[2], in_[3]), 4)
    else if Lead(b, 5) && Conts(in_, 4) then (Join5(b, in_[1], in_[2], in_[3], in_[4]), 5)
    else if Lead(b, 6) && Conts(in_, 5) then (Join6(b, in_[1], in_[2], in_[3], in_[4], in_[5]), 6)
    else (b as bv32, 1)
  }

  /** The first byte of the `n` byte form of `c`. */
  function LeadOf(c: bv32, n: nat): bv8 {
    if n == 1 then (c & 0xff) as bv8
    else if n == 2 then (0xc0 + ((c >> 6) & 0x1f)) as bv8
    else if n == 3 then (0xe0 + ((c >> 12) & 0x0f)) as bv8
    else if n == 4 then (0xf0 + ((c >> 18) & 0x07)) as bv8
    else if n == 5 then (0xf8 + ((c >> 24) & 0x03)) as bv8
    else (0xfc + ((c >> 30) & 0x01)) as bv8
  }

  /** A continuation byte with the low six bits of `c`. */
  function Tail(c: bv32): bv8 {
    (0x80 + (c & 0x3f)) as bv8
  }

  /** The `n` byte form of `c`. */
  function Form(c: bv32, n: nat): (s: seq<bv8>)
    requires 1 <= n <= 6
    ensures |s| == n
  {
    if n == 1 then [LeadOf(c, 1)]
    else if n == 2 then [LeadOf(c, 2), Tail(c)]
    else if n == 3 then [LeadOf(c, 3), Tail(c >> 6), Tail(c)]
    else if n == 4 then [LeadOf(c, 4), Tail(c >> 12), Tail(c >> 6), Tail(c)]
    else if n == 5 then [LeadOf(c, 5), Tail(c >> 18), Tail(c >> 12), Tail(c >> 6), Tail(c)]
    else [LeadOf(c, 6), Tail(c >> 24), Tail(c >> 18), Tail(c >> 12), Tail(c >> 6), Tail(c)]
  }

  /** fcitx_ucs4_char_len, and the branches of fcitx_ucs4_to_utf8 */
  function Ucs4CharLen(c: bv32): (n: nat)
    ensures 1 <= n <= 6
  {
    if c < 0x80 then 1
    else if c < 0x800 then 2
    else if c < 0x10000 then 3
    else if c < 0x200000 then 4
    else if c < 0x8000000 then 5
    else 6
  }

  /** fcitx_ucs4_to_utf8, up to the terminator it writes. */
  function Encode(c: bv32): seq<bv8> {
    Form(c, Ucs4CharLen(c))
  }

  // Bit-vector facts, each on its own.

  lemma TailIsCont(c: bv32)
    ensures Cont(Tail(c)) && Tail(c) != 0
  {
  }

  lemma LeadOfIsLead(c: bv32, n: nat)
    requires 1 <= n <= 6 && (n == 1 ==> c < 0x80)
    ensures forall k | 1 <= k <= 6 :: Lead(LeadOf(c, n), k) <==> k == n
    ensures n > 1 ==> LeadOf(c, n) != 0
  {
    forall k | 1 <= k <= 6 ensures Lead(LeadOf(c, n), k) <==> k == n {
      LeadBits(c, n, k);
    }
  }

  lemma LeadBits(c: bv32, n: nat, k: nat)
    requires 1 <= n <= 6 && 1 <= k <= 6 && (n == 1 ==> c < 0x80)
    ensures Lead(LeadOf(c, n), k) <==> k == n
    ensures n > 1 ==> LeadOf(c, n) != 0
  {
  }

  lemma Joined2(c: bv32)
    ensures Join2(LeadOf(c, 2), Tail(c)) == Kept(c, 2)
  {
  }

  lemma Joined3(c: bv32)
    ensures Join3(LeadOf(c, 3), Tail(c >> 6), Tail(c)) == Kept(c, 3)
  {
  }

  lemma Joined4(c: bv32)
    ensures Join4(LeadOf(c, 4), Tail(c >> 12), Tail(c >> 6), Tail(c)) == Kept(c, 4)
  {
  }

  lemma Joined5(c: bv32)
    ensures Join5(LeadOf(c, 5), Tail(c >> 18), Tail(c >> 12), Tail(c >> 6), Tail(c)) == Kept(c, 5)
  {
  }

  lemma Joined6(c: bv32)
    ensures Join6(LeadOf(c, 6), Tail(c >> 24), Tail(c >> 18), Tail(c >> 12), Tail(c >> 6), Tail(c)) == Kept(c, 6)
  {
  }

  /** The bits of `c` that the `n` byte form has room for. */
  function Kept(c: bv32, n: nat): bv32 {
    if n == 1 then c & 0x7f
    else if n == 2 then c & 0x7ff
    else if n == 3 then c & 0xffff
    else if n == 4 then c & 0x1fffff
    else if n == 5 then c & 0x3ffffff
    else c & 0x7fffffff
  }

  lemma FormNoNul(c: bv32, n: nat)
    requires 1 <= n <= 6 && (n == 1 ==> 0 < c < 0x80)
    ensures NoNul(Form(c, n))
  {
    hide Tail, LeadOf;
    LeadOfIsLead(c, n);
    TailIsCont(c);
    TailIsCont(c >> 6);
    TailIsCont(c >> 12);
    TailIsCont(c >> 18);
    TailIsCont(c >> 24);
    if n == 1 {
      Ascii(c);
    }
  }

  lemma Ascii(c: bv32)
    requires c < 0x80
    ensures LeadOf(c, 1) as bv32 == c && Kept(c, 1) == c
    ensures c != 0 ==> LeadOf(c, 1) != 0
  {
  }

  lemma ConcatNoNul(s: seq<bv8>, r: seq<bv8>)
    ensures NoNul(s) && NoNul(r) <==> NoNul(s + r)
  {
    if NoNul(s + r) {
      assert forall i | 0 <= i < |s| :: s[i] == (s + r)[i];
      assert forall i | 0 <= i < |r| :: r[i] == (s + r)[|s| + i];
    }
  }

  lemma FormConts(c: bv32, n: nat, in_: CString)
    requires 1 <= n <= 6 && (n == 1 ==> c < 0x80)
    requires n <= |in_| && in_[..n] == Form(c, n)
    ensures Conts(in_, n - 1) && forall k | 1 <= k <= 6 :: Lead(in_[0], k) <==> k == n
  {
    hide Tail, LeadOf, Lead;
    LeadOfIsLead(c, n);
    TailIsCont(c);
    TailIsCont(c >> 6);
    TailIsCont(c >> 12);
    TailIsCont(c >> 18);
    TailIsCont(c >> 24);
    assert forall i | 0 <= i < n :: in_[i] == Form(c, n)[i];
    ContsAll(in_, n - 1);
  }

  lemma {:induction false} ContsAll(in_: CString, k: nat)
    requires k < |in_| && forall i | 1 <= i <= k :: Cont(in_[i])
    ensures Conts(in_, k)
  {
    if k == 0 {
    } else {
      ContsAll(in_, k - 1);
    }
  }

  /** Decoding the `n` byte form gives the bits it has room for, and stops right behind it. */
  lemma DecodeForm(c: bv32, n: nat, in_: CString)
    requires 1 <= n <= 6 && (n == 1 ==> c < 0x80)
    requires n <= |in_| && in_[..n] == Form(c, n)
    ensures GetChar(in_) == (Kept(c, n), n)
  {
    hide Tail, LeadOf, Lead, Conts, Join2, Join3, Join4, Join5, Join6, Kept;
    FormConts(c, n, in_);
    assert forall i | 0 <= i < n :: in_[i] == Form(c, n)[i];
    Joined2(c);
    Joined3(c);
    Joined4(c);
    Joined5(c);
    Joined6(c);
    if n == 1 {
      Ascii(c);
    }
  }

  /** Exactly the values whose encoding can be read back. */
  predicate RoundTrips(c: bv32) {
    c < 0x4000000 || 0x8000000 <= c < 0x80000000
  }

  lemma RoomIsEnough(c: bv32)
    ensures Kept(c, Ucs4CharLen(c)) == c <==> RoundTrips(c)
  {
    hide RoundTrips, Kept, Ucs4CharLen;
    if c < 0x80 {
      Mask1(c);
    } else if c < 0x800 {
      Mask2(c);
    } else if c < 0x10000 {
      Mask3(c);
    } else if c < 0x200000 {
      Mask4(c);
    } else if c < 0x8000000 {
      Mask5(c);
    } else {
      Mask6(c);
    }
  }

  lemma Mask1(c: bv32)
    requires c < 0x80
    ensures Ucs4CharLen(c) == 1 && Kept(c, 1) == c && RoundTrips(c)
  {
  }

  lemma Mask2(c: bv32)
    requires 0x80 <= c < 0x800
    ensures Ucs4CharLen(c) == 2 && Kept(c, 2) == c && RoundTrips(c)
  {
  }

  lemma Mask3(c: bv32)
    requires 0x800 <= c < 0x10000
    ensures Ucs4CharLen(c) == 3 && Kept(c, 3) == c && RoundTrips(c)
  {
  }

  lemma Mask4(c: bv32)
    requires 0x10000 <= c < 0x200000
    ensures Ucs4CharLen(c) == 4 && Kept(c, 4) == c && RoundTrips(c)
  {
  }

  lemma Mask5(c: bv32)
    requires 0x200000 <= c < 0x8000000
    ensures Ucs4CharLen(c) == 5 && (Kept(c, 5) == c <==> RoundTrips(c))
  {
  }

  lemma Mask6(c: bv32)
    requires c >= 0x8000000
    ensures Ucs4CharLen(c) == 6 && (Kept(c, 6) == c <==> RoundTrips(c))
  {
  }

  lemma EncodeNoNul(c: bv32)
    requires c != 0
    ensures NoNul(Encode(c))
  {
    FormNoNul(c, Ucs4CharLen(c));
  }

  /** A string that begins with the encoding of `c`; that of 0 is the terminator, behind which nothing counts. */
  function Starting(c: bv32, rest: CString): CString {
    if c == 0 then []
    else
      EncodeNoNul(c);
      ConcatNoNul(Encode(c), rest);
      Encode(c) + rest
  }

  /**
    Decoding an encoding moves on by exactly its length, and gives the value back precisely outside
    the band from 2^26 to 2^27, where the five byte form drops a bit, and below 2^31.
   */
  lemma RoundTrip(c: bv32, rest: CString)
    ensures GetChar(Starting(c, rest)).1 == |Encode(c)| == Ucs4CharLen(c)
    ensures GetChar(Starting(c, rest)).0 == c <==> RoundTrips(c)
  {
    hide Form, GetChar, Kept, RoundTrips, Ucs4CharLen;
    if c == 0 {
      ZeroRoundTrips();
    } else {
      var s := Starting(c, rest);
      RoomIsEnough(c);
      assert s[..Ucs4CharLen(c)] == Encode(c);
      if Ucs4CharLen(c) == 1 {
        OneByte(c);
      }
      DecodeForm(c, Ucs4CharLen(c), s);
    }
  }

  lemma ZeroRoundTrips()
    ensures GetChar([]) == (0, Ucs4CharLen(0)) && Encode(0) == [0] && RoundTrips(0)
  {
  }

  lemma OneByte(c: bv32)
    ensures Ucs4CharLen(c) == 1 <==> c < 0x80
  {
  }
}

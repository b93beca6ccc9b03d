/** utf8.c: the strict decoder, which accepts shortest forms only. */
module Utf8Strict {
  import opened Utf8

  /** (uint32_t) -1 and (uint32_t) -2 */
  const MALFORMED: bv32 := 0xffffffff
  const PARTIAL: bv32 := 0xfffffffe

  /** UTF8_LENGTH: the five byte form ends at 2^26 here. */
  function Length(c: bv32): nat {
    if c < 0x80 then 1
    else if c < 0x800 then 2
    else if c < 0x10000 then 3
    else if c < 0x200000 then 4
    else if c < 0x4000000 then 5
    else 6
  }

  /** UNICODE_VALID */
  predicate UnicodeValid(c: bv32) {
    && c < 0x110000
    && c & 0xfffff800 != 0xd800
    && (c < 0xfdd0 || c > 0xfdef)
    && c & 0xfffe != 0xfffe
  }

  /** The length a first byte announces, 0 for a byte that cannot be first. */
  function Announced(wc: bv32): nat {
    if wc < 0x80 then 1
    else if wc < 0xc0 then 0
    else if wc < 0xe0 then 2
    else if wc < 0xf0 then 3
    else if wc < 0xf8 then 4
    else if wc < 0xfc then 5
    else if wc < 0xfe then 6
    else 0
  }

  function Masked(wc: bv32, n: nat): bv32 {
    if n == 2 then wc & 0x1f
    else if n == 3 then wc & 0x0f
    else if n == 4 then wc & 0x07
    else if n == 5 then wc & 0x03
    else wc & 0x01
  }

  /** One turn of the loop of fcitx_utf8_get_char_extended. */
  function Shifted(wc: bv32, b: bv8): bv32 {
    (wc << 6) | (b as bv32 & 0x3f)
  }

  /** The value of an `n` byte form after its first `k` continuation bytes. */
  function Gathered(in_: CString, n: nat, k: nat): bv32
    requires k < |in_|
  {
    if k == 0 then Masked(in_[0] as bv32, n) else Shifted(Gathered(in_, n, k - 1), in_[k])
  }

  /** The first byte from `k` on that is not a continuation byte; the terminator is none. */
  function Run(in_: CString, k: nat): (r: nat)
    requires k <= |in_|
    ensures k <= r <= |in_| && !Cont(Byte(in_, r))
    ensures forall i | k <= i < r :: Cont(in_[i])
    decreases |in_| - k
  {
    if Cont(Byte(in_, k)) then ContIsNotNul(Byte(in_, k)); Run(in_, k + 1) else k
  }

  lemma RunIsConts(in_: CString, k: nat)
    requires in_ != [] && k <= |in_|
    ensures k < |in_| && Conts(in_, k) <==> k < Run(in_, 1)
  {
    if k < Run(in_, 1) {
      ContsAll(in_, k);
    }
  }

  /** What fcitx_utf8_get_char_extended computes; ExtendedMeans says what that is. */
  function Extended(in_: CString, maxLen: int): bv32 {
    var n := Announced(Byte(in_, 0) as bv32);
    if n == 1 then Byte(in_, 0) as bv32
    else if n == 0 || in_ == [] then MALFORMED
    else if 0 <= maxLen < n then
      if maxLen <= Run(in_, 1) then PARTIAL else MALFORMED
    else if n <= Run(in_, 1) then
      var wc := Gathered(in_, n, n - 1);
      if Length(wc) != n then MALFORMED else wc
    else if Byte(in_, Run(in_, 1)) != 0 then MALFORMED
    else PARTIAL
  }

  /** fcitx_utf8_get_char_extended */
  method GetCharExtended(in_: CString, maxLen: int) returns (r: bv32)
    ensures r == Extended(in_, maxLen)
  {
    hide Masked, Shifted, Cont, Length;
    var wc: bv32 := Byte(in_, 0) as bv32;
    var len := Announced(wc);
    if len == 1 {
      return wc;
    } else if len == 0 {
      return MALFORMED;
    }
    NotNul(in_);
    wc := Masked(wc, len);
    if 0 <= maxLen < len {
      var i := 1;
      while i < maxLen
        invariant 1 <= i && (1 < maxLen ==> i <= maxLen) && i <= |in_| && Run(in_, i) == Run(in_, 1)
      {
        if !Cont(Byte(in_, i)) {
          return MALFORMED;
        }
        ContIsNotNul(Byte(in_, i));
        i := i + 1;
      }
      return PARTIAL;
    }
    var i := 1;
    while i < len
      invariant 1 <= i <= len && i <= |in_| && Run(in_, i) == Run(in_, 1)
      invariant wc == Gathered(in_, len, i - 1)
    {
      var ch := Byte(in_, i);
      if !Cont(ch) {
        if ch != 0 {
          return MALFORMED;
        } else {
          return PARTIAL;
        }
      }
      ContIsNotNul(ch);
      wc := Shifted(wc, ch);
      i := i + 1;
    }
    if Length(wc) != len {
      return MALFORMED;
    }
    return wc;
  }

  lemma NotNul(in_: CString)
    requires Announced(Byte(in_, 0) as bv32) != 1
    ensures in_ != []
  {
  }

  // The value gathered byte by byte is the one fcitx_utf8_get_char puts together at once.

  lemma Gathered2(in_: CString)
    requires |in_| > 1
    ensures Gathered(in_, 2, 1) == Join2(in_[0], in_[1])
  {
    hide Gathered, Join2, Payload, Shifted, Masked;
    GatheredSteps(in_, 2, 1);
    Folded2(in_[0], in_[1]);
  }

  lemma Gathered3(in_: CString)
    requires |in_| > 2
    ensures Gathered(in_, 3, 2) == Join3(in_[0], in_[1], in_[2])
  {
    hide Gathered, Join3, Payload, Shifted, Masked;
    GatheredSteps(in_, 3, 2);
    Folded3(in_[0], in_[1], in_[2]);
  }

  lemma Gathered4(in_: CString)
    requires |in_| > 3
    ensures Gathered(in_, 4, 3) == Join4(in_[0], in_[1], in_[2], in_[3])
  {
    hide Gathered, Join4, Payload, Shifted, Masked;
    GatheredSteps(in_, 4, 3);
    Folded4(in_[0], in_[1], in_[2], in_[3]);
  }

  lemma Gathered5(in_: CString)
    requires |in_| > 4
    ensures Gathered(in_, 5, 4) == Join5(in_[0], in_[1], in_[2], in_[3], in_[4])
  {
    hide Gathered, Join5, Payload, Shifted, Masked;
    GatheredSteps(in_, 5, 4);
    Folded5(in_[0], in_[1], in_[2], in_[3], in_[4]);
  }

  lemma Gathered6(in_: CString)
    requires |in_| > 5
    ensures Gathered(in_, 6, 5) == Join6(in_[0], in_[1], in_[2], in_[3], in_[4], in_[5])
  {
    hide Gathered, Join6, Payload, Shifted, Masked;
    GatheredSteps(in_, 6, 5);
    Folded6(in_[0], in_[1], in_[2], in_[3], in_[4], in_[5]);
  }

  lemma GatheredSteps(in_: CString, n: nat, k: nat)
    requires k < |in_|
    ensures Gathered(in_, n, 0) == Masked(in_[0] as bv32, n)
    ensures forall j | 1 <= j <= k :: Gathered(in_, n, j) == Shifted(Gathered(in_, n, j - 1), in_[j])
  {
    hide Masked, Shifted;
  }

  lemma Folded2(x: bv8, b: bv8)
    ensures Shifted(Masked(x as bv32, 2), b) == Join2(x, b)
  {
  }

  lemma Folded3(x: bv8, b: bv8, c: bv8)
    ensures Shifted(Shifted(Masked(x as bv32, 3), b), c) == Join3(x, b, c)
  {
  }

  lemma Folded4(x: bv8, b: bv8, c: bv8, d: bv8)
    ensures Shifted(Shifted(Shifted(Masked(x as bv32, 4), b), c), d) == Join4(x, b, c, d)
  {
  }

  lemma Folded5(x: bv8, b: bv8, c: bv8, d: bv8, e: bv8)
    ensures Shifted(Shifted(Shifted(Shifted(Masked(x as bv32, 5), b), c), d), e) == Join5(x, b, c, d, e)
  {
  }

  lemma Folded6(x: bv8, b: bv8, c: bv8, d: bv8, e: bv8, f: bv8)
    ensures Shifted(Shifted(Shifted(Shifted(Shifted(Masked(x as bv32, 6), b), c), d), e), f) == Join6(x, b, c, d, e, f)
  {
  }

  lemma AnnouncedIsLead(b: bv8, n: nat)
    requires 1 <= n <= 6
    ensures Announced(b as bv32) == n <==> Lead(b, n)
  {
  }

  lemma AnnouncedRange(b: bv8)
    ensures 0 <= Announced(b as bv32) <= 6
  {
  }

  /** The `n` byte form of `c` stands at the front of `in_`. */
  predicate Starts(in_: CString, c: bv32, n: nat)
    requires 1 <= n <= 6
  {
    n <= |in_| && in_[..n] == Form(c, n)
  }

  /** A first byte with all the continuation bytes it announces is the form of the value they carry. */
  lemma FormOfGathered(in_: CString, n: nat)
    requires 2 <= n <= 6 && n <= |in_| && Lead(in_[0], n) && Conts(in_, n - 1)
    ensures Starts(in_, Gathered(in_, n, n - 1), n) && Gathered(in_, n, n - 1) == GetChar(in_).0 < 0x80000000
  {
    hide Gathered, Form, Join2, Join3, Join4, Join5, Join6, Cont, Lead, GetChar;
    GetCharOf(in_, n);
    if n == 2 {
      StartsForm2(in_);
    } else if n == 3 {
      StartsForm3(in_);
    } else if n == 4 {
      StartsForm4(in_);
    } else if n == 5 {
      StartsForm5(in_);
    } else {
      StartsForm6(in_);
    }
  }

  lemma StartsForm2(in_: CString)
    requires 2 <= |in_| && Lead(in_[0], 2) && Conts(in_, 1)
    ensures Starts(in_, Gathered(in_, 2, 1), 2) && Gathered(in_, 2, 1) == Join2(in_[0], in_[1]) < 0x80000000
  {
    hide Gathered, Form, Join2, Cont, Lead;
    Gathered2(in_);
    Form2(in_[0], in_[1]);
    assert in_[..2] == [in_[0], in_[1]];
  }

  lemma StartsForm3(in_: CString)
    requires 3 <= |in_| && Lead(in_[0], 3) && Conts(in_, 2)
    ensures Starts(in_, Gathered(in_, 3, 2), 3) && Gathered(in_, 3, 2) == Join3(in_[0], in_[1], in_[2]) < 0x80000000
  {
    hide Gathered, Form, Join3, Cont, Lead;
    Gathered3(in_);
    Form3(in_[0], in_[1], in_[2]);
    assert in_[..3] == [in_[0], in_[1], in_[2]];
  }

  lemma StartsForm4(in_: CString)
    requires 4 <= |in_| && Lead(in_[0], 4) && Conts(in_, 3)
    ensures Starts(in_, Gathered(in_, 4, 3), 4)
    ensures Gathered(in_, 4, 3) == Join4(in_[0], in_[1], in_[2], in_[3]) < 0x80000000
  {
    hide Gathered, Form, Join4, Cont, Lead;
    Gathered4(in_);
    Form4(in_[0], in_[1], in_[2], in_[3]);
    assert in_[..4] == [in_[0], in_[1], in_[2], in_[3]];
  }

  lemma StartsForm5(in_: CString)
    requires 5 <= |in_| && Lead(in_[0], 5) && Conts(in_, 4)
    ensures Starts(in_, Gathered(in_, 5, 4), 5)
    ensures Gathered(in_, 5, 4) == Join5(in_[0], in_[1], in_[2], in_[3], in_[4]) < 0x80000000
  {
    hide Gathered, Form, Join5, Cont, Lead;
    Gathered5(in_);
    Form5(in_[0], in_[1], in_[2], in_[3], in_[4]);
    assert in_[..5] == [in_[0], in_[1], in_[2], in_[3], in_[4]];
  }

  lemma StartsForm6(in_: CString)
    requires 6 <= |in_| && Lead(in_[0], 6) && Conts(in_, 5)
    ensures Starts(in_, Gathered(in_, 6, 5), 6)
    ensures Gathered(in_, 6, 5) == Join6(in_[0], in_[1], in_[2], in_[3], in_[4], in_[5]) < 0x80000000
  {
    hide Gathered, Form, Join6, Cont, Lead;
    Gathered6(in_);
    Form6(in_[0], in_[1], in_[2], in_[3], in_[4], in_[5]);
    assert in_[..6] == [in_[0], in_[1], in_[2], in_[3], in_[4], in_[5]];
  }

  lemma LeadsExclude(b: bv8, n: nat, k: nat)
    requires 1 <= n <= 6 && 1 <= k <= 6 && n != k && Lead(b, n)
    ensures !Lead(b, k)
  {
  }

  lemma GetCharOf(in_: CString, n: nat)
    requires 2 <= n <= 6 && n <= |in_| && Lead(in_[0], n) && Conts(in_, n - 1)
    ensures GetChar(in_) == (if n == 2 then Join2(in_[0], in_[1])
                             else if n == 3 then Join3(in_[0], in_[1], in_[2])
                             else if n == 4 then Join4(in_[0], in_[1], in_[2], in_[3])
                             else if n == 5 then Join5(in_[0], in_[1], in_[2], in_[3], in_[4])
                             else Join6(in_[0], in_[1], in_[2], in_[3], in_[4], in_[5]), n)
  {
    hide Lead, Conts, Join2, Join3, Join4, Join5, Join6;
    forall k | 1 <= k <= 6 && k != n ensures !Lead(in_[0], k) {
      LeadsExclude(in_[0], n, k);
    }
  }

  lemma Form2(x: bv8, b: bv8)
    requires Lead(x, 2) && Cont(b)
    ensures Form(Join2(x, b), 2) == [x, b] && Join2(x, b) < 0x80000000
  {
    Unjoin2(x, b);
  }

  lemma Form3(x: bv8, b: bv8, c: bv8)
    requires Lead(x, 3) && Cont(b) && Cont(c)
    ensures Form(Join3(x, b, c), 3) == [x, b, c] && Join3(x, b, c) < 0x80000000
  {
    hide Join3, Tail, LeadOf, Lead, Cont;
    Unjoin3(x, b, c);
  }

  lemma Form4(x: bv8, b: bv8, c: bv8, d: bv8)
    requires Lead(x, 4) && Cont(b) && Cont(c) && Cont(d)
    ensures Form(Join4(x, b, c, d), 4) == [x, b, c, d] && Join4(x, b, c, d) < 0x80000000
  {
    hide Join4, Tail, LeadOf, Lead, Cont;
    Unjoin4(x, b, c, d);
  }

  lemma Form5(x: bv8, b: bv8, c: bv8, d: bv8, e: bv8)
    requires Lead(x, 5) && Cont(b) && Cont(c) && Cont(d) && Cont(e)
    ensures Form(Join5(x, b, c, d, e), 5) == [x, b, c, d, e] && Join5(x, b, c, d, e) < 0x80000000
  {
    hide Join5, Tail, LeadOf, Lead, Cont;
    Unjoin5(x, b, c, d, e);
  }

  lemma Form6(x: bv8, b: bv8, c: bv8, d: bv8, e: bv8, f: bv8)
    requires Lead(x, 6) && Cont(b) && Cont(c) && Cont(d) && Cont(e) && Cont(f)
    ensures Form(Join6(x, b, c, d, e, f), 6) == [x, b, c, d, e, f] && Join6(x, b, c, d, e, f) < 0x80000000
  {
    hide Join6, Tail, LeadOf, Lead, Cont;
    Unjoin6(x, b, c, d, e, f);
  }

  lemma Unjoin2(x: bv8, b: bv8)
    requires Lead(x, 2) && Cont(b)
    ensures var v := Join2(x, b); LeadOf(v, 2) == x && Tail(v) == b && v < 0x80000000
  {
  }

  lemma Unjoin3(x: bv8, b: bv8, c: bv8)
    requires Lead(x, 3) && Cont(b) && Cont(c)
    ensures var v := Join3(x, b, c); LeadOf(v, 3) == x && Tail(v >> 6) == b && Tail(v) == c && v < 0x80000000
  {
  }

  lemma Unjoin4(x: bv8, b: bv8, c: bv8, d: bv8)
    requires Lead(x, 4) && Cont(b) && Cont(c) && Cont(d)
    ensures var v := Join4(x, b, c, d);
            LeadOf(v, 4) == x && Tail(v >> 12) == b && Tail(v >> 6) == c && Tail(v) == d && v < 0x80000000
  {
  }

  lemma Unjoin5(x: bv8, b: bv8, c: bv8, d: bv8, e: bv8)
    requires Lead(x, 5) && Cont(b) && Cont(c) && Cont(d) && Cont(e)
    ensures var v := Join5(x, b, c, d, e);
            LeadOf(v, 5) == x && Tail(v >> 18) == b && Tail(v >> 12) == c && Tail(v >> 6) == d && Tail(v) == e
            && v < 0x80000000
  {
  }

  lemma Unjoin6(x: bv8, b: bv8, c: bv8, d: bv8, e: bv8, f: bv8)
    requires Lead(x, 6) && Cont(b) && Cont(c) && Cont(d) && Cont(e) && Cont(f)
    ensures var v := Join6(x, b, c, d, e, f);
            LeadOf(v, 6) == x && Tail(v >> 24) == b && Tail(v >> 18) == c && Tail(v >> 12) == d && Tail(v >> 6) == e
            && Tail(v) == f && v < 0x80000000
  {
  }

  /** `c` fits the form of its own length, so decoding that form gives `c` back. */
  lemma LengthKeeps(c: bv32)
    requires c < 0x80000000
    ensures 1 <= Length(c) <= 6 && Kept(c, Length(c)) == c && (Length(c) == 1 ==> c < 0x80)
  {
    hide Kept, Length;
    if c < 0x80 {
      Fits1(c);
    } else if c < 0x800 {
      Fits2(c);
    } else if c < 0x10000 {
      Fits3(c);
    } else if c < 0x200000 {
      Fits4(c);
    } else if c < 0x4000000 {
      Fits5(c);
    } else {
      Fits6(c);
    }
  }

  lemma Fits1(c: bv32)
    requires c < 0x80
    ensures Length(c) == 1 && Kept(c, 1) == c
  {
  }

  lemma Fits2(c: bv32)
    requires 0x80 <= c < 0x800
    ensures Length(c) == 2 && Kept(c, 2) == c
  {
  }

  lemma Fits3(c: bv32)
    requires 0x800 <= c < 0x10000
    ensures Length(c) == 3 && Kept(c, 3) == c
  {
  }

  lemma Fits4(c: bv32)
    requires 0x10000 <= c < 0x200000
    ensures Length(c) == 4 && Kept(c, 4) == c
  {
  }

  lemma Fits5(c: bv32)
    requires 0x200000 <= c < 0x4000000
    ensures Length(c) == 5 && Kept(c, 5) == c
  {
  }

  lemma Fits6(c: bv32)
    requires 0x4000000 <= c < 0x80000000
    ensures Length(c) == 6 && Kept(c, 6) == c
  {
  }

  predicate IsChar(r: bv32) {
    r < 0x80000000
  }

  lemma ErrorsAreNotChars()
    ensures !IsChar(MALFORMED) && !IsChar(PARTIAL) && MALFORMED != PARTIAL
  {
  }

  lemma AsciiByte(b: bv8)
    requires Announced(b as bv32) == 1
    ensures Length(b as bv32) == 1 && IsChar(b as bv32) && Form(b as bv32, 1) == [b]
  {
  }

  /** Behind a character stands the shortest form of it, which the limit allows. */
  lemma ExtendedFinds(in_: CString, maxLen: int)
    requires in_ != [] && IsChar(Extended(in_, maxLen))
    ensures var c := Extended(in_, maxLen);
            && 1 <= Length(c) <= 6 && Starts(in_, c, Length(c)) && (Length(c) == 1 || maxLen < 0 || Length(c) <= maxLen)
  {
    hide Form, Length, Announced, IsChar, Gathered, Lead, Conts, Cont, Run;
    var b := in_[0];
    var n := Announced(b as bv32);
    ErrorsAreNotChars();
    AnnouncedRange(b);
    if n == 1 {
      AsciiByte(b);
      assert in_[..1] == [b];
    } else {
      RunIsConts(in_, n - 1);
      AnnouncedIsLead(b, n);
      FormOfGathered(in_, n);
    }
  }

  /** A shortest form within the limit is found, and is what fcitx_utf8_get_char reads as well. */
  lemma ExtendedReads(in_: CString, c: bv32, maxLen: int)
    requires 0 < c < 0x80000000 && 1 <= Length(c) <= 6 && Starts(in_, c, Length(c))
    requires Length(c) == 1 || maxLen < 0 || Length(c) <= maxLen
    ensures Extended(in_, maxLen) == c && GetChar(in_) == (c, Length(c))
  {
    hide Form, Length, Announced, Gathered, Lead, Conts, Cont, Run, GetChar, Kept;
    var n := Length(c);
    LengthKeeps(c);
    DecodeForm(c, n, in_);
    FormConts(c, n, in_);
    AnnouncedIsLead(in_[0], n);
    if n == 1 {
      GetCharAscii(in_);
    } else {
      RunIsConts(in_, n - 1);
      FormOfGathered(in_, n);
    }
  }

  lemma GetCharAscii(in_: CString)
    requires in_ != [] && Lead(in_[0], 1)
    ensures GetChar(in_).0 == in_[0] as bv32
  {
  }

  /**
    fcitx_utf8_get_char_extended finds a character exactly where its shortest form (section 2 of
    RFC 2279) stands, within the limit; at the terminator the result is 0.
   */
  lemma ExtendedMeans(in_: CString, c: bv32, maxLen: int)
    requires 0 < c < 0x80000000
    ensures 1 <= Length(c) <= 6
    ensures Extended(in_, maxLen) == c
            <==> Starts(in_, c, Length(c)) && (Length(c) == 1 || maxLen < 0 || Length(c) <= maxLen)
  {
    LengthKeeps(c);
    if Extended(in_, maxLen) == c {
      if in_ != [] {
        ExtendedFinds(in_, maxLen);
      }
    }
    if Starts(in_, c, Length(c)) && (Length(c) == 1 || maxLen < 0 || Length(c) <= maxLen) {
      ExtendedReads(in_, c, maxLen);
    }
  }

  /** An `n` byte form is cut short, by the limit, or else by the terminator. */
  predicate CutShort(in_: CString, maxLen: int, n: nat)
    requires in_ != []
  {
    if 0 <= maxLen < n then maxLen <= 1 || (maxLen <= |in_| && Conts(in_, maxLen - 1))
    else |in_| < n && Conts(in_, |in_| - 1)
  }

  predicate IsCutShort(in_: CString, maxLen: int) {
    in_ != [] && exists n | 2 <= n <= 6 :: Lead(in_[0], n) && CutShort(in_, maxLen, n)
  }

  /**
    The second error result: the first byte announces a form of which nothing is wrong but that it is
    cut short. All other failures are malformed.
   */
  lemma PartialMeans(in_: CString, maxLen: int)
    ensures Extended(in_, maxLen) == PARTIAL
            <==> IsCutShort(in_, maxLen)
  {
    hide Announced, Extended, CutShort, Lead;
    if in_ != [] {
      var m := Announced(in_[0] as bv32);
      AnnouncedRange(in_[0]);
      PartialBytes(in_, maxLen, m);
      if Extended(in_, maxLen) == PARTIAL {
        AnnouncedIsLead(in_[0], m);
      }
      forall n | 2 <= n <= 6 && Lead(in_[0], n) ensures n == m {
        AnnouncedIsLead(in_[0], n);
      }
    } else {
      EmptyIsNul(in_, maxLen);
    }
  }

  lemma EmptyIsNul(in_: CString, maxLen: int)
    requires in_ == []
    ensures Extended(in_, maxLen) == 0 != PARTIAL
  {
  }

  lemma PartialBytes(in_: CString, maxLen: int, n: nat)
    requires in_ != [] && n == Announced(in_[0] as bv32)
    ensures Extended(in_, maxLen) == PARTIAL <==> 2 <= n && CutShort(in_, maxLen, n)
  {
    hide *;
    AnnouncedRange(in_[0]);
    if n < 2 {
      UncutBytes(in_, maxLen);
    } else {
      CutIsRun(in_, maxLen, n);
      PartialRun(in_, maxLen, n);
    }
  }

  lemma UncutBytes(in_: CString, maxLen: int)
    requires in_ != [] && Announced(in_[0] as bv32) < 2
    ensures Extended(in_, maxLen) != PARTIAL
  {
    hide Announced, Gathered, Run, Length;
    if Announced(in_[0] as bv32) == 1 {
      AsciiIsChar(in_[0]);
    }
  }

  lemma PartialRun(in_: CString, maxLen: int, n: nat)
    requires in_ != [] && n == Announced(in_[0] as bv32) && 2 <= n
    ensures Extended(in_, maxLen) == PARTIAL
            <==> if 0 <= maxLen < n then maxLen <= Run(in_, 1) else Run(in_, 1) == |in_| < n
  {
    hide Announced, Gathered, Run, Length, Byte;
    FirstByte(in_);
    RunFacts(in_);
    if n <= Run(in_, 1) {
      WholeIsNoError(in_, n);
    }
  }

  lemma FirstByte(in_: CString)
    requires in_ != []
    ensures Byte(in_, 0) == in_[0]
  {
  }

  lemma WholeIsNoError(in_: CString, n: nat)
    requires in_ != [] && n == Announced(in_[0] as bv32) && 2 <= n <= Run(in_, 1)
    ensures n <= |in_| && Gathered(in_, n, n - 1) != PARTIAL
  {
    hide *;
    RunFacts(in_);
    AnnouncedRange(in_[0]);
    RunIsConts(in_, n - 1);
    AnnouncedIsLead(in_[0], n);
    FormOfGathered(in_, n);
    GatheredIsNoError(Gathered(in_, n, n - 1));
  }

  /** The form is cut short just when its continuation bytes go up to the limit, or to the terminator. */
  lemma CutIsRun(in_: CString, maxLen: int, n: nat)
    requires in_ != [] && 2 <= n
    ensures CutShort(in_, maxLen, n)
            <==> if 0 <= maxLen < n then maxLen <= Run(in_, 1) else Run(in_, 1) == |in_| < n
  {
    hide Cont, Conts;
    if 0 <= maxLen < n {
      if 1 < maxLen <= |in_| {
        RunIsConts(in_, maxLen - 1);
      }
    } else {
      RunIsConts(in_, |in_| - 1);
    }
  }

  lemma RunFacts(in_: CString)
    requires in_ != []
    ensures 1 <= Run(in_, 1) <= |in_| && (Byte(in_, Run(in_, 1)) == 0 <==> Run(in_, 1) == |in_|)
  {
  }

  lemma AsciiIsChar(b: bv8)
    requires Announced(b as bv32) == 1
    ensures b as bv32 != PARTIAL
  {
  }

  lemma GatheredIsNoError(wc: bv32)
    requires wc < 0x80000000
    ensures wc != PARTIAL
  {
  }
}

/** utf8.c on whole strings: validation, counting and bounded copying. */
module Utf8Strings {
  import opened Seqs
  import opened UnicodeLaws
  import opened Utf8
  import opened Utf8Strict

  /** What fcitx_utf8_get_char_validated computes; ValidatedMeans says what that is. */
  function Validated(in_: CString, maxLen: int): bv32 {
    if maxLen == 0 then PARTIAL
    else
      var r := Extended(in_, maxLen);
      if !IsChar(r) || UnicodeValid(r) then r else MALFORMED
  }

  /** A valid code point stands at the front, in its shortest form and within the limit. */
  ghost predicate Finds(in_: CString, c: bv32, maxLen: int) {
    && c != 0 && IsCodePoint(c as nat)
    && 1 <= Length(c) <= 6 && Starts(in_, c, Length(c)) && (maxLen < 0 || Length(c) <= maxLen)
  }

  /** fcitx_utf8_get_char_validated: a code point exactly where it is found, and else one of three answers. */
  method GetCharValidated(in_: CString, maxLen: int) returns (r: bv32)
    ensures r == Validated(in_, maxLen)
    ensures forall c :: Finds(in_, c, maxLen) ==> r == c
    ensures Finds(in_, r, maxLen) || r == 0 || r == 0xffffffff || r == 0xfffffffe
    ensures r == 0 <==> in_ == [] && maxLen != 0
    ensures r == 0xfffffffe <==> maxLen == 0 || IsCutShort(in_, maxLen)
  {
    hide UnicodeValid, Extended, Finds, IsCutShort;
    forall c | Finds(in_, c, maxLen) ensures Validated(in_, maxLen) == c {
      ValidatedReads(in_, c, maxLen);
    }
    ValidatedMeans(in_, maxLen);
    if maxLen == 0 {
      return PARTIAL;
    }
    r := GetCharExtended(in_, maxLen);
    TopBit(r);
    if r & 0x80000000 != 0 {
      return r;
    } else if !UnicodeValid(r) {
      return MALFORMED;
    }
  }

  lemma TopBit(r: bv32)
    ensures r & 0x80000000 == 0 <==> IsChar(r)
  {
  }

  /** Where a valid code point is found, it is the result. */
  lemma ValidatedReads(in_: CString, c: bv32, maxLen: int)
    requires Finds(in_, c, maxLen)
    ensures Validated(in_, maxLen) == c
  {
    hide UnicodeValid, IsCodePoint, Extended, Length, Starts;
    UnicodeValidMeans(c);
    ValidRoundTrips(c);
    ExtendedReads(in_, c, maxLen);
  }

  /** And otherwise the result is 0 at the terminator, or one of the two errors. */
  lemma ValidatedMeans(in_: CString, maxLen: int)
    ensures var r := Validated(in_, maxLen);
            && (Finds(in_, r, maxLen) || r == 0 || r == MALFORMED || r == PARTIAL)
            && (r == 0 <==> in_ == [] && maxLen != 0)
            && (r == PARTIAL <==> maxLen == 0 || IsCutShort(in_, maxLen))
  {
    hide UnicodeValid, IsCodePoint, Extended, Length, Starts, IsCutShort, IsChar;
    var r := Extended(in_, maxLen);
    UnicodeValidMeans(r);
    ErrorsAreNotChars();
    ZeroIsValid();
    PartialMeans(in_, maxLen);
    if in_ == [] {
      EmptyIsNul(in_, maxLen);
    } else {
      ExtendedErrors(in_, maxLen);
      if IsChar(r) {
        ExtendedFinds(in_, maxLen);
        FormOfZero(in_);
        if UnicodeValid(r) {
          ValidRoundTrips(r);
        }
      }
    }
  }

  lemma ZeroIsValid()
    ensures UnicodeValid(0) && IsChar(0) && 0 != MALFORMED && 0 != PARTIAL
  {
  }

  /** Code points a string may hold; NUL would end it. */
  ghost predicate Text(cs: seq<bv32>) {
    forall i | 0 <= i < |cs| :: cs[i] != 0 && IsCodePoint(cs[i] as nat)
  }

  /** The values that survive encoding and decoding. */
  predicate Readable(cs: seq<bv32>) {
    forall i | 0 <= i < |cs| :: cs[i] != 0 && RoundTrips(cs[i])
  }

  function EncodeAll(cs: seq<bv32>): (s: seq<bv8>)
  {
    if cs == [] then [] else Encode(cs[0]) + EncodeAll(cs[1..])
  }

  /** The characters that repeated fcitx_utf8_get_char finds, as the bytes it takes for each. */
  function Chars(s: CString): (r: seq<CString>) {
    if s == [] then [] else [s[..CharLen(s)]] + Chars(s[CharLen(s)..])
  }

  function Decode(s: CString): (r: seq<bv32>) {
    if s == [] then [] else [GetChar(s).0] + Decode(s[GetChar(s).1..])
  }

  function Flatten(parts: seq<CString>): (r: seq<bv8>)
  {
    if parts == [] then [] else parts[0] + Flatten(parts[1..])
  }

  lemma {:induction false} EncodeAllNoNul(cs: seq<bv32>)
    requires forall i | 0 <= i < |cs| :: cs[i] != 0
    ensures NoNul(EncodeAll(cs))
  {
    if cs == [] {
    } else {
      EncodeAllNoNul(cs[1..]);
      EncodeNoNul(cs[0]);
      ConcatNoNul(Encode(cs[0]), EncodeAll(cs[1..]));
    }
  }

  /** Decoding an encoded text gives the text back, character by character. */
  lemma {:induction false} DecodeEncodeAll(cs: seq<bv32>)
    requires Readable(cs)
    ensures NoNul(EncodeAll(cs)) && Decode(EncodeAll(cs)) == cs
    ensures Chars(EncodeAll(cs)) == seq(|cs|, i requires 0 <= i < |cs| => Encode(cs[i]))
  {
    hide RoundTrips, GetChar, CharLen, Encode;
    EncodeAllNoNul(cs);
    if cs == [] {
    } else {
      var rest := EncodeAll(cs[1..]);
      EncodeAllNoNul(cs[1..]);
      DecodeEncodeAll(cs[1..]);
      RoundTrip(cs[0], rest);
      assert (Encode(cs[0]) + rest)[|Encode(cs[0])|..] == rest;
      assert (Encode(cs[0]) + rest)[..|Encode(cs[0])|] == Encode(cs[0]);
    }
  }

  lemma TextIsReadable(cs: seq<bv32>)
    requires Text(cs)
    ensures Readable(cs)
  {
    hide UnicodeValid, IsCodePoint, RoundTrips;
    forall i | 0 <= i < |cs| ensures RoundTrips(cs[i]) {
      UnicodeValidMeans(cs[i]);
      ValidRoundTrips(cs[i]);
    }
  }

  lemma ValidRoundTrips(c: bv32)
    requires UnicodeValid(c)
    ensures RoundTrips(c) && c < 0x80000000
  {
  }

  lemma ValidLength(c: bv32)
    requires UnicodeValid(c)
    ensures Length(c) == Ucs4CharLen(c) <= 4
  {
    Plane(c);
  }

  lemma Plane(c: bv32)
    requires UnicodeValid(c)
    ensures c < 0x200000 && c < 0x4000000 && c < 0x8000000
  {
  }

  /** A text encodes to at most one byte string and a byte string to at most one text. */
  lemma EncodingIsUnique(a: seq<bv32>, b: seq<bv32>)
    requires Readable(a) && Readable(b) && EncodeAll(a) == EncodeAll(b)
    ensures a == b
  {
    DecodeEncodeAll(a);
    DecodeEncodeAll(b);
  }

  /** A byte string that encodes some text. */
  ghost predicate IsText(s: CString) {
    exists cs :: Text(cs) && EncodeAll(cs) == s
  }

  /** Where the strict decoder finds a valid code point, the rest decides. */
  lemma TextStep(s: CString, c: bv32)
    requires s != [] && c == Validated(s, 6) && c != MALFORMED && c != PARTIAL
    ensures GetChar(s) == (c, Ucs4CharLen(c)) && Ucs4CharLen(c) <= |s|
    ensures IsText(s) <==> IsText(s[Ucs4CharLen(c)..])
  {
    hide UnicodeValid, IsCodePoint, RoundTrips, GetChar, Extended, Length, Ucs4CharLen, Form;
    ValidatedFinds(s, c);
    UnicodeValidMeans(c);
    var n := Ucs4CharLen(c);
    var rest := s[n..];
    assert s == Encode(c) + rest;
    ExtendedReads(s, c, 6);
    if IsText(rest) {
      var cs :| Text(cs) && EncodeAll(cs) == rest;
      assert ([c] + cs)[1..] == cs;
      assert Text([c] + cs) && EncodeAll([c] + cs) == s;
    }
    if IsText(s) {
      var cs :| Text(cs) && EncodeAll(cs) == s;
      TextIsReadable(cs);
      EncodeAllNoNul(cs[1..]);
      RoundTrip(cs[0], EncodeAll(cs[1..]));
      assert Text(cs[1..]) && EncodeAll(cs[1..]) == rest;
    }
  }

  lemma ValidatedFinds(s: CString, c: bv32)
    requires s != [] && c == Validated(s, 6) && c != MALFORMED && c != PARTIAL
    ensures 0 < c < 0x80000000 && UnicodeValid(c)
    ensures 1 <= Length(c) == Ucs4CharLen(c) <= 4 && Starts(s, c, Length(c))
  {
    hide UnicodeValid, Length, Ucs4CharLen, Form, Extended;
    ExtendedErrors(s, 6);
    ValidLength(c);
    ValidRoundTrips(c);
    ExtendedFinds(s, 6);
    if c == 0 {
      FormOfZero(s);
    }
  }

  lemma ExtendedErrors(s: CString, maxLen: int)
    requires s != []
    ensures IsChar(Extended(s, maxLen)) || Extended(s, maxLen) == MALFORMED || Extended(s, maxLen) == PARTIAL
  {
    hide Form, Length, Announced, IsChar, Gathered, Lead, Conts, Cont, Run;
    var n := Announced(s[0] as bv32);
    AnnouncedRange(s[0]);
    if n == 1 {
      AsciiByte(s[0]);
    } else if n != 0 && n <= Run(s, 1) {
      RunIsConts(s, n - 1);
      AnnouncedIsLead(s[0], n);
      FormOfGathered(s, n);
      SmallIsChar(Gathered(s, n, n - 1));
    }
  }

  lemma SmallIsChar(c: bv32)
    requires c < 0x80000000
    ensures IsChar(c)
  {
  }

  lemma FormOfZero(s: CString)
    requires s != []
    ensures Length(0) == 1 && !Starts(s, 0, 1)
  {
    assert Form(0, 1)[0] == 0;
    assert s[..1][0] == s[0] != 0;
  }

  /** At the front of a text the strict decoder finds its first code point. */
  lemma TextStarts(s: CString, cs: seq<bv32>)
    requires cs != [] && Text(cs) && EncodeAll(cs) == s
    ensures Validated(s, 6) == cs[0] && cs[0] != MALFORMED && cs[0] != PARTIAL
  {
    hide UnicodeValid, IsCodePoint, RoundTrips, Extended, Length, Ucs4CharLen, Form;
    var c := cs[0];
    UnicodeValidMeans(c);
    ValidLength(c);
    ValidRoundTrips(c);
    ErrorsAreNotChars();
    assert s[..Ucs4CharLen(c)] == Encode(c);
    ExtendedReads(s, c, 6);
  }

  /** fcitx_utf8_check_string: accepts exactly the encodings of texts. */
  method CheckString(s: CString) returns (ok: bool)
    ensures ok <==> IsText(s)
  {
    hide Validated, GetChar, Ucs4CharLen;
    var rest := s;
    while rest != []
      invariant IsText(s) <==> IsText(rest)
      decreases |rest|
    {
      var chr := GetCharValidated(rest, 6);
      if chr == MALFORMED || chr == PARTIAL {
        NotText(rest);
        return false;
      }
      TextStep(rest, chr);
      rest := rest[GetChar(rest).1..];
    }
    assert Text([]) && EncodeAll([]) == rest;
    return true;
  }

  lemma NotText(s: CString)
    requires s != [] && (Validated(s, 6) == MALFORMED || Validated(s, 6) == PARTIAL)
    ensures !IsText(s)
  {
    if IsText(s) {
      var cs :| Text(cs) && EncodeAll(cs) == s;
      TextStarts(s, cs);
      assert false;
    }
  }

  /** fcitx_utf8_strlen */
  method Strlen(s: CString) returns (l: nat)
    ensures l == |Chars(s)| == |Decode(s)|
  {
    hide GetChar, CharLen;
    var rest := s;
    l := 0;
    while rest != []
      invariant l + |Chars(rest)| == |Chars(s)| && l + |Decode(rest)| == |Decode(s)|
      decreases |rest|
    {
      rest := rest[GetChar(rest).1..];
      l := l + 1;
    }
  }

  /** How many whole characters fit into `byte` bytes. */
  function Fit(parts: seq<CString>, byte: nat): (k: nat)
    ensures k <= |parts|
  {
    if parts == [] || byte < |parts[0]| then 0 else 1 + Fit(parts[1..], byte - |parts[0]|)
  }

  /** No more would fit. */
  lemma {:induction false} FitIsMost(parts: seq<CString>, byte: nat)
    ensures var k := Fit(parts, byte);
            |Flatten(parts[..k])| <= byte && (k < |parts| ==> |Flatten(parts[..k + 1])| > byte)
  {
    if parts != [] && byte >= |parts[0]| {
      FitIsMost(parts[1..], byte - |parts[0]|);
      var k := Fit(parts, byte);
      assert parts[..k][1..] == parts[1..][..k - 1];
      if k < |parts| {
        assert parts[..k + 1][1..] == parts[1..][..k];
      }
    } else if parts != [] {
      assert parts[..1][1..] == [];
    }
  }

  /** fcitx_utf8_strnlen */
  method Strnlen(str: CString, byte: nat) returns (len: nat)
    ensures len == Fit(Chars(str), byte)
  {
    hide GetChar, CharLen;
    var rest, left := str, byte;
    len := 0;
    while rest != [] && left > 0
      invariant len + Fit(Chars(rest), left) == Fit(Chars(str), byte)
      decreases |rest|
    {
      var diff := GetChar(rest).1;
      if left < diff {
        break;
      }
      left := left - diff;
      rest := rest[diff..];
      len := len + 1;
    }
  }

  lemma CharsStep(all: seq<CString>, done: seq<CString>, rest: CString, left: nat, byte: nat)
    requires rest != [] && CharLen(rest) <= left
    requires done + Chars(rest) == all && |done| + Fit(Chars(rest), left) == Fit(all, byte)
    ensures var d := CharLen(rest);
            && done + [rest[..d]] + Chars(rest[d..]) == all
            && |done| + 1 + Fit(Chars(rest[d..]), left - d) == Fit(all, byte)
            && Flatten(done + [rest[..d]]) == Flatten(done) + rest[..d]
  {
    var d := CharLen(rest);
    FlattenAppend(done, rest[..d]);
    ConcatAssociates(done, [rest[..d]], Chars(rest[d..]));
    assert Chars(rest)[0] == rest[..d] && Chars(rest)[1..] == Chars(rest[d..]);
  }

  lemma NothingFits(rest: CString, left: nat)
    requires rest == [] || left < CharLen(rest)
    ensures Fit(Chars(rest), left) == 0
  {
  }

  lemma EmptyFlat(s: CString, byte: nat)
    ensures Flatten([]) == [] && [] + Chars(s) == Chars(s)
  {
  }

  /** fcitx_utf8_strncpy: the longest prefix of whole characters, then NULs, `byte` bytes in all. */
  method Strncpy(str: array<bv8>, s: CString, byte: nat)
    requires byte <= str.Length
    modifies str
    ensures var copied := Flatten(Chars(s)[..Fit(Chars(s), byte)]);
            && |copied| <= byte && str[..|copied|] == copied
            && (forall i | |copied| <= i < byte :: str[i] == 0)
            && str[byte..] == old(str[byte..])
  {
    hide GetChar, CharLen, Chars, Fit, Flatten;
    EmptyFlat(s, byte);
    var rest: CString, left: nat, at: nat := s, byte, 0;
    ghost var done: seq<CString> := [];
    while rest != []
      invariant at + left == byte && at == |Flatten(done)|
      invariant str[..at] == Flatten(done) && str[byte..] == old(str[byte..])
      invariant done + Chars(rest) == Chars(s) && |done| + Fit(Chars(rest), left) == Fit(Chars(s), byte)
      decreases |rest|
    {
      var diff := GetChar(rest).1;
      if left < diff {
        break;
      }
      CharsStep(Chars(s), done, rest, left, byte);
      CopyBytes(str, at, rest[..diff]);
      assert str[..at + diff] == str[..at] + str[at..at + diff];
      done := done + [rest[..diff]];
      at, left, rest := at + diff, left - diff, rest[diff..];
    }
    NothingFits(rest, left);
    assert Chars(s)[..|done|] == done;
    FillZero(str, at, byte);
  }

  /** memcpy */
  method CopyBytes(str: array<bv8>, at: nat, part: seq<bv8>)
    requires at + |part| <= str.Length
    modifies str
    ensures str[..at] == old(str[..at]) && str[at..at + |part|] == part
    ensures str[at + |part|..] == old(str[at + |part|..])
  {
    forall i | 0 <= i < |part| {
      str[at + i] := part[i];
    }
  }

  method FillZero(str: array<bv8>, at: nat, end: nat)
    requires at <= end <= str.Length
    modifies str
    ensures str[..at] == old(str[..at]) && (forall i | at <= i < end :: str[i] == 0) && str[end..] == old(str[end..])
  {
    forall i | at <= i < end {
      str[i] := 0;
    }
  }

  lemma {:induction false} FlattenAppend(parts: seq<CString>, part: CString)
    ensures Flatten(parts + [part]) == Flatten(parts) + part
  {
    if parts == [] {
      assert Flatten([part]) == part + Flatten([part][1..]);
    } else {
      FlattenAppend(parts[1..], part);
      assert (parts + [part])[1..] == parts[1..] + [part];
      ConcatAssociates(parts[0], Flatten(parts[1..]), part);
    }
  }

  /** The characters taken one after the other are the whole string. */
  lemma {:induction false} FlattenChars(s: CString)
    ensures Flatten(Chars(s)) == s
    decreases |s|
  {
    if s == [] {
    } else {
      FlattenChars(s[CharLen(s)..]);
    }
  }

  /** What is copied is all of the string exactly if its bytes fit, and a proper prefix of it otherwise. */
  lemma CopiedWhole(s: CString, byte: nat)
    ensures var copied := Flatten(Chars(s)[..Fit(Chars(s), byte)]);
            copied <= s && (copied == s <==> |s| <= byte)
  {
    var parts := Chars(s);
    var k := Fit(parts, byte);
    FitIsMost(parts, byte);
    FlattenChars(s);
    FlattenPrefix(parts, k);
    assert parts[..|parts|] == parts;
    if k < |parts| {
      FlattenPrefix(parts, k + 1);
    }
  }

  lemma {:induction false} FlattenPrefix(parts: seq<CString>, k: nat)
    requires k <= |parts|
    ensures Flatten(parts[..k]) <= Flatten(parts)
  {
    if k == 0 {
      assert parts[..0] == [];
    } else {
      FlattenPrefix(parts[1..], k - 1);
      assert parts[..k][1..] == parts[1..][..k - 1];
    }
  }

  /** Whatever whole-character prefix of a text is copied is a text. */
  lemma PrefixIsText(s: CString, k: nat)
    requires IsText(s) && k <= |Chars(s)|
    ensures NoNul(Flatten(Chars(s)[..k])) && IsText(Flatten(Chars(s)[..k]))
  {
    hide IsCodePoint, RoundTrips, Encode, EncodeAll, CharLen, GetChar;
    var cs :| Text(cs) && EncodeAll(cs) == s;
    TextIsReadable(cs);
    DecodeEncodeAll(cs);
    FlattenEncoded(cs, k);
    EncodeAllNoNul(cs[..k]);
    assert Text(cs[..k]);
  }

  lemma {:induction false} FlattenEncoded(cs: seq<bv32>, k: nat)
    requires Readable(cs) && NoNul(EncodeAll(cs)) && k <= |cs|
    ensures |Chars(EncodeAll(cs))| == |cs| && Flatten(Chars(EncodeAll(cs))[..k]) == EncodeAll(cs[..k])
  {
    hide RoundTrips, Encode, CharLen, GetChar, NoNul;
    DecodeEncodeAll(cs);
    if k == 0 {
    } else {
      EncodeAllNoNul(cs[1..]);
      DecodeEncodeAll(cs[1..]);
      FlattenEncoded(cs[1..], k - 1);
      var parts := Chars(EncodeAll(cs));
      assert parts[..k][1..] == Chars(EncodeAll(cs[1..]))[..k - 1];
      assert cs[..k][1..] == cs[1..][..k - 1];
    }
  }
}

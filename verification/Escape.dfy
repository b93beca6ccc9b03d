/** stringutils.c: escaping with backslashes, and undoing it by copying or in place. */
module Escape {
  import opened Seqs

  const NUL := '\0'
  const BEL := '\U{7}'
  const BS := '\U{8}'
  const VT := '\U{b}'
  const FF := '\U{c}'
  const ESC := '\U{1b}'

  /** FCITX_CHAR_NEED_ESCAPE */
  const NEED_ESCAPE: string := [BEL, BS, FF, '\n', '\r', '\t', ESC, VT, '\'', '\"', '\\']

  /** fcitx_utils_escape_char */
  function EscapeChar(c: char): char {
    if c == BEL then 'a'
    else if c == BS then 'b'
    else if c == FF then 'f'
    else if c == '\n' then 'n'
    else if c == '\r' then 'r'
    else if c == '\t' then 't'
    else if c == ESC then 'e'
    else if c == VT then 'v'
    else c
  }

  /** fcitx_utils_unescape_char */
  function UnescapeChar(c: char): char {
    if c == 'a' then BEL
    else if c == 'b' then BS
    else if c == 'f' then FF
    else if c == 'n' then '\n'
    else if c == 'r' then '\r'
    else if c == 't' then '\t'
    else if c == 'e' then ESC
    else if c == 'v' then VT
    else c
  }

  function Escaped(s: string, set_: string): (r: string)
    ensures |s| <= |r| <= 2 * |s|
  {
    if s == [] then []
    else (if s[0] in set_ then ['\\', EscapeChar(s[0])] else [s[0]]) + Escaped(s[1..], set_)
  }

  /** Every backslash has a character behind it to apply to. */
  predicate NoDangling(s: string)
    decreases |s|
  {
    s == [] || if s[0] == '\\' then |s| >= 2 && NoDangling(s[2..]) else NoDangling(s[1..])
  }

  function Unescaped(s: string): (r: string)
    requires NoDangling(s)
    ensures |r| <= |s|
    decreases |s|
  {
    if s == [] then []
    else if s[0] == '\\' then [UnescapeChar(s[1])] + Unescaped(s[2..])
    else [s[0]] + Unescaped(s[1..])
  }

  /** Escaping a backslash too, and none of the letters that mean something behind one. */
  predicate Reversible(set_: string) {
    '\\' in set_ && forall c | c in "abfnrtev" :: c !in set_
  }

  ghost predicate RoundTrips(s: string, set_: string) {
    NoDangling(Escaped(s, set_)) && Unescaped(Escaped(s, set_)) == s
  }

  lemma {:induction false} UnescapeEscape(s: string, set_: string)
    requires Reversible(set_)
    ensures RoundTrips(s, set_)
  {
    if s == [] {
    } else {
      UnescapeEscape(s[1..], set_);
      var rest := Escaped(s[1..], set_);
      if s[0] in set_ {
        Letters(s[0]);
        assert Escaped(s, set_)[2..] == rest;
      } else {
        assert Escaped(s, set_)[1..] == rest;
      }
    }
  }

  lemma Letters(c: char)
    ensures UnescapeChar(EscapeChar(c)) == c <==> c !in "abfnrtev"
  {
  }

  /** The sets for which unescaping an escaped string returns every string are exactly the reversible ones. */
  lemma RoundTripsExactly(set_: string)
    ensures (forall s: string :: RoundTrips(s, set_)) <==> Reversible(set_)
  {
    if Reversible(set_) {
      forall s: string ensures RoundTrips(s, set_) {
        UnescapeEscape(s, set_);
      }
    } else if '\\' !in set_ {
      assert Escaped(['\\'], set_) == ['\\'];
      assert !RoundTrips(['\\'], set_);
    } else {
      var c :| c in "abfnrtev" && c in set_;
      Letters(c);
      OneEscaped(c, set_);
      assert !RoundTrips([c], set_);
    }
  }

  lemma OneEscaped(c: char, set_: string)
    requires c in set_
    ensures Escaped([c], set_) == ['\\', EscapeChar(c)]
    ensures Unescaped(['\\', EscapeChar(c)]) == [UnescapeChar(EscapeChar(c))]
  {
    assert Escaped([c][1..], set_) == [];
    assert Unescaped(['\\', EscapeChar(c)][2..]) == [];
  }

  lemma DefaultSetRoundTrips(s: string)
    ensures RoundTrips(s, NEED_ESCAPE)
  {
    assert NEED_ESCAPE[10] == '\\';
    UnescapeEscape(s, NEED_ESCAPE);
  }

  // strcspn: the run up to the next character of a set, or the end.

  function Span(s: string, set_: string): (n: nat)
    ensures n <= |s| && (n < |s| ==> s[n] in set_) && forall i | 0 <= i < n :: s[i] !in set_
  {
    if s == [] || s[0] in set_ then 0 else 1 + Span(s[1..], set_)
  }

  /** What the escaping loop writes behind the span of `s`. */
  function EscapedBehind(s: string, set_: string, n: nat): string {
    if n < |s| then ['\\', EscapeChar(s[n])] + Escaped(s[n + 1..], set_) else []
  }

  lemma {:induction false} EscapedSpan(s: string, set_: string)
    ensures Escaped(s, set_) == s[..Span(s, set_)] + EscapedBehind(s, set_, Span(s, set_))
  {
    hide Escaped, EscapedBehind;
    EscapedHead(s, set_);
    if s == [] || s[0] in set_ {
    } else {
      var h, t := s[0], s[1..];
      var m := Span(t, set_);
      EscapedSpan(t, set_);
      assert s == [h] + t;
      SpanCons(h, t, m);
      EscapedBehindCons(h, t, set_, m);
      ConcatAssociates([h], t[..m], EscapedBehind(t, set_, m));
    }
  }

  lemma EscapedHead(s: string, set_: string)
    ensures s == [] || s[0] in set_ ==> Escaped(s, set_) == s[..0] + EscapedBehind(s, set_, 0)
    ensures s != [] && s[0] !in set_ ==> Escaped(s, set_) == [s[0]] + Escaped(s[1..], set_)
  {
    EmptyIsUnit(Escaped(s, set_));
  }

  lemma EscapedBehindCons(h: char, t: string, set_: string, m: nat)
    ensures EscapedBehind([h] + t, set_, m + 1) == EscapedBehind(t, set_, m)
  {
    hide Escaped, EscapeChar;
    if m < |t| {
      assert ([h] + t)[m + 2..] == t[m + 1..];
    }
  }

  lemma SpanCons(h: char, t: string, m: nat)
    requires m <= |t|
    ensures ([h] + t)[..m + 1] == [h] + t[..m]
  {
  }

  function UnescapedBehind(s: string, n: nat): string
    requires n < |s| ==> n + 2 <= |s| && NoDangling(s[n + 2..])
  {
    if n < |s| then [UnescapeChar(s[n + 1])] + Unescaped(s[n + 2..]) else []
  }

  lemma UnescapedHead(s: string)
    requires s != [] && NoDangling(s)
    ensures s[0] != '\\' ==> NoDangling(s[1..]) && Unescaped(s) == [s[0]] + Unescaped(s[1..])
    ensures s[0] == '\\' ==> |s| >= 2 && NoDangling(s[2..]) && Unescaped(s) == [UnescapeChar(s[1])] + Unescaped(s[2..])
  {
  }

  lemma UnescapedNone(s: string)
    requires NoDangling(s) && (s == [] || s[0] == '\\')
    ensures s != [] ==> |s| >= 2 && NoDangling(s[2..])
    ensures Unescaped(s) == s[..0] + UnescapedBehind(s, 0)
  {
    EmptyIsUnit(Unescaped(s));
  }

  lemma UnescapedBehindCons(h: char, t: string, m: nat)
    requires m < |t| ==> m + 2 <= |t| && NoDangling(t[m + 2..])
    ensures m < |t| ==> NoDangling(([h] + t)[m + 3..])
    ensures UnescapedBehind([h] + t, m + 1) == UnescapedBehind(t, m)
  {
    if m < |t| {
      assert t[m + 2..] == ([h] + t)[m + 3..];
    }
  }

  lemma {:induction false} UnescapedSpan(s: string)
    requires NoDangling(s)
    ensures var n := Span(s, "\\");
            && (n < |s| ==> n + 2 <= |s| && NoDangling(s[n + 2..]))
            && Unescaped(s) == s[..n] + UnescapedBehind(s, n)
  {
    hide NoDangling, Unescaped, UnescapeChar, UnescapedBehind;
    if s == [] || s[0] == '\\' {
      UnescapedNone(s);
    } else {
      var h, t := s[0], s[1..];
      var m := Span(t, "\\");
      UnescapedHead(s);
      UnescapedSpan(t);
      SpanCons(h, t, m);
      assert s == [h] + t;
      UnescapedBehindCons(h, t, m);
      ConcatAssociates([h], t[..m], UnescapedBehind(t, m));
    }
  }

  /** One turn of the escaping loop, seen from what has been written. */
  lemma EscapedStep(done: string, s: string, set_: string)
    ensures var n := Span(s, set_);
            done + Escaped(s, set_)
            == if n < |s| then done + s[..n] + ['\\'] + [EscapeChar(s[n])] + Escaped(s[n + 1..], set_) else done + s
  {
    var n := Span(s, set_);
    EscapedSpan(s, set_);
    if n < |s| {
      assert ['\\', EscapeChar(s[n])] == ['\\'] + [EscapeChar(s[n])];
      Regroup(done, s[..n], ['\\'], [EscapeChar(s[n])], Escaped(s[n + 1..], set_));
    } else {
      assert s[..n] + [] == s;
    }
  }

  lemma Regroup(a: string, b: string, c: string, d: string, e: string)
    ensures a + (b + ((c + d) + e)) == a + b + c + d + e
  {
  }

  /** One turn of the unescaping loop, seen from what has been written. */
  lemma UnescapedStep(done: string, s: string)
    requires NoDangling(s)
    ensures var n := Span(s, "\\");
            && (n < |s| ==> n + 2 <= |s| && NoDangling(s[n + 2..]))
            && done + Unescaped(s)
               == if n < |s| then done + s[..n] + [UnescapeChar(s[n + 1])] + Unescaped(s[n + 2..]) else done + s
  {
    var n := Span(s, "\\");
    UnescapedSpan(s);
    if n < |s| {
      var u, rest := [UnescapeChar(s[n + 1])], Unescaped(s[n + 2..]);
      ConcatAssociates(done + s[..n], u, rest);
      ConcatAssociates(done, s[..n], u + rest);
    } else {
      assert s[..n] + [] == s;
    }
  }

  /** memcpy of `part` to `dest`, and moving `dest` behind it. */
  method Put(res: array<char>, dest: nat, part: string) returns (dest': nat)
    requires dest + |part| <= res.Length
    modifies res
    ensures dest' == dest + |part| && res[..dest'] == old(res[..dest]) + part
  {
    forall i | 0 <= i < |part| {
      res[dest + i] := part[i];
    }
    dest' := dest + |part|;
  }

  /** fcitx_utils_set_escape_str_with_set: never outgrows the 2 * len + 1 bytes it allocates. */
  method SetEscapeStrWithSet(str: string, set_: string) returns (res: array<char>, n: nat)
    ensures fresh(res) && res.Length == 2 * |str| + 1
    ensures n < res.Length && res[..n] == Escaped(str, set_) && res[n] == NUL
  {
    hide Escaped, EscapeChar, Span;
    res := new char[2 * |str| + 1];
    var dest: nat, src := 0, str;
    var len := Span(src, set_);
    while len < |src|
      invariant dest <= 2 * (|str| - |src|) && |src| <= |str| && len == Span(src, set_)
      invariant res[..dest] + Escaped(src, set_) == Escaped(str, set_)
      decreases |src|
    {
      EscapedStep(res[..dest], src, set_);
      dest := Put(res, dest, src[..len]);
      dest := Put(res, dest, ['\\']);
      dest := Put(res, dest, [EscapeChar(src[len])]);
      src := src[len + 1..];
      len := Span(src, set_);
    }
    EscapedStep(res[..dest], src, set_);
    dest := Put(res, dest, src);
    res[dest] := NUL;
    n := dest;
  }

  /** fcitx_utils_set_unescape_str, on a string without a dangling backslash. */
  method SetUnescapeStr(str: string) returns (res: array<char>, n: nat)
    requires NoDangling(str)
    ensures fresh(res) && res.Length == |str| + 1
    ensures n < res.Length && res[..n] == Unescaped(str) && res[n] == NUL
  {
    hide Unescaped, UnescapeChar, NoDangling, Span;
    res := new char[|str| + 1];
    var dest: nat, src := 0, str;
    var len := Span(src, "\\");
    while len < |src|
      invariant dest <= |str| - |src| && |src| <= |str| && len == Span(src, "\\")
      invariant NoDangling(src) && res[..dest] + Unescaped(src) == Unescaped(str)
      decreases |src|
    {
      UnescapedStep(res[..dest], src);
      dest := Put(res, dest, src[..len]);
      dest := Put(res, dest, [UnescapeChar(src[len + 1])]);
      src := src[len + 2..];
      len := Span(src, "\\");
    }
    UnescapedStep(res[..dest], src);
    dest := Put(res, dest, src);
    res[dest] := NUL;
    n := dest;
  }

  /** What is still to be read in the buffer, up to its terminator. */
  ghost predicate Unread(a: array<char>, src: nat, rest: string)
    reads a
  {
    && src + |rest| < a.Length && NUL !in rest && a[src + |rest|] == NUL
    && forall i | 0 <= i < |rest| :: a[src + i] == rest[i]
  }

  lemma AtTerminator(a: array<char>, src: nat, rest: string, len: nat)
    requires Unread(a, src, rest) && len <= |rest|
    ensures src + |rest| < a.Length && (a[src + len] == NUL <==> len == |rest|)
  {
    if len < |rest| {
      assert rest[len] in rest;
    }
  }

  /** strcspn(src, "\\") on the buffer as it is now. */
  method FindBackslash(a: array<char>, src: nat, ghost rest: string) returns (len: nat)
    requires Unread(a, src, rest)
    ensures len == Span(rest, "\\")
  {
    len := 0;
    while a[src + len] != '\\' && a[src + len] != NUL
      invariant len <= |rest| && len + Span(rest[len..], "\\") == Span(rest, "\\")
      decreases |rest| - len
    {
      assert rest[len..][1..] == rest[len + 1..];
      len := len + 1;
    }
  }

  /** memmove towards the beginning of the buffer. */
  method MoveDown(a: array<char>, dest: nat, src: nat, len: nat, ghost rest: string)
    requires dest <= src && Unread(a, src, rest) && len <= |rest|
    modifies a
    ensures a[..dest + len] == old(a[..dest]) + rest[..len] && Unread(a, src + len, rest[len..])
  {
    if dest != src && len != 0 {
      var i := 0;
      while i < len
        invariant 0 <= i <= len
        invariant a[..dest] == old(a[..dest]) && Unread(a, src + i, rest[i..])
        invariant forall k | dest <= k < dest + i :: a[k] == rest[k - dest]
      {
        assert a[src + i] == rest[i..][0];
        a[dest + i] := a[src + i];
        i := i + 1;
      }
    }
    assert a[..dest + len] == a[..dest] + rest[..len];
  }

  /** The character behind a backslash, unescaped. */
  method PutUnescaped(a: array<char>, dest: nat, src: nat, ghost rest: string)
    requires dest <= src && Unread(a, src, rest) && |rest| >= 2
    modifies a
    ensures a[..dest + 1] == old(a[..dest]) + [UnescapeChar(rest[1])] && Unread(a, src + 2, rest[2..])
  {
    assert a[src + 1] == rest[1];
    a[dest] := UnescapeChar(a[src + 1]);
  }

  /** One turn of the loop of fcitx_utils_unescape_str_inplace. */
  method UnescapeTurn(a: array<char>, dest: nat, src: nat, len: nat, ghost rest: string)
    requires dest <= src && Unread(a, src, rest) && len + 2 <= |rest|
    modifies a
    ensures a[..dest + len + 1] == old(a[..dest]) + rest[..len] + [UnescapeChar(rest[len + 1])]
    ensures Unread(a, src + len + 2, rest[len + 2..])
  {
    hide UnescapeChar, Unread;
    MoveDown(a, dest, src, len, rest);
    PutUnescaped(a, dest + len, src + len, rest[len..]);
    assert rest[len..][2..] == rest[len + 2..];
  }

  /**
    fcitx_utils_unescape_str_inplace: what the copying form produces, because the write cursor never
    passes the read cursor.
   */
  method UnescapeStrInplace(a: array<char>, ghost str: string) returns (n: nat)
    requires Unread(a, 0, str) && NoDangling(str)
    modifies a
    ensures n <= |str| < a.Length && a[..n] == Unescaped(str) && a[n] == NUL
  {
    hide Unescaped, UnescapeChar, NoDangling, Span, Unread;
    var dest: nat, src: nat := 0, 0;
    ghost var rest := str;
    var len := FindBackslash(a, src, rest);
    AtTerminator(a, src, rest, len);
    while a[src + len] != NUL
      invariant dest <= src && src + |rest| == |str| && len == Span(rest, "\\") && Unread(a, src, rest)
      invariant src + len < a.Length && (a[src + len] == NUL <==> len == |rest|)
      invariant NoDangling(rest) && a[..dest] + Unescaped(rest) == Unescaped(str)
      decreases |rest|
    {
      UnescapedStep(a[..dest], rest);
      UnescapeTurn(a, dest, src, len, rest);
      dest := dest + len + 1;
      src := src + len + 2;
      rest := rest[len + 2..];
      len := FindBackslash(a, src, rest);
      AtTerminator(a, src, rest, len);
    }
    UnescapedStep(a[..dest], rest);
    MoveDown(a, dest, src, len, rest);
    n := dest + len;
    a[n] := NUL;
  }
}

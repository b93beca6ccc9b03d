/**
  stringutils.c: how the text that fcitx_utils_string_replace puts together for one character differs
  from the meant one, as far as a reader sees it: where the two first part, and what comes behind.
 */
module ReplaceDiff {
  import opened Escape
  import opened Seqs
  import opened StringReplace

  /** The occurrences of one character. */
  ghost predicate Splits(s: string, occ: seq<nat>, c: char)
    requires Spaced(occ, 1, |s|)
  {
    && (forall i | 0 <= i < |occ| :: s[occ[i]] == c && c !in s[End(occ, 1, i)..occ[i]])
    && c !in s[End(occ, 1, |occ|)..]
  }

  lemma SplitsAt(s: string, occ: seq<nat>, c: char, i: nat)
    requires Spaced(occ, 1, |s|) && Splits(s, occ, c) && i <= |occ|
    ensures End(occ, 1, i) <= |s| && (i == |occ| ==> c !in s[End(occ, 1, i)..])
    ensures i < |occ| ==>
              && End(occ, 1, i) <= occ[i] < |s| && c !in s[End(occ, 1, i)..occ[i]] && End(occ, 1, i + 1) == occ[i] + 1
              && s[End(occ, 1, i)..] == s[End(occ, 1, i)..occ[i]] + [c] + s[occ[i] + 1..]
  {
    if i < |occ| {
      CutAt(s, End(occ, 1, i), occ[i]);
    }
  }

  lemma CutAt(s: string, i: nat, j: nat)
    requires i <= j < |s|
    ensures s[i..] == s[i..j] + [s[j]] + s[j + 1..]
  {
  }

  lemma {:induction false} StrstrSkips(s: string, c: char, at: nat)
    requires at <= |s|
    ensures c !in s[at..Strstr(s, [c], at)]
    decreases |s| - at
  {
    if at == |s| {
    } else {
      assert s[at..at + 1] == [s[at]];
      if s[at] == c {
        assert s[at..at] == "";
      } else {
        StrstrSkips(s, c, at + 1);
        assert s[at..Strstr(s, [c], at)] == [s[at]] + s[at + 1..Strstr(s, [c], at)];
      }
    }
  }

  lemma {:induction false} OccurrencesFrom(s: string, c: char, occ: seq<nat>, i: nat)
    requires Spaced(occ, 1, |s|) && i <= |occ| && Occurrences(s, [c], End(occ, 1, i)) == occ[i..]
    ensures forall j | i <= j < |occ| :: s[occ[j]] == c && c !in s[End(occ, 1, j)..occ[j]]
    ensures c !in s[End(occ, 1, |occ|)..]
    decreases |occ| - i
  {
    hide Strstr, Occurrences, Spaced;
    var at := End(occ, 1, i);
    EndInside(s, occ, i);
    StrstrSkips(s, c, at);
    NoOccurrence(s, [c], at);
    if i == |occ| {
      assert s[at..|s|] == s[at..];
    } else {
      NextOccurrence(s, [c], at, occ, i);
      FoundIs(s, c, at);
      OccurrencesFrom(s, c, occ, i + 1);
    }
  }

  lemma OccurrencesSplit(s: string, c: char)
    ensures Spaced(Occurrences(s, [c], 0), 1, |s|) && Splits(s, Occurrences(s, [c], 0), c)
  {
    hide Strstr;
    var occ := Occurrences(s, [c], 0);
    assert occ[0..] == occ;
    OccurrencesFrom(s, c, occ, 0);
  }

  /** What a reader sees of the text that the code puts together from behind the first `i` occurrences on. */
  function Seen(s: string, occ: seq<nat>, after: string, i: nat): string
    requires Spaced(occ, 1, |s|) && i <= |occ|
    decreases |occ| - i
  {
    if i == |occ| then s[End(occ, 1, i)..]
    else
      var gap, src := s[End(occ, 1, i)..occ[i]], s[occ[i] + 1..];
      if i % BATCH == 0 then gap + after + Seen(s, occ, after, i + 1)
      else if |gap| > |src| then src
      else src[..|gap|] + after + Seen(s, occ, after, i + 1)
  }

  lemma {:induction false} CTextConcat(a: string, b: string)
    ensures CText(a + b) == if NUL in a then CText(a) else a + CText(b)
  {
    if a == "" {
      assert a + b == b;
    } else {
      assert (a + b)[1..] == a[1..] + b;
      CTextConcat(a[1..], b);
    }
  }

  lemma {:induction false} CTextIs(s: string, r: string)
    requires r <= s && NUL !in r && (|r| < |s| ==> s[|r|] == NUL)
    ensures CText(s) == r
  {
    if r == "" {
    } else {
      assert r[0] in r && r[0] == s[0];
      CTextIs(s[1..], r[1..]);
    }
  }

  lemma SeenPiece(s: string, behind: nat -> char, occ: seq<nat>, i: nat)
    requires Spaced(occ, 1, |s|) && i < |occ| && NUL !in s && behind(0) == NUL
    ensures var gap, src := s[End(occ, 1, i)..occ[i]], s[occ[i] + 1..];
            var piece := Piece(s, behind, occ, 1, i);
            if i % BATCH == 0 then piece == gap
            else if |gap| > |src| then NUL in piece && CText(piece) == src
            else piece == src[..|gap|]
  {
    var gap, src := s[End(occ, 1, i)..occ[i]], s[occ[i] + 1..];
    var piece := Piece(s, behind, occ, 1, i);
    if i % BATCH != 0 {
      assert forall j | 0 <= j < |piece| && j < |src| :: piece[j] == src[j];
      if |gap| > |src| {
        assert piece[|src|] == NUL && piece[..|src|] == src;
        CTextIs(piece, src);
      }
    }
  }

  lemma CTextOfPieces(piece: string, after: string, rest: string)
    requires NUL !in after
    ensures CText(piece + after + rest) == if NUL in piece then CText(piece) else piece + after + CText(rest)
  {
    hide CText;
    CTextConcat(piece + after, rest);
    CTextConcat(piece, after);
  }

  lemma NoNulBehind(s: string, at: nat)
    requires NUL !in s && at <= |s|
    ensures CText(s[at..]) == s[at..]
  {
    CTextIs(s[at..], s[at..]);
  }

  lemma SeenUnrolled(s: string, occ: seq<nat>, after: string, i: nat)
    requires Spaced(occ, 1, |s|) && i <= |occ|
    ensures i == |occ| ==> End(occ, 1, i) <= |s| && Seen(s, occ, after, i) == s[End(occ, 1, i)..]
    ensures i < |occ| ==>
              && End(occ, 1, i) <= occ[i] < |s|
              && var gap, src := s[End(occ, 1, i)..occ[i]], s[occ[i] + 1..];
                 Seen(s, occ, after, i)
                 == if i % BATCH == 0 then gap + after + Seen(s, occ, after, i + 1)
                    else if |gap| > |src| then src
                    else src[..|gap|] + after + Seen(s, occ, after, i + 1)
  {
  }

  lemma {:induction false} SeenIs(s: string, behind: nat -> char, occ: seq<nat>, after: string, i: nat)
    requires Spaced(occ, 1, |s|) && i <= |occ| && NUL !in s && NUL !in after && behind(0) == NUL
    ensures CText(Copied(s, behind, occ, 1, after, i)) == Seen(s, occ, after, i)
    decreases |occ| - i
  {
    hide Piece, CText, Copied, Seen, Spaced;
    SeenUnrolled(s, occ, after, i);
    if i == |occ| {
      NothingCopied(s, behind, occ, 1, after);
      NoNulBehind(s, End(occ, 1, i));
    } else {
      var piece, rest := Piece(s, behind, occ, 1, i), Copied(s, behind, occ, 1, after, i + 1);
      SeenIs(s, behind, occ, after, i + 1);
      SeenPiece(s, behind, occ, i);
      Unrolled(s, behind, occ, 1, after, i);
      CTextOfPieces(piece, after, rest);
    }
  }

  lemma MeantUnrolled(s: string, occ: seq<nat>, after: string, i: nat)
    requires Spaced(occ, 1, |s|) && i <= |occ|
    ensures i == |occ| ==> End(occ, 1, i) <= |s| && Meant(s, occ, 1, after, i) == s[End(occ, 1, i)..]
    ensures i < |occ| ==>
              && End(occ, 1, i) <= occ[i] < |s|
              && Meant(s, occ, 1, after, i) == s[End(occ, 1, i)..occ[i]] + after + Meant(s, occ, 1, after, i + 1)
  {
  }

  // Where the texts part

  /**
    `m` and `c` begin with `q`. There they part, inside a gap whose rest in `m` is `g`: the gap of `c`
    either is as long and comes before the same replacement, or is cut off.
   */
  predicate Parted(m: string, c: string, q: string, g: string, ch: char, after: string) {
    && q <= m && q <= c && |q| + |g| < |m| && m[|q|..|q| + |g|] == g && g != "" && ch !in g
    && after != "" && m[|q| + |g|] == after[0]
    && (|c| > |q| ==> c[|q|] != g[0])
    && (|c| < |q| + |g| || (|c| > |q| + |g| && c[|q| + |g|] == after[0]))
  }

  /** How long two strings agree. */
  function Agree(a: string, b: string): (n: nat)
    ensures n <= |a| && n <= |b| && a[..n] == b[..n] && (n < |a| && n < |b| ==> a[n] != b[n])
  {
    if a == "" || b == "" || a[0] != b[0] then 0
    else
      var n := Agree(a[1..], b[1..]);
      assert a[..n + 1] == [a[0]] + a[1..][..n] && b[..n + 1] == [b[0]] + b[1..][..n];
      n + 1
  }

  lemma AgreeAll(a: string, b: string)
    ensures Agree(a, b) == |a| ==> a <= b
  {
    assert a[..|a|] == a;
  }

  lemma PartedPrefix(m: string, c: string, q: string, g: string, ch: char, after: string, pre: string)
    requires Parted(m, c, q, g, ch, after)
    ensures Parted(pre + m, pre + c, pre + q, g, ch, after)
  {
    assert (pre + m)[|pre| + |q|..|pre| + |q| + |g|] == m[|q|..|q| + |g|];
    assert (pre + m)[..|pre| + |q|] == pre + m[..|q|] && (pre + c)[..|pre| + |q|] == pre + c[..|q|];
  }

  /** A wrong gap: `src` is copied instead of `gap`, or all that is left of it. */
  lemma GapParts(gap: string, src: string, ch: char, after: string, m: string, c: string) returns (q: string, g: string)
    requires !(gap <= src) && ch !in gap && after != ""
    ensures Parted(gap + after + m, if |gap| > |src| then src else src[..|gap|] + after + c, q, g, ch, after)
  {
    var n := Agree(gap, src);
    q, g := gap[..n], gap[n..];
    var mm, cc := gap + after + m, if |gap| > |src| then src else src[..|gap|] + after + c;
    AgreeAll(gap, src);
    assert mm[n..|gap|] == g && mm[|gap|] == after[0];
    assert forall k | 0 <= k < |g| :: g[k] == gap[n + k];
    assert mm[..n] == q && cc[..n] == q;
  }

  /** Unless the gaps repeat, what is seen parts from what is meant. */
  lemma {:induction false} Parts(s: string, occ: seq<nat>, c: char, after: string, i: nat)
    returns (q: string, g: string)
    requires Spaced(occ, 1, |s|) && Splits(s, occ, c) && i <= |occ| && after != "" && !GapsRepeat(s, occ, 1, i)
    ensures Parted(Meant(s, occ, 1, after, i), Seen(s, occ, after, i), q, g, c, after)
    decreases |occ| - i
  {
    hide Seen, Meant, Parted, Spaced, Splits, End, GapsRepeat;
    SplitsAt(s, occ, c, i);
    GapsUnrolled(s, occ, i);
    SeenUnrolled(s, occ, after, i);
    MeantUnrolled(s, occ, after, i);
    if i == |occ| {
      q, g := "", "";
    } else {
      var gap, src := s[End(occ, 1, i)..occ[i]], s[occ[i] + 1..];
      var m, t := Meant(s, occ, 1, after, i + 1), Seen(s, occ, after, i + 1);
      if i % BATCH != 0 && !(gap <= src) {
        q, g := GapParts(gap, src, c, after, m, t);
      } else {
        assert i % BATCH != 0 ==> src[..|gap|] == gap;
        q, g := Parts(s, occ, c, after, i + 1);
        PartedPrefix(m, t, q, g, c, after, gap + after);
        q := gap + after + q;
      }
    }
  }

  /** Other characters of the string are in the meant text too. */
  lemma {:induction false} MeantKeeps(s: string, occ: seq<nat>, c: char, after: string, i: nat, d: char)
    requires Spaced(occ, 1, |s|) && Splits(s, occ, c) && i <= |occ| && d != c && d !in Meant(s, occ, 1, after, i)
    ensures End(occ, 1, i) <= |s| && d !in s[End(occ, 1, i)..]
    decreases |occ| - i
  {
    hide Meant, Spaced, Splits, End;
    SplitsAt(s, occ, c, i);
    MeantUnrolled(s, occ, after, i);
    if i == |occ| {
    } else {
      MeantKeeps(s, occ, c, after, i + 1, d);
    }
  }

  /** What is copied comes from further right, so a character that is not meant from `j` on is not seen there. */
  lemma {:induction false} NothingLater(s: string, occ: seq<nat>, c: char, after: string, i: nat, d: char, j: nat)
    requires Spaced(occ, 1, |s|) && Splits(s, occ, c) && i <= |occ| && d != c && d !in after
    requires NotFrom(d, Meant(s, occ, 1, after, i), j)
    ensures NotFrom(d, Seen(s, occ, after, i), j)
    decreases |occ| - i
  {
    hide Seen, Meant, NotFrom, Spaced, Splits, End;
    SplitsAt(s, occ, c, i);
    SeenUnrolled(s, occ, after, i);
    MeantUnrolled(s, occ, after, i);
    if i == |occ| {
    } else {
      var gap, src := s[End(occ, 1, i)..occ[i]], s[occ[i] + 1..];
      var m, t := Meant(s, occ, 1, after, i + 1), Seen(s, occ, after, i + 1);
      var j' := if j <= |gap + after| then 0 else j - |gap + after|;
      NotFromHead(d, gap, after, m, j);
      NothingLater(s, occ, c, after, i + 1, d, j');
      if j <= |gap| {
        NotFromAll(d, m);
        MeantKeeps(s, occ, c, after, i + 1, d);
      }
      LaterInHead(gap, src, after, t, d, j);
    }
  }

  /** `d` does not occur in `s` from `j` on. */
  predicate NotFrom(d: char, s: string, j: nat) {
    forall k | j <= k < |s| :: s[k] != d
  }

  lemma NotFromAll(d: char, s: string)
    requires NotFrom(d, s, 0)
    ensures d !in s
  {
  }

  lemma NotFromHead(d: char, gap: string, after: string, m: string, j: nat)
    requires NotFrom(d, gap + after + m, j)
    ensures NotFrom(d, m, if j <= |gap + after| then 0 else j - |gap + after|)
    ensures NotFrom(d, gap, j)
  {
    var h := gap + after;
    assert forall k | 0 <= k < |m| :: (h + m)[|h| + k] == m[k];
    assert forall k | 0 <= k < |gap| :: (h + m)[k] == gap[k];
  }

  lemma LaterInHead(gap: string, src: string, after: string, t: string, d: char, j: nat)
    requires d !in after && NotFrom(d, gap, j) && (j <= |gap| ==> d !in src)
    requires NotFrom(d, t, if j <= |gap + after| then 0 else j - |gap + after|)
    ensures NotFrom(d, gap + after + t, j)
    ensures |src| < |gap| ==> NotFrom(d, src, j)
    ensures |gap| <= |src| ==> NotFrom(d, src[..|gap|] + after + t, j)
  {
    if |gap| <= |src| {
      NotFromConcat(d, src[..|gap|], after, t, j);
    }
    NotFromConcat(d, gap, after, t, j);
  }

  lemma NotFromConcat(d: char, h: string, after: string, t: string, j: nat)
    requires d !in after && NotFrom(d, h, j)
    requires NotFrom(d, t, if j <= |h + after| then 0 else j - |h + after|)
    ensures NotFrom(d, h + after + t, j)
  {
    var s := h + after + t;
    forall k | j <= k < |s| ensures s[k] != d {
      if k < |h| {
        assert s[k] == h[k];
      } else if k < |h| + |after| {
        assert s[k] == after[k - |h|];
      } else {
        assert s[k] == t[k - |h| - |after|];
      }
    }
  }

  lemma GapsUnrolled(s: string, occ: seq<nat>, i: nat)
    requires Spaced(occ, 1, |s|) && i <= |occ|
    ensures i == |occ| ==> GapsRepeat(s, occ, 1, i)
    ensures i < |occ| ==>
              && End(occ, 1, i) <= occ[i] < |s|
              && (GapsRepeat(s, occ, 1, i)
                  <==> (i % BATCH == 0 || s[End(occ, 1, i)..occ[i]] <= s[occ[i] + 1..]) && GapsRepeat(s, occ, 1, i + 1))
  {
    hide GapsRepeat;
    if i == |occ| {
      NothingCopied(s, k => NUL, occ, 1, "");
    } else {
      Unrolled(s, k => NUL, occ, 1, "", i);
    }
  }

  // The whole replacement of one character

  /** What a reader sees of the result. */
  function Misreplaced(s: string, c: char, after: string): string {
    Seen(s, Occurrences(s, [c], 0), after, 0)
  }

  lemma WholeMeant(s: string, c: char, after: string)
    ensures Meant(s, Occurrences(s, [c], 0), 1, after, 0) == Replace(s, c, after)
  {
    hide Occurrences, Meant, Replace;
    var occ := Occurrences(s, [c], 0);
    assert occ[0..] == occ && s[0..] == s;
    MeantIsReplace(s, c, after, occ, 0);
  }

  /** Up to the first replacement all is well. */
  lemma WellAtFirst(s: string, c: char, after: string)
    ensures var f, r := Strstr(s, [c], 0), Misreplaced(s, c, after);
            && c !in s[..f]
            && (f == |s| ==> r == s)
            && (f < |s| ==> s[f] == c && |r| >= f + |after| && r[..f] == s[..f] && r[f..f + |after|] == after)
  {
    hide Strstr, Occurrences, Seen, Spaced;
    var occ, f := Occurrences(s, [c], 0), Strstr(s, [c], 0);
    StrstrSkips(s, c, 0);
    FoundIs(s, c, 0);
    NoOccurrence(s, [c], 0);
    assert occ[0..] == occ && s[0..] == s && s[0..f] == s[..f];
    SeenUnrolled(s, occ, after, 0);
    if f < |s| {
      NextOccurrence(s, [c], 0, occ, 0);
    }
  }

  lemma FewAreWell(s: string, c: char, after: string)
    requires multiset(s)[c] <= 1
    ensures Misreplaced(s, c, after) == Replace(s, c, after)
  {
    hide Strstr, Occurrences, Seen, Spaced, Meant, Replace;
    var occ := Occurrences(s, [c], 0);
    assert s[0..] == s;
    OccurrencesCount(s, c, 0);
    WholeMeant(s, c, after);
    SeenUnrolled(s, occ, after, 0);
    MeantUnrolled(s, occ, after, 0);
    if occ != [] {
      SeenUnrolled(s, occ, after, 1);
      MeantUnrolled(s, occ, after, 1);
    }
  }

  /** A string that is not replaced properly is seen to part from what is meant. */
  lemma WholeParts(s: string, c: char, after: string) returns (q: string, g: string)
    requires !Replaceable(s, [c]) && after != ""
    ensures Parted(Replace(s, c, after), Misreplaced(s, c, after), q, g, c, after)
  {
    hide Occurrences, Seen, Meant, Parted, Replace, Spaced, Splits;
    OccurrencesSplit(s, c);
    WholeMeant(s, c, after);
    q, g := Parts(s, Occurrences(s, [c], 0), c, after, 0);
  }

  /** Other characters do not move to the right. */
  lemma WholeLater(s: string, c: char, after: string, d: char, j: nat)
    requires d != c && d !in after && NotFrom(d, Replace(s, c, after), j)
    ensures NotFrom(d, Misreplaced(s, c, after), j)
  {
    hide Occurrences, Seen, Meant, NotFrom, Replace, Spaced, Splits;
    OccurrencesSplit(s, c);
    WholeMeant(s, c, after);
    NothingLater(s, Occurrences(s, [c], 0), c, after, 0, d, j);
  }

  lemma {:induction false} SeenNoNul(s: string, occ: seq<nat>, after: string, i: nat)
    requires Spaced(occ, 1, |s|) && i <= |occ| && NUL !in s && NUL !in after
    ensures NUL !in Seen(s, occ, after, i)
    decreases |occ| - i
  {
    hide Seen, Spaced;
    SeenUnrolled(s, occ, after, i);
    if i == |occ| {
    } else {
      SeenNoNul(s, occ, after, i + 1);
    }
  }
}

/**
  iniparser.c: which values the code prints otherwise than it is meant to. Where at most one of
  backslash, newline and quote occurs more than once, these are exactly the values for which a
  replacement goes wrong: what goes wrong is not made good again by the replacements that follow.
 */
module IniMisprint {
  import opened Escape
  import opened IniValue
  import opened ReplaceDiff
  import opened StringReplace
  import opened Wrappers

  const Q := '\"'

  /** The two texts differ, and quotes in front of the difference have none behind it in `c`. */
  predicate Traceable(m: string, c: string) {
    m != c && (Q !in m[..Agree(m, c)] || NotFrom(Q, c, Agree(m, c)))
  }

  // Small facts

  lemma OnlyOne(s: string, n: nat, d: char)
    requires n <= |s| && d in s[..n] && multiset(s)[d] <= 1
    ensures NotFrom(d, s, n)
  {
    assert s == s[..n] + s[n..] && d !in s[n..];
    forall k | n <= k < |s| ensures s[k] != d {
      assert s[k] == s[n..][k - n];
    }
  }

  lemma NotFromRest(d: char, s: string, n: nat)
    requires n <= |s| && NotFrom(d, s, n)
    ensures d !in s[n..]
  {
  }

  lemma {:induction false} AgreeIs(a: string, b: string, n: nat)
    requires n <= |a| && n <= |b| && a[..n] == b[..n] && (n < |a| && n < |b| ==> a[n] != b[n])
    ensures Agree(a, b) == n
  {
    if n == 0 {
    } else {
      assert a[0] == a[..n][0] == b[..n][0] == b[0];
      assert a[1..][..n - 1] == a[..n][1..] == b[..n][1..] == b[1..][..n - 1];
      AgreeIs(a[1..], b[1..], n - 1);
    }
  }

  lemma AgreeAtMost(a: string, b: string, k: nat)
    requires k < |a| && k < |b| && a[k] != b[k]
    ensures Agree(a, b) <= k && a != b
  {
    var n := Agree(a, b);
    assert forall j | 0 <= j < n :: a[j] == a[..n][j] == b[..n][j] == b[j];
  }

  lemma PartedAgree(m: string, c: string, q: string, g: string, ch: char, after: string)
    requires Parted(m, c, q, g, ch, after)
    ensures Agree(m, c) == |q| && m != c && m[..|q|] == q
  {
    assert m[|q|] == m[|q|..|q| + |g|][0] == g[0];
    AgreeIs(m, c, |q|);
  }

  lemma ReplaceFirst(s: string, c: char, after: string)
    requires s != ""
    ensures Replace(s, c, after) == (if s[0] == c then after else [s[0]]) + Replace(s[1..], c, after)
  {
  }

  lemma ReplaceApart(p: string, r: string, c: char, after: string)
    ensures Replace(p + r, c, after) == Replace(p, c, after) + Replace(r, c, after)
    ensures c !in p ==> Replace(p, c, after) == p
    ensures c !in r ==> Replace(r, c, after) == r
  {
    ReplaceConcat(p, r, c, after);
    if c !in p {
      ReplaceAbsent(p, c, after);
    }
    if c !in r {
      ReplaceAbsent(r, c, after);
    }
  }

  // The quotes

  /** The text behind a quote-free beginning never begins with a quote once its quotes are escaped. */
  lemma NoQuoteFirst(s: string)
    ensures Replace(s, Q, "\\\"") != "" ==> Replace(s, Q, "\\\"")[0] != Q
    ensures s != "" ==> Replace(s, Q, "\\\"") != ""
  {
  }

  /** A difference behind a quote-free beginning is still there. */
  lemma QuotesBehind(p: string, mr: string, cr: string)
    requires Q !in p && Agree(mr, cr) == 0 && mr != cr
    ensures Misreplaced(p + cr, Q, "\\\"") != Replace(p + mr, Q, "\\\"")
  {
    hide Replace, Misreplaced, Strstr;
    var c, i := p + cr, |p|;
    var f, r, t := Strstr(c, [Q], 0), Misreplaced(c, Q, "\\\""), Replace(mr, Q, "\\\"");
    ReplaceApart(p, mr, Q, "\\\"");
    WellAtFirst(c, Q, "\\\"");
    assert forall k | 0 <= k < i :: c[k] == p[k] && p[k] in p;
    NoQuoteFirst(mr);
    if mr != "" {
      ReplaceFirst(mr, Q, "\\\"");
      NoQuoteFirst(mr[1..]);
    }
    QuotesDiffer(p, mr, cr, f, r, t, if mr == "" then "" else Replace(mr[1..], Q, "\\\""));
  }

  lemma QuotesDiffer(p: string, mr: string, cr: string, f: nat, r: string, t: string, t': string)
    requires mr != cr && (mr != "" && cr != "" ==> mr[0] != cr[0])
    requires var c := p + cr;
             && |p| <= f <= |c| && (f < |c| ==> c[f] == Q) && Q !in c[..f]
             && (f == |c| ==> r == c)
             && (f < |c| ==> |r| >= f + 2 && r[..f] == c[..f] && r[f..f + 2] == "\\\"")
    requires if mr == "" then t == "" else t == (if mr[0] == Q then "\\\"" else [mr[0]]) + t'
    requires t' != "" ==> t'[0] != Q
    ensures r != p + t
  {
    var c, i := p + cr, |p|;
    assert f < |c| ==> r[f] == r[f..f + 2][0] == '\\' && r[f + 1] == r[f..f + 2][1] == Q;
    assert forall k | 0 <= k < f :: r[k] == (if f < |c| then r[..f][k] else r[k]) == c[k] && c[k] == c[..f][k] != Q;
    assert forall k | 0 <= k < |t| :: (p + t)[i + k] == t[k];
    if cr == "" {
      assert |r| == i < |p + t|;
    } else if mr == "" {
      assert |p + t| == i < |r|;
    } else if f == i {
      assert c[i] == cr[0] && t[0] == mr[0] != Q;
      if |t| > 1 {
        assert t[1] == t'[0] && (p + t)[i + 1] != r[i + 1];
      } else {
        assert |p + t| < |r|;
      }
    } else {
      assert r[i] == c[i] == cr[0];
      if mr[0] != Q {
        assert (p + t)[i] == mr[0] != r[i];
      } else if |r| > i + 1 {
        assert (p + t)[i + 1] == t[1] == Q && (f > i + 1 ==> r[i + 1] == c[i + 1] != Q);
        assert r[i + 1] != Q;
      } else {
        assert |p + t| > |r|;
      }
    }
  }

  lemma AgreeApart(m: string, c: string) returns (p: string, mr: string, cr: string)
    ensures m == p + mr && c == p + cr && |p| == Agree(m, c) && Agree(mr, cr) == 0 && (m != c ==> mr != cr)
  {
    var n := Agree(m, c);
    p, mr, cr := m[..n], m[n..], c[n..];
    assert m == m[..n] + m[n..] && c == c[..n] + c[n..];
    AgreeIs(mr, cr, 0);
  }

  lemma QuotesLost(m: string, c: string)
    requires Traceable(m, c) && multiset(m)[Q] <= 1
    ensures Misreplaced(c, Q, "\\\"") != Replace(m, Q, "\\\"")
  {
    hide Replace, Misreplaced, Agree;
    var p, mr, cr := AgreeApart(m, c);
    assert m[..|p|] == p && c[|p|..] == cr;
    if Q !in p {
      QuotesBehind(p, mr, cr);
    } else {
      assert multiset(m)[Q] == multiset(p)[Q] + multiset(mr)[Q];
      NotFromRest(Q, c, |p|);
      assert multiset(c)[Q] == multiset(p)[Q] + multiset(cr)[Q];
      FewAreWell(c, Q, "\\\"");
      ReplaceApart(p, cr, Q, "\\\"");
      ReplaceApart(p, mr, Q, "\\\"");
      SameFront(Replace(p, Q, "\\\""), cr, mr);
    }
  }

  lemma SameFront(p: string, a: string, b: string)
    ensures p + a == p + b <==> a == b
  {
    assert (p + a)[|p|..] == a && (p + b)[|p|..] == b;
  }

  /** What is put behind the equals sign for a text whose backslashes and newlines are escaped. */
  function Wrapped(p: string, quoted: string): string {
    if HasBlank(p) then "\"" + quoted + "\"" else p
  }

  lemma BlankStays(p: string)
    requires HasBlank(p)
    ensures HasBlank(Replace(p, Q, "\\\""))
  {
    hide Replace;
    var i :| 0 <= i < |p| && p[i] in BLANKS;
    var r := Replace(p, Q, "\\\"");
    ReplaceCount(p, Q, "\\\"", p[i]);
    assert p[i] in multiset(p);
    assert p[i] in multiset(r) && p[i] in r;
    var k :| 0 <= k < |r| && r[k] == p[i];
  }

  lemma BlankInside(s: string)
    requires HasBlank(s)
    ensures HasBlank("\"" + s + "\"")
  {
    HasBlankConcat("\"", s);
    HasBlankConcat("\"" + s, "\"");
  }

  lemma TwoQuotes(s: string)
    ensures multiset("\"" + s + "\"")[Q] >= 2
  {
  }

  /** The difference is still there when all is printed. */
  lemma PrintedDiffers(m: string, c: string)
    requires Traceable(m, c) && multiset(m)[Q] <= 1
    ensures Wrapped(c, Misreplaced(c, Q, "\\\"")) != Wrapped(m, Replace(m, Q, "\\\""))
  {
    hide Replace, Misreplaced, Agree, HasBlank;
    var a, b := Misreplaced(c, Q, "\\\""), Replace(m, Q, "\\\"");
    QuotesLost(m, c);
    ConcatAssociates3(a, b);
    TwoQuotes(a);
    if HasBlank(m) {
      BlankStays(m);
      BlankInside(b);
    }
  }

  lemma ConcatAssociates3(a: string, b: string)
    ensures "\"" + a + "\"" == "\"" + b + "\"" ==> a == b
  {
    var x, y := "\"" + a + "\"", "\"" + b + "\"";
    assert x[1..|x| - 1] == a && y[1..|y| - 1] == b;
  }

  // The newlines

  /** Newlines that are not replaced properly. */
  lemma NewlinesTraceable(m: string)
    requires multiset(m)[Q] <= 1 && !Replaceable(m, "\n")
    ensures Traceable(Replace(m, '\n', "\\n"), Misreplaced(m, '\n', "\\n"))
  {
    hide Replace, Misreplaced, Agree, Replaceable, Parted, NotFrom;
    var m2, c2 := Replace(m, '\n', "\\n"), Misreplaced(m, '\n', "\\n");
    var q, g := WholeParts(m, '\n', "\\n");
    PartedAgree(m2, c2, q, g, '\n', "\\n");
    if Q in q {
      ReplaceCount(m, '\n', "\\n", Q);
      OnlyOne(m2, |q|, Q);
      WholeLater(m, '\n', "\\n", Q, |q|);
    }
  }

  /** Of a text that parts from `m` no newline and no quote comes later than in `m`. */
  ghost predicate Earlier(m: string, c: string) {
    forall j: nat :: (NotFrom('\n', m, j) ==> NotFrom('\n', c, j)) && (NotFrom(Q, m, j) ==> NotFrom(Q, c, j))
  }

  /** The only newline stands in front of the difference. */
  lemma NewlineBefore(m: string, c: string, q: string, g: string)
    requires Parted(m, c, q, g, '\\', "\\\\") && Earlier(m, c)
    requires multiset(m)['\n'] <= 1 && multiset(m)[Q] <= 1 && '\n' in q
    ensures Traceable(Replace(m, '\n', "\\n"), Misreplaced(c, '\n', "\\n"))
  {
    hide Replace, Misreplaced, Agree, NotFrom, Parted;
    PartedAgree(m, c, q, g, '\\', "\\\\");
    var p, mr, cr := AgreeApart(m, c);
    assert p == q == m[..|q|] && c[|q|..] == cr && m[|q|..] == mr;
    OnlyOne(m, |q|, '\n');
    NotFromRest('\n', m, |q|);
    NotFromRest('\n', c, |q|);
    assert multiset(m)['\n'] == multiset(q)['\n'] + multiset(mr)['\n'];
    assert multiset(c)['\n'] == multiset(q)['\n'] + multiset(cr)['\n'];
    FewAreWell(c, '\n', "\\n");
    ReplaceApart(q, cr, '\n', "\\n");
    ReplaceApart(q, mr, '\n', "\\n");
    var q2 := Replace(q, '\n', "\\n");
    AgreeBehind(q2, mr, cr);
    if Q in q2 {
      ReplaceCount(q, '\n', "\\n", Q);
      assert Q in multiset(q2) && Q in multiset(q);
      OnlyOne(m, |q|, Q);
      NotFromRest(Q, c, |q|);
      NotFromBehind(Q, q2, cr);
    }
  }

  lemma NotFromBehind(d: char, p: string, r: string)
    requires d !in r
    ensures NotFrom(d, p + r, |p|)
  {
    assert forall k | |p| <= k < |p + r| :: (p + r)[k] == r[k - |p|];
  }

  lemma AgreeBehind(p: string, a: string, b: string)
    requires Agree(a, b) == 0 && a != b
    ensures Agree(p + a, p + b) == |p| && p + a != p + b && (p + a)[..|p|] == p
  {
    SameFront(p, a, b);
    assert (p + a)[..|p|] == p == (p + b)[..|p|];
    AgreeIs(p + a, p + b, |p|);
  }

  /** The beginning of the code's text, up to its first newline, and of the meant one. */
  ghost predicate Fronts(m: string, c: string, q: string, g: string, f: nat, m2: string, c2: string)
    requires g != ""
  {
    && |q| <= f <= |c| && (f < |c| ==> c[f] == '\n') && '\n' !in c[..f]
    && (f == |c| ==> c2 == c)
    && (f < |c| ==> |c2| >= f + 2 && c2[..f] == c[..f] && c2[f] == '\\')
    && |m2| > |q| + |g| && m2[..|q|] == q
    && (g[0] != '\n' ==> m2[|q|] == g[0])
    && (g[0] == '\n' ==> m2[|q|] == '\\' && m2[|q| + 1] == 'n' && forall k | 1 <= k < |g| :: m2[|q| + 1 + k] == g[k])
  }

  lemma FrontsHold(m: string, c: string, q: string, g: string)
    requires Parted(m, c, q, g, '\\', "\\\\") && multiset(m)['\n'] <= 1 && '\n' !in q
    ensures Fronts(m, c, q, g, Strstr(c, "\n", 0), Replace(m, '\n', "\\n"), Misreplaced(c, '\n', "\\n"))
  {
    hide Replace, Misreplaced, Strstr;
    var f, r := Strstr(c, "\n", 0), Misreplaced(c, '\n', "\\n");
    WellAtFirst(c, '\n', "\\n");
    assert forall k | 0 <= k < |q| :: c[k] == q[k] && q[k] in q;
    assert f < |c| ==> r[f] == r[f..f + 2][0];
    MeantFront(m, q, g);
  }

  lemma MeantFront(m: string, q: string, g: string)
    requires q <= m && |q| + |g| < |m| && m[|q|..|q| + |g|] == g && g != ""
    requires multiset(m)['\n'] <= 1 && '\n' !in q
    ensures var m2 := Replace(m, '\n', "\\n");
            && |m2| > |q| + |g| && m2[..|q|] == q
            && (g[0] != '\n' ==> m2[|q|] == g[0])
            && (g[0] == '\n' ==>
                  m2[|q|] == '\\' && m2[|q| + 1] == 'n' && forall k | 1 <= k < |g| :: m2[|q| + 1 + k] == g[k])
  {
    hide Replace;
    var mr := m[|q|..];
    assert m == q + mr && mr[..|g|] == g && mr[0] == g[0];
    ReplaceApart(q, mr, '\n', "\\n");
    assert multiset(m)['\n'] == multiset(q)['\n'] + multiset(mr)['\n'];
    RestFront(mr, g);
    var r := Replace(mr, '\n', "\\n");
    assert forall k | 0 <= k < |r| :: (q + r)[|q| + k] == r[k];
  }

  lemma RestFront(mr: string, g: string)
    requires g != "" && |g| < |mr| && mr[..|g|] == g && multiset(mr)['\n'] <= 1
    ensures var r := Replace(mr, '\n', "\\n");
            && |r| > |g|
            && (g[0] != '\n' ==> r[0] == g[0])
            && (g[0] == '\n' ==> r[0] == '\\' && r[1] == 'n' && forall k | 1 <= k < |g| :: r[1 + k] == g[k])
  {
    hide Replace;
    var t := mr[1..];
    ReplaceFirst(mr, '\n', "\\n");
    ReplaceLength(t, '\n', "\\n");
    assert mr == [mr[0]] + t && mr[0] == g[0];
    if g[0] == '\n' {
      assert multiset(mr)['\n'] == 1 + multiset(t)['\n'];
      ReplaceAbsent(t, '\n', "\\n");
      assert forall k | 1 <= k < |g| :: g[k] == mr[..|g|][k] == mr[k] == t[k - 1];
    }
  }

  lemma {:induction false} ReplaceLength(s: string, c: char, after: string)
    requires after != ""
    ensures |Replace(s, c, after)| >= |s|
  {
    if s == "" {
    } else {
      ReplaceLength(s[1..], c, after);
    }
  }

  /** Behind the fronts the texts part: at once, or inside the gap when a newline meets a backslash. */
  lemma FrontsPart(m: string, c: string, q: string, g: string, f: nat, m2: string, c2: string)
    requires Parted(m, c, q, g, '\\', "\\\\") && Fronts(m, c, q, g, f, m2, c2)
    ensures m2 != c2 && |q| <= Agree(m2, c2) <= f && Agree(m2, c2) <= |q| + |g|
    ensures Agree(m2, c2) > |q| ==> g[0] == '\n'
  {
    hide Agree;
    var i, e := |q|, |q| + |g|;
    assert forall k | 0 <= k < f :: c2[k] == c[k] && c[k] != '\n' by {
      assert forall k | 0 <= k < f :: c[..f][k] == c[k] && (f < |c| ==> c2[..f][k] == c2[k]);
    }
    assert q == c[..i] && c2[..i] == c[..i];
    if |c2| == i {
      AgreeIs(m2, c2, i);
    } else if m2[i] != c2[i] {
      AgreeIs(m2, c2, i);
    } else {
      assert g[0] == '\n' && f > i && c2[i] == c[i] == '\\';
      AgreeFrom(m2, c2, i);
      var k := if f == |c| && f <= e then f else if f > e then e else f;
      if k == |c2| {
        AgreeShort(m2, c2);
      } else {
        assert c2[k] == '\\';
        assert if k == i + 1 then m2[k] == 'n' else m2[k] == g[k - i - 1] && g[k - i - 1] in g;
        AgreeAtMost(m2, c2, k);
      }
    }
  }

  lemma AgreeFrom(a: string, b: string, n: nat)
    requires n <= |a| && n <= |b| && a[..n] == b[..n]
    ensures Agree(a, b) >= n
  {
    var k := Agree(a, b);
    assert forall j | 0 <= j < n :: a[j] == a[..n][j] == b[..n][j] == b[j];
  }

  lemma AgreeShort(a: string, b: string)
    requires |b| < |a|
    ensures Agree(a, b) <= |b| && a != b
  {
  }

  /** The newline stands behind the difference, or there is none. */
  lemma NewlineBehind(m: string, c: string, q: string, g: string)
    requires Parted(m, c, q, g, '\\', "\\\\") && Earlier(m, c)
    requires multiset(m)['\n'] <= 1 && multiset(m)[Q] <= 1 && '\n' !in q
    ensures Traceable(Replace(m, '\n', "\\n"), Misreplaced(c, '\n', "\\n"))
  {
    hide Replace, Misreplaced, Agree, NotFrom, Strstr, Fronts;
    var f, m2, c2 := Strstr(c, "\n", 0), Replace(m, '\n', "\\n"), Misreplaced(c, '\n', "\\n");
    FrontsHold(m, c, q, g);
    FrontsPart(m, c, q, g, f, m2, c2);
    var i := Agree(m2, c2);
    if Q in q {
      OnlyOne(m, |q|, Q);
      QuoteStays(c, q);
      NotFromMore(Q, c2, |q|, i);
    } else {
      NoQuoteBetween(m, c, q, g, f, m2, c2);
    }
  }

  lemma NotFromMore(d: char, s: string, i: nat, j: nat)
    requires NotFrom(d, s, i) && i <= j
    ensures NotFrom(d, s, j)
  {
  }

  /** Replacing newlines brings no quote behind `q`. */
  lemma QuoteStays(c: string, q: string)
    requires q <= c && '\n' !in q && NotFrom(Q, c, |q|)
    ensures NotFrom(Q, Misreplaced(c, '\n', "\\n"), |q|)
  {
    hide Replace, Misreplaced;
    var cr := c[|q|..];
    assert c == q + cr;
    ReplaceApart(q, cr, '\n', "\\n");
    ReplaceCount(cr, '\n', "\\n", Q);
    assert Q !in multiset(Replace(cr, '\n', "\\n"));
    NotFromBehind(Q, q, Replace(cr, '\n', "\\n"));
    WholeLater(c, '\n', "\\n", Q, |q|);
  }

  /** A quote where both texts still agree would stand later in `c` than in `m`. */
  lemma NoQuoteBetween(m: string, c: string, q: string, g: string, f: nat, m2: string, c2: string)
    requires Parted(m, c, q, g, '\\', "\\\\") && Earlier(m, c) && multiset(m)[Q] <= 1 && Q !in q
    requires Fronts(m, c, q, g, f, m2, c2)
    requires |q| <= Agree(m2, c2) <= f && Agree(m2, c2) <= |q| + |g| && (Agree(m2, c2) > |q| ==> g[0] == '\n')
    ensures Q !in m2[..Agree(m2, c2)]
  {
    var i := Agree(m2, c2);
    forall a | 0 <= a < i ensures m2[a] != Q {
      if a < |q| {
        assert m2[a] == m2[..|q|][a] == q[a];
      } else if a < |q| + 2 {
      } else {
        LaterQuote(m, c, q, g, a);
        assert m2[a] == g[a - |q| - 1];
        assert m2[a] == m2[..i][a] == c2[..i][a] == c2[a];
        assert c2[a] == if f == |c| then c[a] else c2[..f][a];
        assert f < |c| ==> c[..f][a] == c[a];
      }
    }
  }

  lemma LaterQuote(m: string, c: string, q: string, g: string, a: nat)
    requires Parted(m, c, q, g, '\\', "\\\\") && Earlier(m, c) && multiset(m)[Q] <= 1
    requires |q| + 2 <= a <= |q| + |g| && a < |c|
    ensures g[a - |q| - 1] == Q ==> c[a] != Q
  {
    assert m[..a][a - 1] == m[a - 1] == m[|q|..|q| + |g|][a - 1 - |q|] == g[a - |q| - 1];
    if g[a - |q| - 1] == Q {
      OnlyOne(m, a, Q);
      assert NotFrom(Q, c, a);
    }
  }

  // The backslashes

  /** Backslashes that are not replaced properly. */
  lemma BackslashesTraceable(v: string)
    requires multiset(v)['\n'] <= 1 && multiset(v)[Q] <= 1 && !Replaceable(v, "\\")
    ensures Traceable(Plain(v), Misreplaced(Misreplaced(v, '\\', "\\\\"), '\n', "\\n"))
  {
    hide Replace, Misreplaced, Replaceable, Parted, Traceable;
    var m, c := Replace(v, '\\', "\\\\"), Misreplaced(v, '\\', "\\\\");
    var q, g := WholeParts(v, '\\', "\\\\");
    ReplaceCount(v, '\\', "\\\\", '\n');
    ReplaceCount(v, '\\', "\\\\", Q);
    ComesEarlier(v);
    if '\n' in q {
      NewlineBefore(m, c, q, g);
    } else {
      NewlineBehind(m, c, q, g);
    }
  }

  lemma ComesEarlier(v: string)
    ensures Earlier(Replace(v, '\\', "\\\\"), Misreplaced(v, '\\', "\\\\"))
  {
    hide Replace, Misreplaced, NotFrom;
    var m, c := Replace(v, '\\', "\\\\"), Misreplaced(v, '\\', "\\\\");
    forall j: nat
      ensures (NotFrom('\n', m, j) ==> NotFrom('\n', c, j)) && (NotFrom(Q, m, j) ==> NotFrom(Q, c, j))
    {
      if NotFrom('\n', m, j) {
        WholeLater(v, '\\', "\\\\", '\n', j);
      }
      if NotFrom(Q, m, j) {
        WholeLater(v, '\\', "\\\\", Q, j);
      }
    }
  }

  // The whole value

  lemma SubstituteIsSeen(v: string, c: char, after: string, heap: Heap)
    requires NUL !in v && NUL !in after && Terminated(heap)
    ensures Substitute(v, [c], after, heap) == Misreplaced(v, c, after) && NUL !in Misreplaced(v, c, after)
  {
    hide CText;
    var occ := Occurrences(v, [c], 0);
    SeenIs(v, heap(v), occ, after, 0);
    SeenNoNul(v, occ, after, 0);
    if occ == [] {
      assert v[0..] == v;
      SeenUnrolled(v, occ, after, 0);
    }
  }

  lemma PrintedSeen(v: string, heap: Heap)
    requires NUL !in v && Terminated(heap)
    ensures var c2 := Misreplaced(Misreplaced(v, '\\', "\\\\"), '\n', "\\n");
            PrintedByCode(v, heap) == Wrapped(c2, Misreplaced(c2, Q, "\\\""))
  {
    hide Substitute, Misreplaced, HasBlank;
    var c1 := Misreplaced(v, '\\', "\\\\");
    var c2 := Misreplaced(c1, '\n', "\\n");
    SubstituteIsSeen(v, '\\', "\\\\", heap);
    SubstituteIsSeen(c1, '\n', "\\n", heap);
    SubstituteIsSeen(c2, Q, "\\\"", heap);
  }

  /** At most one of the three characters occurs more than once. */
  predicate OneRepeated(v: string) {
    var b, n, q := multiset(v)['\\'], multiset(v)['\n'], multiset(v)[Q];
    (b <= 1 && n <= 1) || (b <= 1 && q <= 1) || (n <= 1 && q <= 1)
  }

  /** Such a value is printed as it is meant to be exactly if all its replacements work. */
  lemma PrintsWellExactly(v: string, heap: Heap)
    requires NUL !in v && Terminated(heap) && OneRepeated(v)
    ensures PrintedByCode(v, heap) == Printed(v) <==> PrintsWell(v)
  {
    hide Replace, Misreplaced, Replaceable, HasBlank, Traceable, PrintedByCode;
    if PrintsWell(v) {
      PrintedByCodeIs(v, heap);
    } else {
      var m1 := Replace(v, '\\', "\\\\");
      var c1 := Misreplaced(v, '\\', "\\\\");
      var c2 := Misreplaced(c1, '\n', "\\n");
      PrintedSeen(v, heap);
      PlainCounts(v);
      WellWhenFew(v);
      if !Replaceable(v, "\\") {
        BackslashesTraceable(v);
        PrintedDiffers(Plain(v), c2);
      } else {
        ReplacedIs(v, '\\', "\\\\", heap);
        if !Replaceable(m1, "\n") {
          NewlinesTraceable(m1);
          PrintedDiffers(Plain(v), c2);
        } else {
          ReplaceNoNul(v, '\\', "\\\\");
          ReplacedIs(m1, '\n', "\\n", heap);
          QuotesMisprinted(Plain(v), heap);
        }
      }
    }
  }

  lemma PlainCounts(v: string)
    ensures multiset(Replace(v, '\\', "\\\\"))['\n'] == multiset(v)['\n']
    ensures multiset(Replace(v, '\\', "\\\\"))[Q] == multiset(Plain(v))[Q] == multiset(v)[Q]
  {
    hide Replace;
    ReplaceCount(v, '\\', "\\\\", '\n');
    ReplaceCount(v, '\\', "\\\\", Q);
    ReplaceCount(Replace(v, '\\', "\\\\"), '\n', "\\n", Q);
  }

  /** A character that occurs once at most is replaced properly. */
  lemma WellWhenFew(v: string)
    ensures multiset(v)['\\'] <= 1 ==> Replaceable(v, "\\")
    ensures multiset(v)['\n'] <= 1 ==> Replaceable(Replace(v, '\\', "\\\\"), "\n")
    ensures multiset(v)[Q] <= 1 ==> Replaceable(Plain(v), "\"")
  {
    hide Replace, Replaceable;
    PlainCounts(v);
    if multiset(v)['\\'] <= 1 {
      AtMostOne(v, '\\');
    }
    if multiset(v)['\n'] <= 1 {
      AtMostOne(Replace(v, '\\', "\\\\"), '\n');
    }
    if multiset(v)[Q] <= 1 {
      AtMostOne(Plain(v), Q);
    }
  }

  lemma ReplacedIs(v: string, c: char, after: string, heap: Heap)
    requires Replaceable(v, [c]) && NUL !in v && NUL !in after && Terminated(heap)
    ensures Misreplaced(v, c, after) == Replace(v, c, after)
  {
    SubstituteIsSeen(v, c, after, heap);
    SubstituteIs(v, c, after, heap);
  }

  /** Quotes come last: the texts differ because the replacements do. */
  lemma QuotesMisprinted(m: string, heap: Heap)
    requires HasBlank(m) && !Replaceable(m, "\"")
    ensures Wrapped(m, Misreplaced(m, Q, "\\\"")) != Wrapped(m, Replace(m, Q, "\\\""))
  {
    hide Replace, Misreplaced, Replaceable, HasBlank, Parted;
    var q, g := WholeParts(m, Q, "\\\"");
    PartedAgree(Replace(m, Q, "\\\""), Misreplaced(m, Q, "\\\""), q, g, Q, "\\\"");
    ConcatAssociates3(Misreplaced(m, Q, "\\\""), Replace(m, Q, "\\\""));
  }

  /** Replacing the backslashes of 1\2\3 copies the 3 where the 2 belongs. */
  lemma MisreplacedValue()
    ensures !Replaceable("1\\2\\3", "\\")
    ensures Misreplaced("1\\2\\3", '\\', "\\\\") == "1\\\\3\\\\3"
  {
    hide Occurrences, Seen, GapsRepeat;
    TwoBackslashes();
    SeenOfTwo("1\\2\\3", [1, 3]);
  }

  lemma TwoBackslashes()
    ensures Occurrences("1\\2\\3", "\\", 0) == [1, 3]
  {
    hide Strstr, Spaced;
    var s := "1\\2\\3";
    StrstrIs(s, '\\', 0, 1);
    StrstrIs(s, '\\', 2, 3);
    StrstrIs(s, '\\', 4, 5);
    assert Occurrences(s, "\\", 4) == [];
    assert Occurrences(s, "\\", 2) == [3] + Occurrences(s, "\\", 4) == [3];
    assert Occurrences(s, "\\", 0) == [1] + Occurrences(s, "\\", 2);
  }

  lemma SeenOfTwo(s: string, occ: seq<nat>)
    requires s == "1\\2\\3" && occ == [1, 3]
    ensures Spaced(occ, 1, |s|) && !GapsRepeat(s, occ, 1, 0)
    ensures Seen(s, occ, "\\\\", 0) == "1\\\\3\\\\3"
  {
    hide Seen;
    SeenUnrolled(s, occ, "\\\\", 0);
    SeenUnrolled(s, occ, "\\\\", 1);
    SeenUnrolled(s, occ, "\\\\", 2);
    assert s[0..1] == "1" && s[2..3] == "2" && s[4..] == "3" && s[4..][..1] == "3";
    assert s[2..3][0] != s[4..][0];
    assert !GapRepeats(s, occ, 1, 1);
  }

  /** A value that the code prints wrongly, and that comes back as another one. */
  lemma MisprintedValue(heap: Heap)
    requires Terminated(heap)
    ensures !PrintsWell("1\\2\\3") && PrintedByCode("1\\2\\3", heap) == "1\\\\3\\\\3"
    ensures Read(PrintedByCode("1\\2\\3", heap)) == Some("1\\3\\3") != Some("1\\2\\3")
  {
    hide Strstr, Misreplaced, Replaceable, PrintedByCode, Replace, Unescape;
    var c := "1\\\\3\\\\3";
    MisreplacedValue();
    PrintedSeen("1\\2\\3", heap);
    WellAtFirst(c, '\n', "\\n");
    assert "1\\3\\3"[2] != "1\\2\\3"[2];
    ReadMisprint();
  }

  lemma ReadMisprint()
    ensures Unescape("1\\\\3\\\\3", false) == Some("1\\3\\3")
  {
    var c := "1\\\\3\\\\3";
    assert CodeAll("1\\3\\3", false) == c by {
      var v := "1\\3\\3";
      assert v[1..] == "\\3\\3" && v[1..][1..] == "3\\3" && v[1..][1..][1..] == "\\3" && v[1..][1..][1..][1..] == "3";
      CodeConcat("1", "\\3\\3", false);
      CodeConcat("\\", "3\\3", false);
      CodeConcat("3", "\\3", false);
      CodeConcat("\\", "3", false);
      assert v == "1" + "\\3\\3" && "\\3\\3" == "\\" + "3\\3" && "3\\3" == "3" + "\\3" && "\\3" == "\\" + "3";
      OneCode('1');
      OneCode('\\');
      OneCode('3');
    }
    UnescapeCodeAll("1\\3\\3", false);
  }

  lemma OneCode(c: char)
    ensures CodeAll([c], false) == Code(c, false)
  {
    assert [c][1..] == "";
  }
}

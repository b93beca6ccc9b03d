/**
  iniparser.c: one option value on its way into a line and back out of it.

  Printed is what the printer is meant to write, with every occurrence replaced; PrintedByCode is what
  it writes with fcitx_utils_string_replace as it is, and PrintsWell says for which values they agree.
 */
module IniValue {
  import opened Escape
  import opened Seqs
  import opened StringReplace
  import opened Wrappers

  /** The characters trimmed from a line; all but the newline also make a value be quoted. */
  const SPACES: string := [FF, '\n', '\r', '\t', VT, ' ']

  const BLANKS: string := [FF, '\r', '\t', VT, ' ']

  /** strpbrk(s, BLANKS) != NULL */
  predicate HasBlank(s: string) {
    exists i :: 0 <= i < |s| && s[i] in BLANKS
  }

  /** Backslashes and newlines, as they are always escaped. */
  function Plain(v: string): string {
    Replace(Replace(v, '\\', "\\\\"), '\n', "\\n")
  }

  /** What is printed behind the equals sign. */
  function Printed(v: string): string {
    var p := Plain(v);
    if HasBlank(p) then "\"" + Replace(p, '\"', "\\\"") + "\"" else p
  }

  /** What stands behind each string in memory. */
  type Heap = string -> nat -> char

  /** Every string has its terminator. */
  ghost predicate Terminated(heap: Heap) {
    forall s: string :: heap(s)(0) == NUL
  }

  /** A replacement as the printer uses it: null leaves the value as it is. */
  function Substitute(v: string, before: string, after: string, heap: Heap): string {
    var temp := Result(v, heap(v), before, after, true);
    if temp.Some? then CText(temp.value) else v
  }

  /** What the code prints behind the equals sign. */
  function PrintedByCode(v: string, heap: Heap): string {
    var p := Substitute(Substitute(v, "\\", "\\\\", heap), "\n", "\\n", heap);
    if HasBlank(p) then "\"" + Substitute(p, "\"", "\\\"", heap) + "\"" else p
  }

  /** In each of the three replacements, the text between occurrences of one batch repeats. */
  predicate PrintsWell(v: string) {
    && Replaceable(v, "\\")
    && Replaceable(Replace(v, '\\', "\\\\"), "\n")
    && (HasBlank(Plain(v)) ==> Replaceable(Plain(v), "\""))
  }

  predicate Quoted(s: string) {
    |s| >= 2 && s[0] == '\"' && s[|s| - 1] == '\"'
  }

  /** _unescape_string, with None for its failure. */
  function Unescape(s: string, quote: bool): Option<string>
    decreases |s|
  {
    if s == "" then Some("")
    else if s[0] != '\\' then Cons(s[0], Unescape(s[1..], quote))
    else if |s| >= 2 && Escapable(s[1], quote) then Cons(Meant(s[1]), Unescape(s[2..], quote))
    else None
  }

  predicate Escapable(c: char, quote: bool) {
    c == '\\' || c == 'n' || (c == '\"' && quote)
  }

  /** unescape_map */
  function Meant(c: char): char {
    if c == 'n' then '\n' else c
  }

  function Cons(c: char, r: Option<string>): Option<string> {
    if r.None? then None else Some([c] + r.value)
  }

  /** What the parser makes of the text behind the equals sign. */
  function Read(s: string): Option<string> {
    if Quoted(s) then Unescape(s[1..|s| - 1], true) else Unescape(s, false)
  }

  // Escaping character by character

  /** What becomes of one character of a value; quotes only when the value is quoted. */
  function Code(c: char, quote: bool): string {
    if c == '\\' then "\\\\" else if c == '\n' then "\\n" else if c == '\"' && quote then "\\\"" else [c]
  }

  function CodeAll(v: string, quote: bool): string {
    if v == "" then "" else Code(v[0], quote) + CodeAll(v[1..], quote)
  }

  lemma ReplaceShort(c: char)
    ensures Replace([c], '\\', "\\\\") == if c == '\\' then "\\\\" else [c]
    ensures Replace("\\\\", '\n', "\\n") == "\\\\"
    ensures Replace([c], '\n', "\\n") == if c == '\n' then "\\n" else [c]
    ensures Replace(Code(c, false), '\"', "\\\"") == Code(c, true)
  {
    assert [c][1..] == "" && "\\\\"[1..] == "\\" && "\\"[1..] == "" && "\\n"[1..] == "n" && "n"[1..] == "";
  }

  lemma {:induction false} PlainIsCode(v: string)
    ensures Plain(v) == CodeAll(v, false)
  {
    if v == "" {
    } else {
      var c, t := v[0], v[1..];
      PlainIsCode(t);
      ReplaceShort(c);
      assert v == [c] + t;
      ReplaceConcat([c], t, '\\', "\\\\");
      ReplaceConcat(Replace([c], '\\', "\\\\"), Replace(t, '\\', "\\\\"), '\n', "\\n");
    }
  }

  lemma {:induction false} QuotesAreCode(v: string)
    ensures Replace(CodeAll(v, false), '\"', "\\\"") == CodeAll(v, true)
  {
    if v == "" {
    } else {
      QuotesAreCode(v[1..]);
      ReplaceShort(v[0]);
      ReplaceConcat(Code(v[0], false), CodeAll(v[1..], false), '\"', "\\\"");
    }
  }

  /** Unescaping takes the code of one character off the front. */
  lemma UnescapeCode(c: char, rest: string, quote: bool)
    ensures Unescape(Code(c, quote) + rest, quote) == Cons(c, Unescape(rest, quote))
  {
    assert (Code(c, quote) + rest)[|Code(c, quote)|..] == rest;
  }

  lemma UnescapePlainCode(c: char, rest: string, quote: bool)
    ensures Unescape(Code(c, false) + rest, quote) == Cons(c, Unescape(rest, quote))
  {
    assert (Code(c, false) + rest)[|Code(c, false)|..] == rest;
  }

  lemma {:induction false} UnescapeCodeAll(v: string, quote: bool)
    ensures Unescape(CodeAll(v, quote), quote) == Some(v)
  {
    if v == "" {
    } else {
      UnescapeCodeAll(v[1..], quote);
      UnescapeCode(v[0], CodeAll(v[1..], quote), quote);
      assert v == [v[0]] + v[1..];
    }
  }

  /** Unescaping never needs a quote to be escaped. */
  lemma {:induction false} UnescapePlain(v: string, quote: bool)
    ensures Unescape(CodeAll(v, false), quote) == Some(v)
  {
    if v == "" {
    } else {
      UnescapePlain(v[1..], quote);
      UnescapePlainCode(v[0], CodeAll(v[1..], false), quote);
      assert v == [v[0]] + v[1..];
    }
  }

  lemma {:induction false} CodeBlanks(v: string, quote: bool)
    ensures HasBlank(CodeAll(v, quote)) <==> HasBlank(v)
  {
    if v == "" {
    } else {
      var c, rest := Code(v[0], quote), CodeAll(v[1..], quote);
      CodeBlanks(v[1..], quote);
      HasBlankConcat(c, rest);
      HasBlankConcat([v[0]], v[1..]);
      assert v == [v[0]] + v[1..];
      CodeBlank(v[0], quote);
    }
  }

  lemma CodeBlank(c: char, quote: bool)
    ensures HasBlank(Code(c, quote)) <==> c in BLANKS
    ensures HasBlank([c]) <==> c in BLANKS
  {
    assert Code(c, quote)[0] == c || Code(c, quote)[0] == '\\';
    assert [c][0] == c;
    if c in BLANKS {
      assert Code(c, quote) == [c];
    }
  }

  lemma HasBlankConcat(s: string, r: string)
    ensures HasBlank(s + r) <==> HasBlank(s) || HasBlank(r)
  {
    if HasBlank(s) {
      var i :| 0 <= i < |s| && s[i] in BLANKS;
      assert (s + r)[i] in BLANKS;
    }
    if HasBlank(r) {
      var i :| 0 <= i < |r| && r[i] in BLANKS;
      assert (s + r)[|s| + i] in BLANKS;
    }
  }

  lemma CodeEnds(v: string, quote: bool)
    requires v != ""
    ensures var e := CodeAll(v, quote);
            && e != ""
            && (e[0] == '\"' <==> v[0] == '\"' && !quote)
            && (e[|e| - 1] == '\"' <==> v[|v| - 1] == '\"')
            && (e[|e| - 1] == ']' <==> v[|v| - 1] == ']')
            && (e[|e| - 1] in SPACES <==> v[|v| - 1] in BLANKS)
            && (|v| > 1 ==> |e| > 1)
  {
    var init, last := v[..|v| - 1], v[|v| - 1];
    assert v == init + [last];
    CodeConcat(init, [last], quote);
    assert [last][1..] == "" && CodeAll([last], quote) == Code(last, quote) + CodeAll("", quote);
    CodeLast(last, quote);
    if |v| > 1 {
      assert |Code(init[0], quote)| >= 1;
    }
  }

  lemma CodeLast(c: char, quote: bool)
    ensures var e := Code(c, quote);
            && (e[|e| - 1] == '\"' <==> c == '\"') && (e[|e| - 1] == ']' <==> c == ']')
            && (e[|e| - 1] in SPACES <==> c in BLANKS)
  {
  }

  /** The values whose own quotes are taken for the printer's. */
  predicate LosesQuotes(v: string) {
    !HasBlank(v) && Quoted(v)
  }

  lemma PrintedIs(v: string)
    ensures Printed(v) == if HasBlank(v) then "\"" + CodeAll(v, true) + "\"" else CodeAll(v, false)
  {
    PlainIsCode(v);
    CodeBlanks(v, false);
    QuotesAreCode(v);
  }

  /** Reading a printed value gives it back, except exactly when it loses its quotes. */
  lemma ValueRoundTrip(v: string)
    ensures Read(Printed(v)) == Some(v) <==> !LosesQuotes(v)
  {
    PrintedIs(v);
    var e := Printed(v);
    if HasBlank(v) {
      assert Quoted(e) && e[1..|e| - 1] == CodeAll(v, true);
      UnescapeCodeAll(v, true);
    } else if v == "" {
      assert e == "";
    } else {
      CodeEnds(v, false);
      UnescapePlain(v, false);
      if Quoted(e) {
        QuotedCode(v);
        UnescapePlain(v[1..|v| - 1], true);
      }
    }
  }

  lemma QuotedCode(v: string)
    requires Quoted(CodeAll(v, false))
    ensures Quoted(v) && CodeAll(v, false)[1..|CodeAll(v, false)| - 1] == CodeAll(v[1..|v| - 1], false)
  {
    CodeEnds(v, false);
    OneQuote();
    if |v| > 1 {
      var m := v[1..|v| - 1];
      assert v == ['\"'] + m + ['\"'];
      CodeConcat(['\"'] + m, ['\"'], false);
      CodeConcat(['\"'], m, false);
    }
  }

  lemma OneQuote()
    ensures CodeAll(['\"'], false) == "\""
  {
    assert ['\"'][1..] == "";
  }

  lemma {:induction false} CodeConcat(s: string, r: string, quote: bool)
    ensures CodeAll(s + r, quote) == CodeAll(s, quote) + CodeAll(r, quote)
  {
    if s == "" {
      assert s + r == r;
    } else {
      CodeConcat(s[1..], r, quote);
      assert (s + r)[1..] == s[1..] + r;
      ConcatAssociates(Code(s[0], quote), CodeAll(s[1..], quote), CodeAll(r, quote));
    }
  }

  // The printer as it is

  lemma SubstituteIs(v: string, c: char, after: string, heap: Heap)
    requires NUL !in v && NUL !in after && Terminated(heap) && Replaceable(v, [c])
    ensures Substitute(v, [c], after, heap) == Replace(v, c, after)
  {
    hide Result, MeantResult, Replaceable, Replace;
    ResultIsMeant(v, heap(v), [c], after, true);
    MeantResultIsReplace(v, c, after);
    ReplaceNoNul(v, c, after);
  }

  /** For such values the code prints what it is meant to. */
  lemma PrintedByCodeIs(v: string, heap: Heap)
    requires NUL !in v && Terminated(heap) && PrintsWell(v)
    ensures PrintedByCode(v, heap) == Printed(v)
  {
    hide Substitute, Replaceable, Replace, HasBlank;
    ReplaceNoNul(v, '\\', "\\\\");
    ReplaceNoNul(Replace(v, '\\', "\\\\"), '\n', "\\n");
    SubstituteIs(v, '\\', "\\\\", heap);
    SubstituteIs(Replace(v, '\\', "\\\\"), '\n', "\\n", heap);
    if HasBlank(Plain(v)) {
      SubstituteIs(Plain(v), '\"', "\\\"", heap);
    }
  }

  /** One backslash, one newline and one quote can do no harm. */
  lemma FewPrintWell(v: string)
    requires multiset(v)['\\'] <= 1 && multiset(v)['\n'] <= 1 && multiset(v)['\"'] <= 1
    ensures PrintsWell(v)
  {
    hide Replace, Replaceable, HasBlank;
    var w := Replace(v, '\\', "\\\\");
    ReplaceCount(v, '\\', "\\\\", '\n');
    ReplaceCount(v, '\\', "\\\\", '\"');
    ReplaceCount(w, '\n', "\\n", '\"');
    AtMostOne(v, '\\');
    AtMostOne(w, '\n');
    AtMostOne(Plain(v), '\"');
  }

  /** The round trip of the code as it is. */
  lemma CodeRoundTrip(v: string, heap: Heap)
    requires NUL !in v && Terminated(heap) && PrintsWell(v)
    ensures Read(PrintedByCode(v, heap)) == Some(v) <==> !LosesQuotes(v)
  {
    PrintedByCodeIs(v, heap);
    ValueRoundTrip(v);
  }
}

/** iniparser.c: lines, from the printer's side and from the parser's. */
module IniLine {
  import opened ConfigTree
  import opened Escape
  import opened IniValue
  import opened Seqs

  /** What one line tells the parser. */
  datatype Line = Nothing | Group(path: string) | Assign(name: string, value: string)

  function TrimLeft(s: string): string {
    if s != "" && s[0] in SPACES then TrimLeft(s[1..]) else s
  }

  function TrimRight(s: string): string {
    if s != "" && s[|s| - 1] in SPACES then TrimRight(s[..|s| - 1]) else s
  }

  /** fcitx_utils_inplace_trim */
  function Trim(s: string): string {
    TrimRight(TrimLeft(s))
  }

  /** The body of the line loop of fcitx_ini_parse, on a trimmed line. */
  function ParseTrimmed(s: string): Line {
    if s != "" && s[0] == '#' then Nothing
    else if s != "" && s[0] == '[' && s[|s| - 1] == ']' then Group(s[1..|s| - 1])
    else
      var e := Find(s, '=');
      if e == |s| then Nothing
      else
        var v := Read(s[e + 1..]);
        if v.None? then Nothing else Assign(s[..e], v.value)
  }

  function ParseLine(s: string): Line {
    ParseTrimmed(Trim(s))
  }

  // What the printer writes.

  function OptionLine(name: string, printed: string): string {
    name + "=" + printed
  }

  function GroupLine(path: string): string {
    "[" + path + "]"
  }

  function CommentLine(comment: string): string {
    "# " + comment
  }

  /** The option lines that are read as what they were printed for. */
  predicate OptionSurvives(name: string, v: string) {
    && '=' !in name
    && (name != "" ==> name[0] !in SPACES && name[0] != '#')
    && !(name != "" && name[0] == '[' && v != "" && v[|v| - 1] == ']' && !HasBlank(v))
    && !LosesQuotes(v)
  }

  lemma TrimStays(s: string)
    requires s != "" && s[0] !in SPACES && s[|s| - 1] !in SPACES
    ensures Trim(s) == s && Trim(s + "\n") == s
  {
    assert (s + "\n")[..|s|] == s;
  }

  lemma {:induction false} TrimRightKeepsHead(s: string)
    requires s != "" && s[0] !in SPACES
    ensures TrimRight(s) != "" && TrimRight(s)[0] == s[0]
  {
    if s[|s| - 1] !in SPACES {
    } else {
      TrimRightKeepsHead(s[..|s| - 1]);
    }
  }

  /** What a trimmed line begins with is not a space. */
  lemma {:induction false} TrimLeftHead(s: string)
    ensures var t := TrimLeft(s); |t| <= |s| && (t != "" ==> t[0] !in SPACES)
    ensures s != "" && s[0] in SPACES ==> |TrimLeft(s)| < |s|
  {
    if s == "" {
    } else if s[0] in SPACES {
      TrimLeftHead(s[1..]);
    }
  }

  lemma CommentIsSkipped(comment: string)
    ensures ParseLine(CommentLine(comment) + "\n") == Nothing
  {
    TrimRightKeepsHead(CommentLine(comment) + "\n");
  }

  lemma GroupIsRead(path: string)
    ensures ParseLine(GroupLine(path) + "\n") == Group(path)
  {
    TrimStays(GroupLine(path));
    assert GroupLine(path)[1..|GroupLine(path)| - 1] == path;
  }

  lemma PrintedEnd(v: string)
    ensures var e := "=" + Printed(v);
            e[|e| - 1] !in SPACES && (e[|e| - 1] == ']' <==> v != "" && v[|v| - 1] == ']' && !HasBlank(v))
  {
    PrintedIs(v);
    if !HasBlank(v) && v != "" {
      CodeEnds(v, false);
      assert v[|v| - 1] in BLANKS ==> HasBlank(v);
    }
  }

  lemma FindEquals(name: string, rest: string)
    ensures var e := Find(name + "=" + rest, '=');
            e <= |name| && (e == |name| <==> '=' !in name)
            && (e == |name| ==> (name + "=" + rest)[..e] == name && (name + "=" + rest)[e + 1..] == rest)
  {
    var s := name + "=" + rest;
    assert s[|name|] == '=';
    if '=' in name {
      var i :| 0 <= i < |name| && name[i] == '=';
      assert s[i] == '=';
    } else {
      FindIs(s, '=', |name|);
    }
  }

  /** A printed option is read back, except exactly when its name or value does not survive. */
  lemma OptionRoundTrip(name: string, v: string)
    ensures ParseLine(OptionLine(name, Printed(v)) + "\n") == Assign(name, v) <==> OptionSurvives(name, v)
  {
    hide Printed, Find, ParseTrimmed, TrimLeft, TrimRight;
    var s := OptionLine(name, Printed(v));
    var e := "=" + Printed(v);
    assert s == name + e;
    PrintedEnd(v);
    assert s[|s| - 1] == e[|e| - 1];
    if name == "" || name[0] !in SPACES {
      assert s[0] == if name == "" then '=' else name[0];
      TrimStays(s);
      OptionParsed(name, v);
    } else {
      SpacedName(name, e);
    }
  }

  /** The same of the line that the code prints. */
  lemma CodeOptionRoundTrip(name: string, v: string, heap: Heap)
    requires NUL !in v && Terminated(heap) && PrintsWell(v)
    ensures ParseLine(OptionLine(name, PrintedByCode(v, heap)) + "\n") == Assign(name, v) <==> OptionSurvives(name, v)
  {
    PrintedByCodeIs(v, heap);
    OptionRoundTrip(name, v);
  }

  lemma OptionParsed(name: string, v: string)
    requires name == "" || name[0] !in SPACES
    ensures ParseTrimmed(OptionLine(name, Printed(v))) == Assign(name, v) <==> OptionSurvives(name, v)
  {
    hide Printed, Read, LosesQuotes, HasBlank, ParseTrimmed;
    var s, e := OptionLine(name, Printed(v)), "=" + Printed(v);
    assert s == name + e && s[|s| - 1] == e[|e| - 1];
    PrintedEnd(v);
    ParseOption(name, Printed(v));
    ValueRoundTrip(v);
  }

  /** What the parser makes of a name, an equals sign and a text. */
  lemma ParseOption(name: string, rest: string)
    ensures var s := name + "=" + rest;
            var other := name != "" && (name[0] == '#' || (name[0] == '[' && s[|s| - 1] == ']'));
            && (other ==> !ParseTrimmed(s).Assign?)
            && (!other && '=' !in name ==>
                  ParseTrimmed(s) == if Read(rest).None? then Nothing else Assign(name, Read(rest).value))
            && ('=' in name && ParseTrimmed(s).Assign? ==> ParseTrimmed(s).name != name)
  {
    hide Read, Find;
    var s := name + "=" + rest;
    assert s[0] == if name == "" then '=' else name[0];
    FindEquals(name, rest);
  }

  /** Leading space does not come back. */
  lemma SpacedName(name: string, e: string)
    requires name != "" && name[0] in SPACES
    ensures ParseLine(name + e + "\n").Assign? ==> ParseLine(name + e + "\n").name != name
  {
    var s := name + e + "\n";
    TrimLeftHead(s);
    var t := Trim(s);
    if TrimLeft(s) != "" {
      TrimRightKeepsHead(TrimLeft(s));
    }
    assert t != "" ==> t[0] !in SPACES;
    var i := Find(t, '=');
    if i > 0 && i < |t| {
      assert t[..i][0] == t[0];
    }
  }

  /** getline: what comes up to and with the next newline, until the file ends. */
  function Lines(content: string): seq<string> {
    if content == "" then []
    else
      var n := Find(content, '\n');
      if n == |content| then [content] else [content[..n + 1]] + Lines(content[n + 1..])
  }

  /** The printed lines put one after the other. */
  function TextOf(lines: seq<string>): string {
    if lines == [] then "" else lines[0] + "\n" + TextOf(lines[1..])
  }

  predicate OneLineEach(lines: seq<string>) {
    forall i | 0 <= i < |lines| :: '\n' !in lines[i]
  }

  function Ended(lines: seq<string>): (r: seq<string>)
    ensures |r| == |lines|
  {
    if lines == [] then [] else [lines[0] + "\n"] + Ended(lines[1..])
  }

  lemma {:induction false} LinesOfText(lines: seq<string>)
    requires OneLineEach(lines)
    ensures Lines(TextOf(lines)) == Ended(lines)
  {
    if lines == [] {
    } else {
      var l, rest := lines[0], TextOf(lines[1..]);
      LinesOfText(lines[1..]);
      var s := l + "\n" + rest;
      assert s[|l|] == '\n';
      FindIs(s, '\n', |l|);
      assert s[..|l| + 1] == l + "\n" && s[|l| + 1..] == rest;
    }
  }

  lemma {:induction false} TextConcat(a: seq<string>, b: seq<string>)
    ensures TextOf(a + b) == TextOf(a) + TextOf(b)
  {
    if a == [] {
      assert a + b == b;
    } else {
      TextConcat(a[1..], b);
      assert (a + b)[1..] == a[1..] + b;
      ConcatAssociates(a[0] + "\n", TextOf(a[1..]), TextOf(b));
    }
  }

  lemma {:induction false} EndedConcat(a: seq<string>, b: seq<string>)
    ensures Ended(a + b) == Ended(a) + Ended(b)
  {
    if a == [] {
      assert a + b == b;
    } else {
      EndedConcat(a[1..], b);
      assert (a + b)[1..] == a[1..] + b;
      ConcatAssociates([a[0] + "\n"], Ended(a[1..]), Ended(b));
    }
  }
}

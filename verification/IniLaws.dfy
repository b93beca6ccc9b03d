/** iniparser.c: values and lines said of their characters: which texts are read, as what, and which are skipped. */
module IniLaws {
  import opened ConfigTree
  import opened Escape
  import opened IniLine
  import opened IniParser
  import opened IniValue
  import opened Seqs
  import opened Wrappers

  // Values

  /**
    The texts that spell one character: a character other than the backslash itself, a doubled backslash, a
    backslash and n for the newline, and only where quoted a backslash and a quote.
   */
  ghost predicate SpellsOne(unit: string, c: char, quoted: bool) {
    || (unit == [c] && c != '\\')
    || (unit == "\\\\" && c == '\\')
    || (unit == "\\n" && c == '\n')
    || (unit == "\\\"" && c == '\"' && quoted)
  }

  ghost predicate Spells(units: seq<string>, v: string, quoted: bool) {
    |units| == |v| && forall i | 0 <= i < |v| :: SpellsOne(units[i], v[i], quoted)
  }

  /** The text spells `v`. */
  ghost predicate Spelled(text: string, v: string, quoted: bool) {
    exists units :: Concat(units) == text && Spells(units, v, quoted)
  }

  /** A text is unescaped, and to `v`, exactly if it spells `v`. */
  lemma UnescapeExactly(text: string, v: string, quoted: bool)
    ensures Unescape(text, quoted) == Some(v) <==> Spelled(text, v, quoted)
  {
    if Unescape(text, quoted) == Some(v) {
      var units := Units(text, v, quoted);
      assert Spells(units, v, quoted);
    }
    forall units | Concat(units) == text && Spells(units, v, quoted) ensures Unescape(text, quoted) == Some(v) {
      UnescapeUnits(units, v, quoted);
    }
  }

  lemma {:induction false} Units(text: string, v: string, quoted: bool) returns (units: seq<string>)
    requires Unescape(text, quoted) == Some(v)
    ensures Concat(units) == text && Spells(units, v, quoted)
    decreases |text|
  {
    if text == "" {
      units := [];
    } else {
      var n := if text[0] == '\\' then 2 else 1;
      var rest := Units(text[n..], v[1..], quoted);
      ConcatCons(text[..n], rest);
      units := [text[..n]] + rest;
    }
  }

  lemma {:induction false} UnescapeUnits(units: seq<string>, v: string, quoted: bool)
    requires Spells(units, v, quoted)
    ensures Unescape(Concat(units), quoted) == Some(v)
  {
    if units == [] {
    } else {
      UnescapeUnits(units[1..], v[1..], quoted);
      var text, rest := Concat(units), Concat(units[1..]);
      assert text == units[0] + rest && text[|units[0]|..] == rest && v == [v[0]] + v[1..];
    }
  }

  /** Behind the equals sign: between quotes, or without. */
  ghost predicate ValueSpelled(text: string, v: string) {
    if |text| >= 2 && text[0] == '\"' && text[|text| - 1] == '\"' then Spelled(text[1..|text| - 1], v, true)
    else Spelled(text, v, false)
  }

  lemma ReadExactly(text: string, v: string)
    ensures Read(text) == Some(v) <==> ValueSpelled(text, v)
  {
    hide Spelled, Unescape;
    if Quoted(text) {
      UnescapeExactly(text[1..|text| - 1], v, true);
    } else {
      UnescapeExactly(text, v, false);
    }
  }

  /** The characters that make a printed value be quoted, by their codes. */
  predicate IsBlank(c: char) {
    c as int in {9, 11, 12, 13, 32}
  }

  lemma BlankMeans(c: char)
    ensures c in BLANKS <==> IsBlank(c)
  {
    assert BLANKS[0] as int == 12 && BLANKS[1] as int == 13 && BLANKS[2] as int == 9;
    assert BLANKS[3] as int == 11 && BLANKS[4] as int == 32;
  }

  /** How a character of a value is printed. */
  function PrintedUnit(c: char, quoted: bool): string {
    if c == '\\' then "\\\\" else if c == '\n' then "\\n" else if c == '\"' && quoted then "\\\"" else [c]
  }

  /** A value is printed character by character, and in quotes exactly if it has a blank. */
  lemma PrintedMeans(v: string) returns (units: seq<string>, quoted: bool)
    ensures quoted <==> exists i :: 0 <= i < |v| && IsBlank(v[i])
    ensures |units| == |v| && forall i | 0 <= i < |v| :: units[i] == PrintedUnit(v[i], quoted)
    ensures Printed(v) == if quoted then "\"" + Concat(units) + "\"" else Concat(units)
  {
    quoted := HasBlank(v);
    forall i | 0 <= i < |v| ensures v[i] in BLANKS <==> IsBlank(v[i]) {
      BlankMeans(v[i]);
    }
    PrintedIs(v);
    units := CodeUnits(v, quoted);
  }

  lemma {:induction false} CodeUnits(v: string, quoted: bool) returns (units: seq<string>)
    ensures |units| == |v| && forall i | 0 <= i < |v| :: units[i] == PrintedUnit(v[i], quoted)
    ensures Concat(units) == CodeAll(v, quoted)
  {
    if v == "" {
      units := [];
    } else {
      var rest := CodeUnits(v[1..], quoted);
      ConcatCons(Code(v[0], quoted), rest);
      units := [Code(v[0], quoted)] + rest;
    }
  }

  // Lines

  /** isspace, by its codes. */
  predicate IsSpace(c: char) {
    c as int in {9, 10, 11, 12, 13, 32}
  }

  lemma SpaceMeans(c: char)
    ensures c in SPACES <==> IsSpace(c)
  {
    assert SPACES[0] as int == 12 && SPACES[1] as int == 10 && SPACES[2] as int == 13;
    assert SPACES[3] as int == 9 && SPACES[4] as int == 11 && SPACES[5] as int == 32;
  }

  predicate AllSpace(s: string) {
    forall i | 0 <= i < |s| :: IsSpace(s[i])
  }

  predicate NoSpaceAround(t: string) {
    t != "" ==> !IsSpace(t[0]) && !IsSpace(t[|t| - 1])
  }

  /** Trimming takes off exactly the space around a text. */
  lemma TrimExactly(s: string) returns (before: string, behind: string)
    ensures s == before + Trim(s) + behind && AllSpace(before) && AllSpace(behind) && NoSpaceAround(Trim(s))
  {
    hide IsSpace;
    before := LeftTrimmed(s);
    behind := RightTrimmed(TrimLeft(s));
    if Trim(s) != "" {
      assert Trim(s)[0] == TrimLeft(s)[0];
      TrimLeftHead(s);
      SpaceMeans(Trim(s)[0]);
    }
    ConcatAssociates(before, Trim(s), behind);
  }

  lemma {:induction false} LeftTrimmed(s: string) returns (before: string)
    ensures s == before + TrimLeft(s) && AllSpace(before)
  {
    hide IsSpace;
    if s != "" && s[0] in SPACES {
      var rest := LeftTrimmed(s[1..]);
      SpaceMeans(s[0]);
      before := [s[0]] + rest;
      assert s == [s[0]] + s[1..];
    } else {
      before := "";
    }
  }

  lemma {:induction false} RightTrimmed(s: string) returns (behind: string)
    ensures s == TrimRight(s) + behind && AllSpace(behind)
    ensures TrimRight(s) != "" ==> !IsSpace(TrimRight(s)[|TrimRight(s)| - 1])
  {
    hide IsSpace;
    if s != "" {
      SpaceMeans(s[|s| - 1]);
    }
    if s != "" && s[|s| - 1] in SPACES {
      var rest := RightTrimmed(s[..|s| - 1]);
      behind := rest + [s[|s| - 1]];
      assert s == s[..|s| - 1] + [s[|s| - 1]];
    } else {
      behind := "";
    }
  }

  /** And so gives back any text with space put around it. */
  lemma TrimOf(before: string, t: string, behind: string)
    requires AllSpace(before) && AllSpace(behind) && NoSpaceAround(t)
    ensures Trim(before + t + behind) == t
  {
    hide TrimLeft, TrimRight, IsSpace;
    assert before + t + behind == before + (t + behind);
    TrimLeftSpace(before, t + behind);
    if t == "" {
      assert t + behind == behind == behind + "";
      TrimLeftSpace(behind, "");
      TrimNothing();
    } else {
      SpaceMeans(t[0]);
      SpaceMeans(t[|t| - 1]);
      TrimLeftStays(t + behind);
      TrimRightSpace(t, behind);
      TrimRightStays(t);
    }
  }

  lemma TrimNothing()
    ensures TrimLeft("") == "" && TrimRight("") == ""
  {
  }

  lemma TrimLeftStays(s: string)
    requires s != "" && s[0] !in SPACES
    ensures TrimLeft(s) == s
  {
  }

  lemma TrimRightStays(s: string)
    requires s != "" && s[|s| - 1] !in SPACES
    ensures TrimRight(s) == s
  {
  }

  lemma {:induction false} TrimLeftSpace(before: string, s: string)
    requires AllSpace(before)
    ensures TrimLeft(before + s) == TrimLeft(s)
  {
    hide IsSpace;
    if before == "" {
      EmptyIsUnit(s);
    } else {
      SpaceMeans(before[0]);
      TrimLeftSpace(before[1..], s);
      assert (before + s)[1..] == before[1..] + s;
    }
  }

  lemma {:induction false} TrimRightSpace(s: string, behind: string)
    requires AllSpace(behind)
    ensures TrimRight(s + behind) == TrimRight(s)
    decreases |behind|
  {
    hide IsSpace;
    if behind == "" {
      assert s + behind == s;
    } else {
      var n := |behind| - 1;
      SpaceMeans(behind[n]);
      TrimRightSpace(s, behind[..n]);
      assert (s + behind)[..|s + behind| - 1] == s + behind[..n];
    }
  }

  /**
    A line without the space around it. A comment begins with #; a group is what stands between brackets; any
    other line with an equals sign assigns what the text behind the first one spells, if it spells anything;
    all other lines say nothing.
   */
  lemma TrimmedMeans(t: string, line: string)
    requires Trim(line) == t
    ensures t != "" && t[0] == '#' ==> ParseLine(line) == Nothing
    ensures forall path :: t == "[" + path + "]" ==> ParseLine(line) == Group(path)
    ensures '=' !in t && !IsGroup(t) ==> ParseLine(line) == Nothing
  {
    if IsGroup(t) {
      assert t == "[" + t[1..|t| - 1] + "]";
    }
    forall path | t == "[" + path + "]" ensures ParseLine(line) == Group(path) {
      assert t[0] == '[' && t[|t| - 1] == ']' && t[1..|t| - 1] == path;
    }
  }

  predicate IsGroup(t: string) {
    |t| >= 2 && t[0] == '[' && t[|t| - 1] == ']'
  }

  /** Space around it changes nothing of what a line says. */
  lemma LineMeans(before: string, t: string, behind: string)
    requires AllSpace(before) && AllSpace(behind) && NoSpaceAround(t)
    ensures var line := before + t + behind;
            && (t != "" && t[0] == '#' ==> ParseLine(line) == Nothing)
            && (forall path :: t == "[" + path + "]" ==> ParseLine(line) == Group(path))
            && ('=' !in t && !IsGroup(t) ==> ParseLine(line) == Nothing)
  {
    hide Trim, ParseTrimmed;
    TrimOf(before, t, behind);
    TrimmedMeans(t, before + t + behind);
  }

  /** An assignment: the name is what stands before the first equals sign. */
  lemma AssignmentMeans(before: string, name: string, text: string, behind: string, v: string)
    requires AllSpace(before) && AllSpace(behind) && NoSpaceAround(name + "=" + text)
    requires '=' !in name && !(name != "" && name[0] == '#') && !IsGroup(name + "=" + text)
    ensures var line := before + (name + "=" + text) + behind;
            && (ParseLine(line) == Assign(name, v) <==> ValueSpelled(text, v))
            && (ParseLine(line) == Nothing <==> forall w :: !ValueSpelled(text, w))
            && !ParseLine(line).Group? && (ParseLine(line).Assign? ==> ParseLine(line).name == name)
  {
    hide Trim, ValueSpelled, Read, Find;
    var t := name + "=" + text;
    TrimOf(before, t, behind);
    FindEquals(name, text);
    forall w ensures Read(text) == Some(w) <==> ValueSpelled(text, w) {
      ReadExactly(text, w);
    }
    assert t[0] == if name == "" then '=' else name[0];
    if Read(text).Some? {
      assert ValueSpelled(text, Read(text).value);
    }
  }

  /** An escaped quote in a value without quotes: the line changes nothing. */
  lemma EscapedQuoteIsSkipped(st: State)
    ensures ParseLine("a=x\\\"y\n") == Nothing && StepLine(st, ParseLine("a=x\\\"y\n")) == st
  {
    hide ValueSpelled;
    var text := "x\\\"y";
    forall w ensures !ValueSpelled(text, w) {
      NotSpelled(w);
    }
    assert !IsSpace('a') && !IsSpace('y') && IsSpace('\n');
    AssignmentMeans("", "a", text, "\n", "");
    assert "" + ("a" + "=" + text) + "\n" == "a=x\\\"y\n";
  }

  lemma NotSpelled(w: string)
    ensures !ValueSpelled("x\\\"y", w)
  {
    var text := "x\\\"y";
    UnescapeExactly(text, w, false);
    assert text[1..] == "\\\"y" && Unescape("\\\"y", false) == None;
  }

  /** In quotes the same text is read, as x"y. */
  lemma EscapedQuoteInQuotes()
    ensures ParseLine("a=\"x\\\"y\"\n") == Assign("a", "x\"y")
  {
    var text := "\"x\\\"y\"";
    assert text[1..|text| - 1] == "x\\\"y";
    QuoteSpelled();
    assert !IsSpace('a') && !IsSpace('\"') && IsSpace('\n');
    AssignmentMeans("", "a", text, "\n", "x\"y");
    assert "" + ("a" + "=" + text) + "\n" == "a=\"x\\\"y\"\n";
  }

  lemma QuoteSpelled()
    ensures Spelled("x\\\"y", "x\"y", true)
  {
    var units := ["x", "\\\"", "y"];
    assert units[1..] == ["\\\"", "y"] && units[1..][1..] == ["y"] && units[1..][1..][1..] == [];
    assert Concat(units) == "x" + ("\\\"" + ("y" + "")) == "x\\\"y";
    assert Spells(units, "x\"y", true);
  }

  // A file

  /** A line that may stand in a file: it ends in the newline, which the last one may lack. */
  predicate IsLine(l: string, last: bool) {
    l != "" && '\n' !in l[..|l| - 1] && (!last ==> l[|l| - 1] == '\n')
  }

  predicate AreLines(lines: seq<string>) {
    forall i | 0 <= i < |lines| :: IsLine(lines[i], i == |lines| - 1)
  }

  /** The lines are the file cut behind every newline. */
  lemma {:induction false} LinesMean(content: string)
    ensures Concat(Lines(content)) == content && AreLines(Lines(content))
    decreases |content|
  {
    hide AreLines, IsLine, Lines, GetLine;
    if content == "" {
      NoLinesAre();
    } else {
      var line := GetLine(content);
      var rest := content[|line|..];
      NextLine(content);
      LineIsCut(content);
      LinesMean(rest);
      if rest == "" {
        NoLinesAre();
      }
      FirstLine(line, Lines(rest));
      assert content == line + rest;
    }
  }

  /** Up to and with the first newline, or to the end of the file. */
  lemma LineIsCut(content: string)
    requires content != ""
    ensures var line := GetLine(content); IsLine(line, true) && (|line| < |content| ==> IsLine(line, false))
  {
    var line, n := GetLine(content), Find(content, '\n');
    if n < |content| {
      assert line[..n] == content[..n] && line[n] == '\n';
    }
  }

  lemma NoLinesAre()
    ensures Lines("") == [] && AreLines([])
  {
  }

  lemma FirstLine(line: string, lines: seq<string>)
    requires AreLines(lines) && IsLine(line, true) && (lines != [] ==> IsLine(line, false))
    ensures AreLines([line] + lines) && Concat([line] + lines) == line + Concat(lines)
  {
    hide IsLine;
    ConcatCons(line, lines);
    var r := [line] + lines;
    forall i | 0 <= i < |r| ensures IsLine(r[i], i == |r| - 1) {
      if i > 0 {
        assert r[i] == lines[i - 1];
      }
    }
  }

  lemma {:induction false} SlashedConcat(a: Path, b: Path)
    ensures Slashed(a + b) == Slashed(a) + Slashed(b)
  {
    if a == [] {
      assert a + b == b;
    } else {
      SlashedConcat(a[1..], b);
      assert (a + b)[1..] == a[1..] + b;
      ConcatAssociates("/" + a[0], Slashed(a[1..]), Slashed(b));
    }
  }

  /**
    Below a group line an assignment sets the value at the group's path followed by the name's own, and
    nothing else.
   */
  lemma GroupedMeans(st: State, group: Path, name: Path, v: string, q: Path)
    requires NoSlash(group) && group != [] && group[0] != "" && NoSlash(name) && name != []
    ensures var r := StepLine(StepLine(st, Group(Joined(group))), Assign(Joined(name), v));
            && r.group == Some(Joined(group))
            && ValueAt(r.config, q) == if q == group + name then Some(v) else ValueAt(st.config, q)
  {
    hide ConfigTree.Set, ValueAt, Segments, Slashed;
    SlashedConcat(group[1..], name);
    assert (group + name)[1..] == group[1..] + name;
    SlashedName(name);
    assert Joined(group) + "/" + Joined(name) == Joined(group + name);
    SegmentsOfJoined(group + name);
    SetThenGet(st.config, group + name, v, q);
  }

  lemma SlashedName(name: Path)
    requires name != []
    ensures Slashed(name) == "/" + Joined(name)
  {
  }

  /** Above all group lines it is the name's own path. */
  lemma UngroupedMeans(t: Tree, name: Path, v: string, q: Path)
    requires NoSlash(name) && name != [] && name[0] != ""
    ensures var r := StepLine(State(None, t), Assign(Joined(name), v));
            r.group == None && ValueAt(r.config, q) == if q == name then Some(v) else ValueAt(t, q)
  {
    hide ConfigTree.Set, ValueAt, Segments, Slashed;
    SegmentsOfJoined(name);
    SetThenGet(t, name, v, q);
  }

  // Printing

  lemma {:induction false} HasSubValueMeans(items: seq<Item>)
    ensures HasSubValue(items) <==> exists i :: 0 <= i < |items| && items[i].config.value.Some?
  {
    if items == [] {
    } else {
      HasSubValueMeans(items[1..]);
      assert items == [items[0]] + items[1..];
    }
  }

  lemma LeafSections(t: Tree, path: string, p: Printer)
    requires t.subitems == []
    ensures Sections(t, path, p) == []
  {
  }

  lemma ItemsCons(item: Item, items: seq<Item>, path: string, p: Printer)
    ensures Options([item] + items, p) == OptionOf(item, p) + Options(items, p)
    ensures SubSections([item] + items, path, p)
            == Sections(item.config, Extended(path, item.name), p) + SubSections(items, path, p)
    ensures HasSubValue([item] + items) <==> item.config.value.Some? || HasSubValue(items)
  {
    assert ([item] + items)[1..] == items;
  }

  /** A node with one sub-item. */
  lemma OneItemSections(t: Tree, item: Item, path: string, p: Printer)
    requires t.subitems == [item]
    ensures Sections(t, path, p)
            == (if item.config.value.Some? && path != "" then [GroupLine(path)] else []) + OptionOf(item, p)
               + Sections(item.config, Extended(path, item.name), p)
  {
    hide OptionOf, GroupLine, Extended;
    ItemsCons(item, [], path, p);
    assert [item] + [] == [item];
    var option, below := OptionOf(item, p), Sections(item.config, Extended(path, item.name), p);
    assert Options([item], p) == option + [] == option;
    assert SubSections([item], path, p) == below + [] == below;
    assert Sections(t, path, p) == Own(t, path, p) + below;
    assert Own(t, path, p) == Header(t, path) + option;
  }

  lemma OptionLines(name: string, config: Tree, p: Printer)
    requires config.value.Some?
    ensures config.comment.None? ==> OptionOf(Item(name, config), p) == [name + "=" + p(config.value.value)]
    ensures config.comment.Some? && '\n' !in config.comment.value ==>
              OptionOf(Item(name, config), p) == ["# " + config.comment.value, name + "=" + p(config.value.value)]
  {
  }

  /**
    A printed tree: the values of a node first, each under its comment, then its sub-items in order, each
    under its full path; no group line for a node without values of its own, and none at the top.
   */
  lemma PrintedTree(p: Printer)
    ensures var c := Item("c", Tree(Some("3"), None, []));
            var h := Item("h", Tree(None, None, [c]));
            var b := Item("b", Tree(Some("2"), None, [h]));
            var g := Item("g", Tree(None, Some("unused"), [b]));
            var a := Item("a", Tree(Some("1"), Some("note"), []));
            Sections(Tree(None, None, [g, a]), "", p)
            == ["# note", "a=" + p("1"), "[g]", "b=" + p("2"), "[g/b/h]", "c=" + p("3")]
  {
    hide Sections, OptionOf;
    var c := Item("c", Tree(Some("3"), None, []));
    var h := Item("h", Tree(None, None, [c]));
    var b := Item("b", Tree(Some("2"), None, [h]));
    var g := Item("g", Tree(None, Some("unused"), [b]));
    var a := Item("a", Tree(Some("1"), Some("note"), []));
    PrintedBelow(p);
    LeafSections(a.config, "a", p);
    TwoItemSections(g, a, p);
    OptionLines("a", a.config, p);
    assert "# " + "note" == "# note" && "a" + "=" + p("1") == "a=" + p("1");
    assert OptionOf(g, p) == [] by { NoOption(g, p); }
  }

  lemma NoOption(item: Item, p: Printer)
    requires item.config.value.None?
    ensures OptionOf(item, p) == []
  {
  }

  lemma PrintedBelow(p: Printer)
    ensures var c := Item("c", Tree(Some("3"), None, []));
            var h := Item("h", Tree(None, None, [c]));
            var b := Item("b", Tree(Some("2"), None, [h]));
            Sections(Tree(None, Some("unused"), [b]), "g", p) == ["[g]", "b=" + p("2"), "[g/b/h]", "c=" + p("3")]
  {
    hide Sections, OptionOf;
    var c := Item("c", Tree(Some("3"), None, []));
    var h := Item("h", Tree(None, None, [c]));
    var b := Item("b", Tree(Some("2"), None, [h]));
    assert Extended("g", "b") == "g/b" && Extended("g/b", "h") == "g/b/h" && Extended("g/b/h", "c") == "g/b/h/c";
    assert GroupLine("g/b/h") == "[g/b/h]" && GroupLine("g") == "[g]";
    LeafSections(c.config, "g/b/h/c", p);
    OneItemSections(h.config, c, "g/b/h", p);
    OneItemSections(b.config, h, "g/b", p);
    OneItemSections(Tree(None, Some("unused"), [b]), b, "g", p);
    OptionLines("c", c.config, p);
    OptionLines("b", b.config, p);
    assert "c" + "=" + p("3") == "c=" + p("3") && "b" + "=" + p("2") == "b=" + p("2");
    NoOption(h, p);
    assert Sections(h.config, "g/b/h", p) == ["[g/b/h]", "c=" + p("3")];
  }

  lemma TwoItemSections(g: Item, a: Item, p: Printer)
    ensures Sections(Tree(None, None, [g, a]), "", p)
            == OptionOf(g, p) + OptionOf(a, p) + Sections(g.config, g.name, p) + Sections(a.config, a.name, p)
  {
    hide OptionOf, Sections, Options, SubSections;
    var t := Tree(None, None, [g, a]);
    ItemsCons(a, [], "", p);
    ItemsCons(g, [a], "", p);
    assert [g] + [a] == [g, a] && [a] + [] == [a];
    NoItems(p);
    TopSections(t, p);
  }

  lemma NoItems(p: Printer)
    ensures Options([], p) == [] && SubSections([], "", p) == []
  {
  }

  lemma TopSections(t: Tree, p: Printer)
    ensures Sections(t, "", p) == Options(t.subitems, p) + SubSections(t.subitems, "", p)
  {
    hide SubSections, Options;
    EmptyIsUnit(Options(t.subitems, p));
  }
}

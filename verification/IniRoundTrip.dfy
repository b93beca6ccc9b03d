/** A configuration tree printed and parsed into an empty one: the same values at the same paths. */
module IniRoundTrip {
  import opened ConfigTree
  import opened Configuration
  import opened Escape
  import opened IniLine
  import opened IniParser
  import opened IniValue
  import opened Wrappers

  predicate DistinctNames(items: seq<Item>) {
    forall i, j | 0 <= i < j < |items| :: items[i].name != items[j].name
  }

  /** A name that can be part of a path and of a line. */
  predicate NameOk(name: string) {
    '/' !in name && '\n' !in name
  }

  predicate ItemOk(item: Item) {
    && NameOk(item.name)
    && (item.config.value.Some? ==> OptionSurvives(item.name, item.config.value.value))
    && WellFormed(item.config)
  }

  /**
    Names without slash or newline, distinct among siblings and not empty in the first place, and
    options that survive their line.
   */
  predicate WellFormed(t: Tree)
    decreases t
  {
    && FirstNamed(t.subitems) && DistinctNames(t.subitems)
    && forall i {:trigger t.subitems[i]} | 0 <= i < |t.subitems| ::
         var item := t.subitems[i];
         && NameOk(item.name)
         && (item.config.value.Some? ==> OptionSurvives(item.name, item.config.value.value))
         && WellFormed(item.config)
  }

  predicate ItemsOk(items: seq<Item>) {
    DistinctNames(items) && forall i | 0 <= i < |items| :: ItemOk(items[i])
  }

  /** The top level names are not empty either. */
  predicate WellFormedRoot(t: Tree) {
    WellFormed(t) && forall i | 0 <= i < |t.subitems| :: t.subitems[i].name != ""
  }

  /** A path the printer can be at. */
  predicate PathOk(segs: Path) {
    && (segs != [] ==> segs[0] != "")
    && forall i | 0 <= i < |segs| :: NameOk(segs[i])
  }

  lemma ItemsOfTree(t: Tree)
    ensures WellFormed(t) <==> FirstNamed(t.subitems) && ItemsOk(t.subitems)
  {
  }

  lemma {:induction false} WellFormedPrintable(t: Tree)
    requires WellFormed(t)
    ensures Printable(t)
    decreases t
  {
    forall i | 0 <= i < |t.subitems| ensures Printable(t.subitems[i].config) {
      WellFormedPrintable(t.subitems[i].config);
    }
  }

  lemma ItemsTail(items: seq<Item>)
    requires ItemsOk(items) && items != []
    ensures ItemOk(items[0]) && ItemsOk(items[1..])
    ensures IndexOf(items[1..], items[0].name) == |items| - 1
  {
    IndexIs(items[1..], items[0].name, |items| - 1);
  }

  // The value a path has after a part of the print has been parsed.

  /** The option lines of `items` in section `segs`. */
  function OverOptions(base: Tree, items: seq<Item>, segs: Path, q: Path): Option<string> {
    if |q| != |segs| + 1 || q[..|segs|] != segs then ValueAt(base, q)
    else
      var k := IndexOf(items, q[|segs|]);
      if k < |items| && items[k].config.value.Some? then items[k].config.value else ValueAt(base, q)
  }

  /** The sections of the sub-items of `items`. */
  function OverSubItems(base: Tree, items: seq<Item>, segs: Path, q: Path): Option<string> {
    if |q| < |segs| + 2 || q[..|segs|] != segs then ValueAt(base, q)
    else
      var k := IndexOf(items, q[|segs|]);
      if k < |items| && ValueAt(items[k].config, q[|segs| + 1..]).Some?
      then ValueAt(items[k].config, q[|segs| + 1..]) else ValueAt(base, q)
  }

  /** Everything below the node at `segs`. */
  function Over(base: Tree, t: Tree, segs: Path, q: Path): Option<string> {
    if |q| <= |segs| || q[..|segs|] != segs || ValueAt(t, q[|segs|..]).None? then ValueAt(base, q)
    else ValueAt(t, q[|segs|..])
  }

  lemma {:induction false} ParseLinesConcat(st: State, a: seq<string>, b: seq<string>)
    ensures ParseLines(st, a + b) == ParseLines(ParseLines(st, a), b)
    decreases |a|
  {
    if a == [] {
      assert a + b == b;
    } else {
      assert (a + b)[1..] == a[1..] + b;
      ParseLinesConcat(StepLine(st, ParseLine(a[0])), a[1..], b);
    }
  }

  function ParseText(st: State, lines: seq<string>): State {
    ParseLines(st, Ended(lines))
  }

  lemma ParseTextConcat(st: State, a: seq<string>, b: seq<string>)
    ensures ParseText(st, a + b) == ParseText(ParseText(st, a), b)
  {
    EndedConcat(a, b);
    ParseLinesConcat(st, Ended(a), Ended(b));
  }

  lemma ParseTextOne(st: State, l: string)
    ensures ParseText(st, [l]) == StepLine(st, ParseLine(l + "\n"))
  {
    assert [l][1..] == [] && Ended([l]) == [l + "\n"] + Ended([]);
    var x := l + "\n";
    assert Ended([l]) == [x] && [x][1..] == [];
    assert ParseLines(st, [x]) == ParseLines(StepLine(st, ParseLine(x)), [x][1..]);
  }

  /** In which section the parser is when the printer is at `segs`. */
  predicate InSection(st: State, segs: Path) {
    st.group == if segs == [] then None else Some(ConfigTree.Joined(segs))
  }

  lemma TargetIs(st: State, segs: Path, name: string)
    requires InSection(st, segs) && PathOk(segs) && NameOk(name) && (segs == [] ==> name != "")
    ensures Segments(Target(st.group, name)) == segs + [name]
  {
    JoinedAppend(segs, name);
    SegmentsOfJoined(segs + [name]);
    if segs != [] {
      assert ConfigTree.Joined(segs) != "" by { assert segs[0] != ""; }
    }
  }

  /** One option, with its comment: its value is set and nothing else changes. */
  lemma OptionParsed(st: State, item: Item, segs: Path, q: Path)
    requires InSection(st, segs) && PathOk(segs) && ItemOk(item) && (segs == [] ==> item.name != "")
    ensures var st' := ParseText(st, OptionOf(item, Printed));
            && st'.group == st.group
            && ValueAt(st'.config, q) == if q == segs + [item.name] && item.config.value.Some? then item.config.value
                                         else ValueAt(st.config, q)
  {
    hide ParseLine, Segments, Target, OptionSurvives, WellFormed, OptionLine, CommentLine, ValueAt, Set;
    var t := item.config;
    if t.value.Some? {
      var o := OptionLine(item.name, Printed(t.value.value));
      OptionRoundTrip(item.name, t.value.value);
      TargetIs(st, segs, item.name);
      SetThenGet(st.config, segs + [item.name], t.value.value, q);
      ParseTextOne(st, o);
      if t.comment.Some? && '\n' !in t.comment.value {
        var c := CommentLine(t.comment.value);
        CommentIsSkipped(t.comment.value);
        ParseTextOne(st, c);
        ParseTextConcat(st, [c], [o]);
      } else {
        assert OptionOf(item, Printed) == [o];
      }
    }
  }

  lemma {:induction false} OptionsParsed(st: State, items: seq<Item>, segs: Path, q: Path)
    requires InSection(st, segs) && PathOk(segs) && ItemsOk(items)
    requires segs == [] ==> forall i | 0 <= i < |items| :: items[i].name != ""
    ensures var st' := ParseText(st, Options(items, Printed));
            st'.group == st.group && ValueAt(st'.config, q) == OverOptions(st.config, items, segs, q)
    decreases |items|
  {
    hide OptionOf, ItemOk;
    if items == [] {
    } else {
      ItemsTail(items);
      var st1 := ParseText(st, OptionOf(items[0], Printed));
      OptionParsed(st, items[0], segs, q);
      OptionsParsed(st1, items[1..], segs, q);
      ParseTextConcat(st, OptionOf(items[0], Printed), Options(items[1..], Printed));
      OverOptionsStep(st.config, st1.config, items, segs, q);
    }
  }

  lemma OverOptionsStep(base: Tree, base1: Tree, items: seq<Item>, segs: Path, q: Path)
    requires items != [] && IndexOf(items[1..], items[0].name) == |items| - 1
    requires ValueAt(base1, q)
             == if q == segs + [items[0].name] && items[0].config.value.Some? then items[0].config.value
                else ValueAt(base, q)
    ensures OverOptions(base1, items[1..], segs, q) == OverOptions(base, items, segs, q)
  {
    if |q| == |segs| + 1 && q[..|segs|] == segs {
      assert q == segs + [q[|segs|]];
    }
  }

  lemma {:induction false} SectionsParsed(st: State, t: Tree, segs: Path, q: Path)
    requires WellFormed(t) && PathOk(segs)
    requires segs == [] ==> WellFormedRoot(t) && st.group == None
    ensures ValueAt(ParseText(st, Sections(t, ConfigTree.Joined(segs), Printed)).config, q)
            == Over(st.config, t, segs, q)
    decreases t
  {
    hide WellFormed, OverOptions, OverSubItems, Over;
    var path := ConfigTree.Joined(segs);
    ItemsOfTree(t);
    var st2 := ParseText(st, Own(t, path, Printed));
    OwnParsed(st, t, segs, q);
    SubItemsParsed(st2, t, t.subitems, segs, q);
    ParseTextConcat(st, Own(t, path, Printed), SubSections(t.subitems, path, Printed));
    OverBoth(st.config, st2.config, t, segs, q);
  }

  lemma OwnParsed(st: State, t: Tree, segs: Path, q: Path)
    requires ItemsOk(t.subitems) && PathOk(segs)
    requires segs == [] ==> st.group == None && forall i | 0 <= i < |t.subitems| :: t.subitems[i].name != ""
    ensures var st2 := ParseText(st, Own(t, ConfigTree.Joined(segs), Printed));
            ValueAt(st2.config, q) == OverOptions(st.config, t.subitems, segs, q)
  {
    hide ItemsOk, OverOptions, ParseLine, GroupLine, Options;
    var path := ConfigTree.Joined(segs);
    if HasSubValue(t.subitems) {
      var st1 := ParseText(st, Header(t, path));
      if segs != [] {
        GroupIsRead(path);
        ParseTextOne(st, GroupLine(path));
      }
      assert InSection(st1, segs) && st1.config == st.config;
      OptionsParsed(st1, t.subitems, segs, q);
      ParseTextConcat(st, Header(t, path), Options(t.subitems, Printed));
    } else {
      NoOptions(t.subitems, Printed);
      NoValues(st.config, t.subitems, segs, q);
      assert Own(t, path, Printed) == [];
    }
  }

  lemma {:induction false} NoValues(base: Tree, items: seq<Item>, segs: Path, q: Path)
    requires !HasSubValue(items)
    ensures OverOptions(base, items, segs, q) == ValueAt(base, q)
  {
    if items == [] {
    } else {
      NoValues(base, items[1..], segs, q);
    }
  }

  lemma {:induction false} SubItemsParsed(st: State, t: Tree, items: seq<Item>, segs: Path, q: Path)
    requires ItemsOk(items) && PathOk(segs)
    requires segs == [] ==> forall i | 0 <= i < |items| :: items[i].name != ""
    requires forall i | 0 <= i < |items| :: items[i] in t.subitems
    ensures ValueAt(ParseText(st, SubSections(items, ConfigTree.Joined(segs), Printed)).config, q)
            == OverSubItems(st.config, items, segs, q)
    decreases t, |items|
  {
    hide ItemOk, Sections, Over;
    if items == [] {
    } else {
      var item := items[0];
      var path, segs1 := ConfigTree.Joined(segs), segs + [item.name];
      ItemsTail(items);
      JoinedAppend(segs, item.name);
      assert item in t.subitems && WellFormed(item.config) && NameOk(item.name) by { ItemFacts(item); }
      assert PathOk(segs1);
      var st1 := ParseText(st, Sections(item.config, ConfigTree.Joined(segs1), Printed));
      SectionsParsed(st, item.config, segs1, q);
      SubItemsParsed(st1, t, items[1..], segs, q);
      ParseTextConcat(st, Sections(item.config, Extended(path, item.name), Printed),
                      SubSections(items[1..], path, Printed));
      OverSubItemsStep(st.config, st1.config, items, segs, q);
    }
  }

  lemma ItemFacts(item: Item)
    requires ItemOk(item)
    ensures WellFormed(item.config) && NameOk(item.name)
  {
  }

  lemma OverSubItemsStep(base: Tree, base1: Tree, items: seq<Item>, segs: Path, q: Path)
    requires items != [] && IndexOf(items[1..], items[0].name) == |items| - 1
    requires ValueAt(base1, q) == Over(base, items[0].config, segs + [items[0].name], q)
    ensures OverSubItems(base1, items[1..], segs, q) == OverSubItems(base, items, segs, q)
  {
    var segs1 := segs + [items[0].name];
    if |q| > |segs| {
      BelowItem(segs, items[0].name, q);
    }
  }

  lemma BelowItem(segs: Path, name: string, q: Path)
    requires |q| > |segs|
    ensures q[..|segs| + 1] == segs + [name] <==> q[..|segs|] == segs && q[|segs|] == name
  {
    assert q[..|segs| + 1] == q[..|segs|] + [q[|segs|]];
  }

  lemma OverBoth(base: Tree, base2: Tree, t: Tree, segs: Path, q: Path)
    requires ValueAt(base2, q) == OverOptions(base, t.subitems, segs, q)
    ensures OverSubItems(base2, t.subitems, segs, q) == Over(base, t, segs, q)
  {
    if |q| > |segs| && q[..|segs|] == segs {
      var rest := q[|segs|..];
      assert rest[0] == q[|segs|] && rest[1..] == q[|segs| + 1..];
      var k := IndexOf(t.subitems, rest[0]);
      assert ValueAt(t, rest) == if k == |t.subitems| then None else ValueAt(t.subitems[k].config, rest[1..]);
      if |q| == |segs| + 1 {
        assert rest[1..] == [];
      }
    }
  }

  /** Parsing the printed text into an empty tree gives, at every path below the root, the value that was there. */
  lemma PrintParse(t: Tree, q: Path)
    requires WellFormedRoot(t) && q != []
    ensures ValueAt(ParseLines(State(None, EMPTY), Lines(TextOf(Sections(t, "", Printed)))).config, q) == ValueAt(t, q)
  {
    SectionsParsed(State(None, EMPTY), t, [], q);
    EmptyHasNothing(q);
    assert q[0..] == q;
    NoNewlines(t, []);
    LinesOfText(Sections(t, "", Printed));
  }

  // The printer as the code has it

  /** Names, comments and values are C strings. */
  predicate CTree(t: Tree)
    decreases t
  {
    forall i {:trigger t.subitems[i]} | 0 <= i < |t.subitems| ::
      var item := t.subitems[i];
      && NUL !in item.name && CTree(item.config)
      && (item.config.value.Some? ==> NUL !in item.config.value.value)
      && (item.config.comment.Some? ==> NUL !in item.config.comment.value)
  }

  /** The code prints every value as it is meant to. */
  predicate AllPrintWell(t: Tree)
    decreases t
  {
    forall i {:trigger t.subitems[i]} | 0 <= i < |t.subitems| ::
      var item := t.subitems[i];
      AllPrintWell(item.config) && (item.config.value.Some? ==> PrintsWell(item.config.value.value))
  }

  /** Two printers that agree on every value of the items print the same options. */
  lemma {:induction false} SameOptions(items: seq<Item>, p: Printer, q: Printer)
    requires forall i | 0 <= i < |items| && items[i].config.value.Some? ::
               p(items[i].config.value.value) == q(items[i].config.value.value)
    ensures Options(items, p) == Options(items, q)
  {
    if items == [] {
    } else {
      SameOptions(items[1..], p, q);
    }
  }

  lemma CodeOptions(t: Tree, heap: Heap)
    requires CTree(t) && AllPrintWell(t) && Terminated(heap)
    ensures Options(t.subitems, AsWritten(heap)) == Options(t.subitems, Printed)
  {
    hide Options, PrintedByCode, Printed, PrintsWell;
    forall i | 0 <= i < |t.subitems| && t.subitems[i].config.value.Some?
      ensures AsWritten(heap)(t.subitems[i].config.value.value) == Printed(t.subitems[i].config.value.value)
    {
      PrintedByCodeIs(t.subitems[i].config.value.value, heap);
    }
    SameOptions(t.subitems, AsWritten(heap), Printed);
  }

  /** The code prints such a tree as it is meant to. */
  lemma {:induction false} CodeSections(t: Tree, path: string, heap: Heap)
    requires CTree(t) && AllPrintWell(t) && Terminated(heap)
    ensures Sections(t, path, AsWritten(heap)) == Sections(t, path, Printed)
    decreases t
  {
    hide Options, AsWritten, Printed, PrintsWell;
    CodeOptions(t, heap);
    CodeSubSections(t, t.subitems, path, heap);
  }

  lemma {:induction false} CodeSubSections(t: Tree, items: seq<Item>, path: string, heap: Heap)
    requires CTree(t) && AllPrintWell(t) && Terminated(heap) && forall i | 0 <= i < |items| :: items[i] in t.subitems
    ensures SubSections(items, path, AsWritten(heap)) == SubSections(items, path, Printed)
    decreases t, |items|
  {
    hide Sections, AsWritten, Printed, PrintsWell;
    if items == [] {
    } else {
      assert items[0] in t.subitems;
      CodeSections(items[0].config, Extended(path, items[0].name), heap);
      CodeSubSections(t, items[1..], path, heap);
    }
  }

  /**
    fcitx_ini_print into a file and fcitx_ini_parse from it into a new configuration, with the code's
    own replacement of special characters.
   */
  method SaveAndLoad(config: Configuration, heap: Heap, ghost t: Tree) returns (copy: Configuration, ghost t': Tree)
    requires config.Valid() && config.Is(t)
    requires WellFormedRoot(t) && CTree(t) && AllPrintWell(t) && Terminated(heap)
    ensures fresh(copy) && copy.Valid() && copy.Is(t')
    ensures forall q: Path | q != [] :: ValueAt(t', q) == ValueAt(t, q)
  {
    hide Configuration.Valid, Configuration.Is;
    WellFormedPrintable(t);
    CodeSections(t, "", heap);
    TextIsCString(t);
    var fp := new Stream();
    Print(config, "", fp, heap, t);
    assert fp.text == TextOf(Sections(t, "", Printed));
    copy := new Configuration("");
    Parse(fp.text, copy, EMPTY);
    t' := ParseLines(State(None, EMPTY), Lines(fp.text)).config;
    forall q: Path | q != [] ensures ValueAt(t', q) == ValueAt(t, q) {
      PrintParse(t, q);
    }
  }

  // The printed text is a C string.

  predicate NoNulIn(lines: seq<string>) {
    forall i | 0 <= i < |lines| :: NUL !in lines[i]
  }

  lemma {:induction false} TextNoNul(lines: seq<string>)
    requires NoNulIn(lines)
    ensures NUL !in TextOf(lines)
  {
    if lines == [] {
    } else {
      TextNoNul(lines[1..]);
    }
  }

  lemma {:induction false} CodeNoNul(v: string, quote: bool)
    requires NUL !in v
    ensures NUL !in CodeAll(v, quote)
  {
    if v == "" {
    } else {
      CodeNoNul(v[1..], quote);
    }
  }

  lemma PrintedNoNul(v: string)
    requires NUL !in v
    ensures NUL !in Printed(v)
  {
    PrintedIs(v);
    CodeNoNul(v, true);
    CodeNoNul(v, false);
  }

  lemma {:induction false} OptionsNoNul(t: Tree, items: seq<Item>)
    requires CTree(t) && forall i | 0 <= i < |items| :: items[i] in t.subitems
    ensures NoNulIn(Options(items, Printed))
    decreases |items|
  {
    hide Printed;
    if items == [] {
    } else {
      assert items[0] in t.subitems;
      if items[0].config.value.Some? {
        PrintedNoNul(items[0].config.value.value);
      }
      OptionsNoNul(t, items[1..]);
    }
  }

  lemma {:induction false} SectionsNoNul(t: Tree, path: string)
    requires CTree(t) && NUL !in path
    ensures NoNulIn(Sections(t, path, Printed))
    decreases t
  {
    hide Printed;
    OptionsNoNul(t, t.subitems);
    SubSectionsNoNul(t, t.subitems, path);
  }

  lemma {:induction false} SubSectionsNoNul(t: Tree, items: seq<Item>, path: string)
    requires CTree(t) && NUL !in path && forall i | 0 <= i < |items| :: items[i] in t.subitems
    ensures NoNulIn(SubSections(items, path, Printed))
    decreases t, |items|
  {
    hide Printed, Sections;
    if items == [] {
    } else {
      assert items[0] in t.subitems;
      SectionsNoNul(items[0].config, Extended(path, items[0].name));
      SubSectionsNoNul(t, items[1..], path);
    }
  }

  lemma TextIsCString(t: Tree)
    requires CTree(t)
    ensures IsCString(TextOf(Sections(t, "", Printed)))
  {
    SectionsNoNul(t, "");
    TextNoNul(Sections(t, "", Printed));
    var text := TextOf(Sections(t, "", Printed));
    assert forall i | 0 <= i < |text| :: text[i] in text;
  }

  // No printed line contains a newline.

  lemma {:induction false} NoNewlines(t: Tree, segs: Path)
    requires WellFormed(t) && PathOk(segs)
    requires segs == [] ==> forall i | 0 <= i < |t.subitems| :: t.subitems[i].name != ""
    ensures OneLineEach(Sections(t, ConfigTree.Joined(segs), Printed))
    decreases t
  {
    ItemsOfTree(t);
    JoinedOneLine(segs);
    OptionsOneLine(t.subitems);
    SubItemsOneLine(t, t.subitems, segs);
  }

  lemma {:induction false} SlashedOneLine(segs: Path)
    requires forall i | 0 <= i < |segs| :: NameOk(segs[i])
    ensures '\n' !in Slashed(segs)
  {
    if segs == [] {
    } else {
      SlashedOneLine(segs[1..]);
    }
  }

  lemma JoinedOneLine(segs: Path)
    requires PathOk(segs)
    ensures '\n' !in ConfigTree.Joined(segs)
  {
    if segs != [] {
      SlashedOneLine(segs[1..]);
    }
  }

  lemma {:induction false} CodeOneLine(v: string, quote: bool)
    ensures '\n' !in CodeAll(v, quote)
  {
    if v == "" {
    } else {
      CodeOneLine(v[1..], quote);
    }
  }

  lemma OptionOneLine(item: Item)
    requires ItemOk(item)
    ensures OneLineEach(OptionOf(item, Printed))
  {
    if item.config.value.Some? {
      var v := item.config.value.value;
      PrintedIs(v);
      CodeOneLine(v, true);
      CodeOneLine(v, false);
    }
  }

  lemma {:induction false} OptionsOneLine(items: seq<Item>)
    requires ItemsOk(items)
    ensures OneLineEach(Options(items, Printed))
  {
    if items == [] {
    } else {
      ItemsTail(items);
      OptionOneLine(items[0]);
      OptionsOneLine(items[1..]);
    }
  }

  lemma {:induction false} SubItemsOneLine(t: Tree, items: seq<Item>, segs: Path)
    requires ItemsOk(items) && PathOk(segs)
    requires segs == [] ==> forall i | 0 <= i < |items| :: items[i].name != ""
    requires forall i | 0 <= i < |items| :: items[i] in t.subitems
    ensures OneLineEach(SubSections(items, ConfigTree.Joined(segs), Printed))
    decreases t, |items|
  {
    if items == [] {
    } else {
      var item := items[0];
      ItemsTail(items);
      JoinedAppend(segs, item.name);
      assert item in t.subitems;
      ItemFacts(item);
      NoNewlines(item.config, segs + [item.name]);
      SubItemsOneLine(t, items[1..], segs);
    }
  }
}

/** iniparser.c: printing a configuration tree into lines and parsing lines into a tree. */
module IniParser {
  import opened ConfigTree
  import opened Configuration
  import opened Escape
  import opened IniLine
  import opened IniValue
  import opened PathBuffer
  import opened Seqs
  import opened Wrappers

  // Printing

  /** How a value is written behind the equals sign. */
  type Printer = string -> string

  /** The printer as the code has it. */
  function AsWritten(heap: Heap): Printer {
    v => PrintedByCode(v, heap)
  }

  /** _fcitx_ini_has_sub_value_callback over the sub-items */
  predicate HasSubValue(items: seq<Item>) {
    items != [] && (items[0].config.value.Some? || HasSubValue(items[1..]))
  }

  /** _fcitx_ini_foreach_option_callback */
  function OptionOf(item: Item, p: Printer): seq<string> {
    var t := item.config;
    if t.value.None? then []
    else (if t.comment.Some? && '\n' !in t.comment.value then [CommentLine(t.comment.value)] else [])
         + [OptionLine(item.name, p(t.value.value))]
  }

  function Options(items: seq<Item>, p: Printer): seq<string> {
    if items == [] then [] else OptionOf(items[0], p) + Options(items[1..], p)
  }

  function Header(t: Tree, path: string): seq<string> {
    if HasSubValue(t.subitems) && path != "" then [GroupLine(path)] else []
  }

  /** A node's section of its own values. */
  function Own(t: Tree, path: string, p: Printer): seq<string> {
    Header(t, path) + Options(t.subitems, p)
  }

  /** The lines of _fcitx_ini_foreach_callback: a section of its own values, then its sub-items. */
  function Sections(t: Tree, path: string, p: Printer): seq<string> {
    Own(t, path, p) + SubSections(t.subitems, path, p)
  }

  function SubSections(items: seq<Item>, path: string, p: Printer): seq<string> {
    if items == [] then []
    else Sections(items[0].config, Extended(path, items[0].name), p) + SubSections(items[1..], path, p)
  }

  // When the path buffers are there

  predicate FirstNamed(items: seq<Item>) {
    items != [] ==> items[0].name != ""
  }

  /** No node's first sub-item has the empty name. */
  predicate Printable(t: Tree)
    decreases t
  {
    FirstNamed(t.subitems) && forall i | 0 <= i < |t.subitems| :: Printable(t.subitems[i].config)
  }

  /** None of the passes of _fcitx_ini_foreach_callback writes to a missing buffer; the first two build no real path. */
  predicate PrintAllowed(t: Tree, path: string)
    decreases t
  {
    && PassAllowed(t.subitems, "", 0)
    && (HasSubValue(t.subitems) ==> PassAllowed(t.subitems, "", 0))
    && PassAllowed(t.subitems, path, 0)
    && forall i | 0 <= i < |t.subitems| :: PrintAllowed(t.subitems[i].config, Extended(path, t.subitems[i].name))
  }

  /** A tree can be printed, at whatever path, exactly when every node names its first sub-item. */
  lemma {:induction false} PrintableExactly(t: Tree, path: string)
    ensures PrintAllowed(t, path) <==> Printable(t)
    decreases t
  {
    hide PassAllowed;
    PassAllowedExactly(t.subitems, "", 0);
    PassAllowedExactly(t.subitems, path, 0);
    forall i | 0 <= i < |t.subitems|
      ensures PrintAllowed(t.subitems[i].config, Extended(path, t.subitems[i].name))
              <==> Printable(t.subitems[i].config)
    {
      PrintableExactly(t.subitems[i].config, Extended(path, t.subitems[i].name));
    }
  }

  /** Setting the path a/ makes a tree that cannot be printed. */
  lemma UnprintableTree(v: string)
    ensures var t := Tree(None, None, [Item("a", Tree(None, None, [Item("", Tree(Some(v), None, []))]))]);
            ConfigTree.Set(EMPTY, Segments("a/"), v) == t && !Printable(t) && !PrintAllowed(t, "")
  {
    var inner := Tree(None, None, [Item("", Tree(Some(v), None, []))]);
    var t := Tree(None, None, [Item("a", inner)]);
    SegmentsOfJoined(["a", ""]);
    assert ["a", ""][1..] == [""] && [""][1..] == [];
    assert ConfigTree.Joined(["a", ""]) == "a" + ("/" + "" + "") == "a/";
    assert ConfigTree.Set(EMPTY, [""], v) == inner;
    assert ConfigTree.Set(EMPTY, ["a", ""], v) == t;
    assert t.subitems[0].config == inner && !FirstNamed(inner.subitems);
    PrintableExactly(t, "");
  }

  lemma PrintableItems(t: Tree)
    requires Printable(t)
    ensures PassAllowed(t.subitems, "", 0) && FirstNamed(t.subitems)
    ensures forall i | 0 <= i < |t.subitems| :: Printable(t.subitems[i].config)
  {
    PassAllowedExactly(t.subitems, "", 0);
  }

  class Stream {
    var text: string

    constructor ()
      ensures text == ""
    {
      text := "";
    }

    /** fprintf of one line */
    method Line(s: string)
      modifies this
      ensures text == old(text) + s + "\n"
    {
      text := text + s + "\n";
    }
  }

  /** The option-printing pass of _fcitx_ini_foreach_callback. */
  method PrintOptions(config: Configuration, fp: Stream, heap: Heap, ghost t: Tree)
    requires config.Valid() && config.Is(t) && FirstNamed(t.subitems)
    modifies fp
    ensures fp.text == old(fp.text) + TextOf(Options(t.subitems, AsWritten(heap)))
  {
    hide Configuration.Valid, Configuration.Is, TextOf, Options, AsWritten;
    ghost var before, items, p := fp.text, t.subitems, AsWritten(heap);
    var buf := new PathBuffer("");
    var i := 0;
    config.SizeIs(t);
    assert items[0..] == items;
    while i < |config.subitems|
      invariant 0 <= i <= |config.subitems| && config.Valid() && config.Is(t)
      invariant buf.Valid() && fresh(buf) && fresh(buf.pathBuf) && buf.path == "" && (i > 0 ==> buf.pathBufLen > 0)
      invariant fp.text + TextOf(Options(items[i..], p)) == before + TextOf(Options(items, p))
    {
      OptionsText(items[i..], p);
      ghost var was, rest := fp.text, TextOf(Options(items[i + 1..], p));
      config.SubItem(t, i);
      var newPathLen := buf.SetKey(config.subitems[i].name);
      PrintOption(config.subitems[i], fp, heap, items[i]);
      assert items[i..][1..] == items[i + 1..];
      ConcatAssociates(was, TextOf(OptionOf(items[i], p)), rest);
      i := i + 1;
    }
    NoOptionsText(fp.text, p);
    assert items[i..] == [];
  }

  lemma NoOptionsText(text: string, p: Printer)
    ensures text + TextOf(Options([], p)) == text
  {
  }

  lemma OptionsText(items: seq<Item>, p: Printer)
    requires items != []
    ensures TextOf(Options(items, p)) == TextOf(OptionOf(items[0], p)) + TextOf(Options(items[1..], p))
  {
    TextConcat(OptionOf(items[0], p), Options(items[1..], p));
  }

  /** _fcitx_ini_foreach_option_callback */
  method PrintOption(config: Configuration, fp: Stream, heap: Heap, ghost item: Item)
    requires config.Valid() && config.Is(item.config) && config.name == item.name
    modifies fp
    ensures fp.text == old(fp.text) + TextOf(OptionOf(item, AsWritten(heap)))
  {
    hide TextOf, OptionOf, OptionLine, CommentLine, HasBlank, Substitute;
    OptionText(item, AsWritten(heap));
    if config.value.Some? {
      var comment, value := config.comment, config.value.value;
      if comment.Some? && '\n' !in comment.value {
        fp.Line(CommentLine(comment.value));
      }
      value := Substituted(value, "\\", "\\\\", heap);
      value := Substituted(value, "\n", "\\n", heap);
      if HasBlank(value) {
        value := Substituted(value, "\"", "\\\"", heap);
        fp.Line(OptionLine(config.name, "\"" + value + "\""));
      } else {
        fp.Line(OptionLine(config.name, value));
      }
    }
  }

  /** One replacement in the value, which stays as it is when null comes back. */
  method Substituted(value: string, before: string, after: string, heap: Heap) returns (r: string)
    ensures r == Substitute(value, before, after, heap)
  {
    var temp := StringReplace.StringReplace(value, heap(value), before, after, true);
    r := if temp.Some? then StringReplace.CText(temp.value) else value;
  }

  lemma OptionText(item: Item, p: Printer)
    ensures var t := item.config;
            TextOf(OptionOf(item, p))
            == if t.value.None? then ""
               else (if t.comment.Some? && '\n' !in t.comment.value then CommentLine(t.comment.value) + "\n" else "")
                    + (OptionLine(item.name, p(t.value.value)) + "\n")
  {
    var t := item.config;
    if t.value.Some? {
      var l := OptionLine(item.name, p(t.value.value));
      assert [l][1..] == [] && TextOf([l]) == l + "\n";
      if t.comment.Some? && '\n' !in t.comment.value {
        var c := CommentLine(t.comment.value);
        assert [c][1..] == [] && TextOf([c]) == c + "\n";
        TextConcat([c], [l]);
      } else {
        assert OptionOf(item, p) == [l];
      }
    }
  }

  /** The text of an option, letter by letter: its comment comes right before it. */
  lemma WrittenText(item: Item, heap: Heap)
    ensures var t := item.config;
            TextOf(OptionOf(item, AsWritten(heap)))
            == if t.value.None? then ""
               else (if t.comment.Some? && '\n' !in t.comment.value then "# " + t.comment.value + "\n" else "")
                    + (item.name + "=" + PrintedByCode(t.value.value, heap) + "\n")
  {
    hide TextOf, OptionOf, PrintedByCode;
    OptionText(item, AsWritten(heap));
  }

  lemma SubSectionsText(items: seq<Item>, path: string, p: Printer)
    requires items != []
    ensures TextOf(SubSections(items, path, p))
            == TextOf(Sections(items[0].config, Extended(path, items[0].name), p))
               + TextOf(SubSections(items[1..], path, p))
  {
    TextConcat(Sections(items[0].config, Extended(path, items[0].name), p), SubSections(items[1..], path, p));
  }

  lemma SectionsText(t: Tree, path: string, p: Printer)
    ensures TextOf(Sections(t, path, p)) == TextOf(Own(t, path, p)) + TextOf(SubSections(t.subitems, path, p))
  {
    TextConcat(Own(t, path, p), SubSections(t.subitems, path, p));
  }

  lemma OwnText(t: Tree, path: string, p: Printer)
    ensures TextOf(Own(t, path, p))
            == (if HasSubValue(t.subitems) && path != "" then GroupLine(path) + "\n" else "")
               + TextOf(Options(t.subitems, p))
  {
    TextConcat(Header(t, path), Options(t.subitems, p));
    assert [GroupLine(path)][1..] == [] && TextOf([GroupLine(path)]) == GroupLine(path) + "\n" + "";
  }

  lemma {:induction false} NoOptions(items: seq<Item>, p: Printer)
    requires !HasSubValue(items)
    ensures Options(items, p) == []
  {
    if items == [] {
    } else {
      NoOptions(items[1..], p);
    }
  }

  /** The pass of _fcitx_ini_foreach_callback that looks for a value among the sub-items. */
  method FindSubValue(config: Configuration, ghost t: Tree) returns (has: bool)
    requires config.Valid() && config.Is(t) && FirstNamed(t.subitems)
    ensures has == HasSubValue(t.subitems)
  {
    has := false;
    var buf := new PathBuffer("");
    var i := 0;
    assert t.subitems[0..] == t.subitems;
    while i < |config.subitems|
      invariant 0 <= i <= |config.subitems|
      invariant buf.Valid() && fresh(buf) && fresh(buf.pathBuf) && buf.path == "" && (i > 0 ==> buf.pathBufLen > 0)
      invariant has || HasSubValue(t.subitems[i..]) <==> HasSubValue(t.subitems)
    {
      assert t.subitems[i..][1..] == t.subitems[i + 1..];
      var newPathLen := buf.SetKey(config.subitems[i].name);
      if config.subitems[i].value.Some? {
        has := true;
      }
      i := i + 1;
    }
  }

  /** The section of a node's own values. */
  method PrintOwn(config: Configuration, path: string, fp: Stream, heap: Heap, ghost t: Tree)
    requires config.Valid() && config.Is(t) && FirstNamed(t.subitems)
    modifies fp
    ensures fp.text == old(fp.text) + TextOf(Own(t, path, AsWritten(heap)))
  {
    hide HasSubValue, Options, TextOf, Configuration.Valid, Configuration.Is, AsWritten;
    ghost var p := AsWritten(heap);
    OwnText(t, path, p);
    var has := FindSubValue(config, t);
    if has {
      if path != "" {
        fp.Line(GroupLine(path));
      }
      PrintOptions(config, fp, heap, t);
    } else {
      NoOptions(t.subitems, p);
      assert Own(t, path, p) == [];
      assert TextOf([]) == "" by { NoText(); }
    }
  }

  lemma NoText()
    ensures TextOf([]) == ""
  {
  }

  /** _fcitx_ini_foreach_callback, for every tree that can be printed; the printer is the code's own. */
  method Print(config: Configuration, path: string, fp: Stream, heap: Heap, ghost t: Tree)
    requires config.Valid() && config.Is(t) && Printable(t)
    modifies fp
    ensures fp.text == old(fp.text) + TextOf(Sections(t, path, AsWritten(heap)))
    decreases t, 1
  {
    hide TextOf, Sections, SubSections, Own, Printable, PassAllowed, Configuration.Valid, Configuration.Is, AsWritten;
    ghost var p := AsWritten(heap);
    PrintableItems(t);
    SectionsText(t, path, p);
    ConcatAssociates(fp.text, TextOf(Own(t, path, p)), TextOf(SubSections(t.subitems, path, p)));
    PrintOwn(config, path, fp, heap, t);
    PrintSubItems(config, path, fp, heap, t);
  }

  /** The recursion over the sub-items, each with its path in the buffer. */
  method PrintSubItems(config: Configuration, path: string, fp: Stream, heap: Heap, ghost t: Tree)
    requires config.Valid() && config.Is(t) && FirstNamed(t.subitems)
    requires forall i | 0 <= i < |t.subitems| :: Printable(t.subitems[i].config)
    modifies fp
    ensures fp.text == old(fp.text) + TextOf(SubSections(t.subitems, path, AsWritten(heap)))
    decreases t, 0
  {
    hide TextOf, Sections, Extended, Printable, Configuration.Valid, Configuration.Is, AsWritten;
    ghost var p := AsWritten(heap);
    var buf := new PathBuffer(path);
    var i := 0;
    config.SizeIs(t);
    assert t.subitems[0..] == t.subitems;
    ghost var whole := fp.text + TextOf(SubSections(t.subitems, path, p));
    while i < |config.subitems|
      invariant 0 <= i <= |config.subitems| && config.Valid() && config.Is(t)
      invariant buf.Valid() && fresh(buf) && fresh(buf.pathBuf) && buf.path == path
      invariant path == "" && i > 0 ==> buf.pathBufLen > 0
      invariant fp.text + TextOf(SubSections(t.subitems[i..], path, p)) == whole
    {
      ghost var item := t.subitems[i];
      ghost var was := fp.text;
      SubSectionsText(t.subitems[i..], path, p);
      config.SubItem(t, i);
      var newPathLen := buf.SetKey(config.subitems[i].name);
      Print(config.subitems[i], buf.pathBuf[..newPathLen], fp, heap, item.config);
      assert t.subitems[i..][1..] == t.subitems[i + 1..];
      ConcatAssociates(was, TextOf(Sections(item.config, Extended(path, item.name), p)),
                       TextOf(SubSections(t.subitems[i + 1..], path, p)));
      i := i + 1;
    }
    assert TextOf(SubSections([], path, p)) == "" by { NoText(); }
  }

  // Parsing

  datatype State = State(group: Option<string>, config: Tree)

  /** The path an assignment goes to. */
  function Target(group: Option<string>, name: string): string {
    if group.Some? then group.value + "/" + name else name
  }

  function StepLine(st: State, line: Line): State {
    match line
    case Nothing => st
    case Group(path) => st.(group := Some(path))
    case Assign(name, value) => st.(config := Set(st.config, Segments(Target(st.group, name)), value))
  }

  function ParseLines(st: State, lines: seq<string>): State
    decreases |lines|
  {
    if lines == [] then st else ParseLines(StepLine(st, ParseLine(lines[0])), lines[1..])
  }

  /** The buffer holds `s` from `i` on and its terminator. */
  ghost predicate Holds(a: array<char>, s: string, i: nat)
    reads a
  {
    |s| < a.Length && i <= |s| && NUL !in s && a[|s|] == NUL && forall k | i <= k < |s| :: a[k] == s[k]
  }

  /** The unescaped rest `r` behind what has been written. */
  function Behind(done: string, r: Option<string>): Option<string> {
    if r.None? then None else Some(done + r.value)
  }

  /** The rest of the string, with the backslash that the cursor has just passed. */
  function Pending(escape: bool, rest: string): string {
    if escape then ['\\'] + rest else rest
  }

  lemma TakePlain(done: string, c: char, rest: string, quote: bool)
    requires c != '\\'
    ensures Behind(done, Unescape([c] + rest, quote)) == Behind(done + [c], Unescape(rest, quote))
  {
    assert ([c] + rest)[1..] == rest;
    if Unescape(rest, quote).Some? {
      ConcatAssociates(done, [c], Unescape(rest, quote).value);
    }
  }

  lemma TakeEscaped(done: string, c: char, rest: string, quote: bool)
    ensures Behind(done, Unescape(['\\'] + ([c] + rest), quote))
            == if Escapable(c, quote) then Behind(done + [Meant(c)], Unescape(rest, quote)) else None
  {
    var s := ['\\'] + ([c] + rest);
    assert s[1] == c && s[2..] == rest;
    if Unescape(rest, quote).Some? {
      ConcatAssociates(done, [Meant(c)], Unescape(rest, quote).value);
    }
  }

  /** What each kind of turn at character `i` does to what has been written and what is to come. */
  lemma TurnFacts(done: string, s: string, i: nat, quote: bool)
    requires i < |s|
    ensures s[i] == '\\' ==> Pending(true, s[i + 1..]) == Pending(false, s[i..])
    ensures s[i] != '\\' ==> Behind(done, Unescape(Pending(false, s[i..]), quote))
                             == Behind(done + [s[i]], Unescape(Pending(false, s[i + 1..]), quote))
    ensures Behind(done, Unescape(Pending(true, s[i..]), quote))
            == if Escapable(s[i], quote)
               then Behind(done + [Meant(s[i])], Unescape(Pending(false, s[i + 1..]), quote)) else None
  {
    hide Unescape;
    var c, rest := s[i], s[i + 1..];
    assert s[i..] == [c] + rest;
    TakeEscaped(done, c, rest, quote);
    if c != '\\' {
      TakePlain(done, c, rest, quote);
    }
  }

  lemma EndFacts(done: string, a: array<char>, s: string, i: nat, quote: bool)
    requires Holds(a, s, i) && a[i] == NUL
    ensures i == |s| && !Escapable(NUL, quote)
    ensures Behind(done, Unescape(Pending(false, s[i..]), quote)) == Some(done)
    ensures Behind(done, Unescape(Pending(true, s[i..]), quote)) == None
  {
    assert forall k | 0 <= k < |s| :: s[k] in s;
    assert s[i..] == "" && Pending(true, s[i..]) == "\\";
    assert Unescape("\\", quote) == None;
    assert done + "" == done;
  }

  /** Unescaping shortens a string exactly when there is something to unescape. */
  lemma {:induction false} UnescapeShortens(s: string, quote: bool)
    ensures Unescape(s, quote).Some? ==> |Unescape(s, quote).value| <= |s|
    ensures Unescape(s, quote).Some? ==> (|Unescape(s, quote).value| == |s| <==> '\\' !in s)
    ensures '\\' !in s ==> Unescape(s, quote) == Some(s)
    decreases |s|
  {
    if s == "" {
    } else if s[0] != '\\' {
      UnescapeShortens(s[1..], quote);
      assert s == [s[0]] + s[1..];
    } else if |s| >= 2 {
      UnescapeShortens(s[2..], quote);
    }
  }

  /**
    The second terminator is written at the index behind the unescaped string's own. That is outside
    the string's memory, whose last index is |s|, exactly when there is no backslash in the string.
   */
  lemma WritesBehind(s: string, quote: bool)
    ensures Unescape(s, quote).Some? && |Unescape(s, quote).value| + 1 > |s| <==> '\\' !in s
  {
    UnescapeShortens(s, quote);
  }

  /**
    _unescape_string: two cursors over one buffer. The terminator is copied like any character and a
    second one is written behind it; nothing behind that is touched.
   */
  method UnescapeString(a: array<char>, quote: bool, ghost s: string) returns (ok: bool, n: nat)
    requires Holds(a, s, 0) && ('\\' !in s ==> |s| + 1 < a.Length)
    modifies a
    ensures ok <==> Unescape(s, quote).Some?
    ensures ok ==> n + 1 < a.Length && a[..n] == Unescape(s, quote).value && a[n] == a[n + 1] == NUL
    ensures forall k | (if ok then n + 2 else |s|) <= k < a.Length :: a[k] == old(a[k])
  {
    hide Unescape, Escapable, Meant, Pending, Behind;
    var i: nat, j: nat := 0, 0;
    var escape := false;
    n := 0;
    BeginFacts(s, quote);
    UnescapeShortens(s, quote);
    while true
      invariant Holds(a, s, i) && j <= i && (escape ==> j < i)
      invariant forall k | j <= k < a.Length :: a[k] == old(a[k])
      invariant Behind(a[..j], Unescape(Pending(escape, s[i..]), quote)) == Unescape(s, quote)
      decreases |s| - i
    {
      var c := a[i];
      ghost var done := a[..j];
      if c == NUL {
        EndFacts(done, a, s, i, quote);
        n := j;
      } else {
        TurnFacts(done, s, i, quote);
      }
      if !escape {
        if c == '\\' {
          escape := true;
        } else {
          a[j] := c;
          j := j + 1;
          assert a[..j] == done + [c];
        }
      } else {
        if !Escapable(c, quote) {
          return false, n;
        }
        a[j] := Meant(c);
        j := j + 1;
        assert a[..j] == done + [Meant(c)];
        escape := false;
      }
      if a[i] == NUL {
        break;
      }
      i := i + 1;
    }
    a[j] := NUL;
    return true, n;
  }

  lemma BeginFacts(s: string, quote: bool)
    ensures Behind([], Unescape(Pending(false, s[0..]), quote)) == Unescape(s, quote)
  {
    assert s[0..] == s;
    if Unescape(s, quote).Some? {
      EmptyIsUnit(Unescape(s, quote).value);
    }
  }

  /** The quotes taken off and the rest unescaped, in a buffer of the line's own length. */
  method ReadValue(s: string) returns (r: Option<string>)
    requires IsCString(s)
    ensures r == Read(s)
  {
    hide Unescape;
    var quote := Quoted(s);
    var text := if quote then s[1..|s| - 1] else s;
    var a := new char[|text| + 2];
    forall i | 0 <= i < |text| {
      a[i] := text[i];
    }
    a[|text|] := NUL;
    var ok, n := UnescapeString(a, quote, text);
    r := if ok then Some(a[..n]) else None;
  }

  predicate IsCString(s: string) {
    forall i | 0 <= i < |s| :: s[i] != NUL
  }

  lemma {:induction false} TrimIsCString(s: string)
    requires IsCString(s)
    ensures IsCString(TrimLeft(s)) && IsCString(TrimRight(s))
    decreases |s|
  {
    if s == "" {
    } else {
      TrimIsCString(s[1..]);
      TrimIsCString(s[..|s| - 1]);
    }
  }

  /** The line loop of fcitx_ini_parse, into an existing configuration; `group` is currentGroup. */
  method Parse(content: string, config: Configuration, ghost t: Tree)
    requires IsCString(content) && config.Valid() && config.Is(t)
    modifies config.repr
    ensures config.Valid() && fresh(config.repr - old(config.repr))
    ensures config.Is(ParseLines(State(None, t), Lines(content)).config)
  {
    hide Trim, Read, ConfigTree.Set, Segments, Lines, Configuration.Valid, Configuration.Is;
    var group: Option<string> := None;
    var rest := content;
    ghost var r := t;
    while rest != ""
      invariant IsCString(rest) && config.Valid() && config.Is(r) && fresh(config.repr - old(config.repr))
      invariant ParseLines(State(group, r), Lines(rest)) == ParseLines(State(None, t), Lines(content))
      decreases |rest|
    {
      NextLine(rest);
      var line := GetLine(rest);
      rest := rest[|line|..];
      ghost var before := State(group, r);
      group, r := ParseOne(line, group, config, r);
      assert State(group, r) == StepLine(before, ParseLine(line));
    }
    assert Lines(rest) == [] by { NoLines(); }
  }

  lemma NoLines()
    ensures Lines("") == []
  {
  }

  /** getline */
  function GetLine(rest: string): (line: string)
    requires rest != ""
    ensures 0 < |line| <= |rest| && line == rest[..|line|]
  {
    var n := Find(rest, '\n');
    if n == |rest| then rest else rest[..n + 1]
  }

  lemma NextLine(rest: string)
    requires rest != ""
    ensures Lines(rest) == [GetLine(rest)] + Lines(rest[|GetLine(rest)|..])
  {
    if Find(rest, '\n') == |rest| {
      assert rest[|rest|..] == "";
    }
  }

  /** The body of the line loop. */
  method ParseOne(line: string, group: Option<string>, config: Configuration, ghost t: Tree)
    returns (group': Option<string>, ghost r: Tree)
    requires IsCString(line) && config.Valid() && config.Is(t)
    modifies config.repr
    ensures State(group', r) == StepLine(State(group, t), ParseLine(line))
    ensures config.Valid() && config.Is(r) && fresh(config.repr - old(config.repr))
  {
    hide TrimLeft, TrimRight, Read, ConfigTree.Set, Segments, Find, Configuration.Valid, Configuration.Is;
    TrimIsCString(line);
    TrimIsCString(TrimLeft(line));
    group', r := group, t;
    var s := Trim(line);
    if s != "" && s[0] == '#' {
      return;
    }
    if s != "" && s[0] == '[' && s[|s| - 1] == ']' {
      group' := Some(s[1..|s| - 1]);
    } else {
      var e := Find(s, '=');
      if e != |s| {
        var name := s[..e];
        var value := ReadValue(s[e + 1..]);
        if value.Some? {
          config.SetValueByPath(Target(group, name), value.value, t);
          r := ConfigTree.Set(t, Segments(Target(group, name)), value.value);
        }
      }
    }
  }
}

/**
  configuration.c: the tree of named values, as a value. A node's sub-items are its dictionary, in
  insertion order. Configuration proves that the nodes in memory follow these functions.
 */
module ConfigTree {
  import opened Wrappers

  datatype Tree = Tree(value: Option<string>, comment: Option<string>, subitems: seq<Item>)
  datatype Item = Item(name: string, config: Tree)

  type Path = seq<string>

  const EMPTY := Tree(None, None, [])

  /** fcitx_dict_lookup among the sub-items. */
  function IndexOf(items: seq<Item>, name: string): (i: nat)
    ensures i <= |items| && (i < |items| ==> items[i].name == name) && forall j | 0 <= j < i :: items[j].name != name
  {
    if items == [] || items[0].name == name then 0 else 1 + IndexOf(items[1..], name)
  }

  /** fcitx_configuration_get without creating, and the value found there. */
  function ValueAt(t: Tree, path: Path): Option<string>
    decreases |path|
  {
    if path == [] then t.value
    else
      var i := IndexOf(t.subitems, path[0]);
      if i == |t.subitems| then None else ValueAt(t.subitems[i].config, path[1..])
  }

  /** fcitx_configuration_get with creation, followed by fcitx_configuration_set_value. */
  function Set(t: Tree, path: Path, v: string): Tree
    decreases |path|
  {
    if path == [] then t.(value := Some(v))
    else
      var i := IndexOf(t.subitems, path[0]);
      if i == |t.subitems| then t.(subitems := t.subitems + [Item(path[0], Set(EMPTY, path[1..], v))])
      else t.(subitems := t.subitems[i := Item(path[0], Set(t.subitems[i].config, path[1..], v))])
  }

  /** Setting one path changes the value there and nowhere else. */
  lemma {:induction false} SetThenGet(t: Tree, path: Path, v: string, q: Path)
    ensures ValueAt(Set(t, path, v), q) == if q == path then Some(v) else ValueAt(t, q)
    decreases |path|
  {
    if path == [] || q == [] {
    } else {
      var i, j := IndexOf(t.subitems, path[0]), IndexOf(t.subitems, q[0]);
      var items := Set(t, path, v).subitems;
      assert q == path <==> q[0] == path[0] && q[1..] == path[1..];
      if q[0] == path[0] {
        IndexIs(items, q[0], i);
        if i == |t.subitems| {
          SetThenGet(EMPTY, path[1..], v, q[1..]);
          EmptyHasNothing(q[1..]);
        } else {
          SetThenGet(t.subitems[i].config, path[1..], v, q[1..]);
        }
      } else {
        IndexIs(items, q[0], if j < |t.subitems| then j else |items|);
      }
    }
  }

  lemma EmptyHasNothing(q: Path)
    ensures ValueAt(EMPTY, q) == None
  {
  }

  lemma IndexIs(items: seq<Item>, name: string, i: nat)
    requires i <= |items| && (i < |items| ==> items[i].name == name) && forall j | 0 <= j < i :: items[j].name != name
    ensures IndexOf(items, name) == i
  {
  }

  /** The node at a path; the empty one where there is none. */
  function NodeAt(t: Tree, path: Path): Tree
    decreases |path|
  {
    if path == [] then t
    else if exists i :: 0 <= i < |t.subitems| && t.subitems[i].name == path[0] then
      NodeAt(t.subitems[IndexOf(t.subitems, path[0])].config, path[1..])
    else EMPTY
  }

  function Names(items: seq<Item>): seq<string> {
    seq(|items|, i requires 0 <= i < |items| => items[i].name)
  }

  /** Setting one path changes no comment, and the order of no sub-items: a new one becomes the last. */
  lemma {:induction false} SetKeepsRest(t: Tree, path: Path, v: string, q: Path)
    ensures var was, now := NodeAt(t, q), NodeAt(Set(t, path, v), q);
            && now.comment == was.comment
            && Names(now.subitems) == if q < path && path[|q|] !in Names(was.subitems)
                                     then Names(was.subitems) + [path[|q|]] else Names(was.subitems)
    decreases |path|
  {
    var r := Set(t, path, v);
    if path == [] {
      if q != [] {
        assert r.subitems == t.subitems;
      }
    } else if q == [] {
      SetNames(t, path, v);
    } else {
      var i := IndexOf(t.subitems, path[0]);
      if q[0] == path[0] {
        IndexIs(r.subitems, q[0], i);
        var below := if i == |t.subitems| then EMPTY else t.subitems[i].config;
        SetKeepsRest(below, path[1..], v, q[1..]);
        NodeBelow(t, q);
        NodeBelow(r, q);
        if i == |t.subitems| {
          EmptyHasNoNodes(q[1..]);
        }
        PrefixTail(q, path);
      } else {
        assert !(q <= path);
        NodeBelow(t, q);
        NodeBelow(r, q);
        var j := IndexOf(t.subitems, q[0]);
        IndexIs(r.subitems, q[0], if j < |t.subitems| then j else |r.subitems|);
      }
    }
  }

  lemma PrefixTail(q: Path, path: Path)
    requires q != [] && path != [] && q[0] == path[0]
    ensures q < path <==> q[1..] < path[1..]
    ensures q < path ==> path[|q|] == path[1..][|q[1..]|]
  {
    if q[1..] <= path[1..] {
      assert q == [q[0]] + q[1..] && path == [path[0]] + path[1..];
    }
  }

  lemma EmptyHasNoNodes(q: Path)
    ensures NodeAt(EMPTY, q) == EMPTY
  {
  }

  lemma NodeBelow(t: Tree, q: Path)
    requires q != []
    ensures var i := IndexOf(t.subitems, q[0]);
            NodeAt(t, q) == if i < |t.subitems| then NodeAt(t.subitems[i].config, q[1..]) else EMPTY
  {
  }

  lemma SetNames(t: Tree, path: Path, v: string)
    requires path != []
    ensures var was, now := Names(t.subitems), Names(Set(t, path, v).subitems);
            now == if path[0] in was then was else was + [path[0]]
  {
    var i := IndexOf(t.subitems, path[0]);
    if i < |t.subitems| {
      assert Names(t.subitems)[i] == path[0];
    }
  }

  // Paths as strings

  /** strchrnul */
  function Find(s: string, c: char): (i: nat)
    ensures i <= |s| && (i < |s| ==> s[i] == c) && forall j | 0 <= j < i :: s[j] != c
  {
    if s == [] || s[0] == c then 0 else 1 + Find(s[1..], c)
  }

  lemma FindIs(s: string, c: char, i: nat)
    requires i <= |s| && (i < |s| ==> s[i] == c) && forall j | 0 <= j < i :: s[j] != c
    ensures Find(s, c) == i
  {
  }

  function SkipSlash(path: string): (r: string)
    ensures |r| <= |path| && (path != "" && path[0] == '/' ==> |r| < |path|)
  {
    if path != "" && path[0] == '/' then path[1..] else path
  }

  /** The segments the path walk looks up, one after the other. */
  function Segments(path: string): (r: Path)
    decreases |path|
  {
    if path == "" then []
    else
      var p := SkipSlash(path);
      var n := Find(p, '/');
      [p[..n]] + Segments(p[n..])
  }

  /** Every segment behind a slash. */
  function Slashed(segs: Path): string {
    if segs == [] then "" else "/" + segs[0] + Slashed(segs[1..])
  }

  /** The path string as fcitx_configuration_foreach builds it. */
  function Joined(segs: Path): string {
    if segs == [] then "" else segs[0] + Slashed(segs[1..])
  }

  predicate NoSlash(segs: Path) {
    forall i | 0 <= i < |segs| :: '/' !in segs[i]
  }

  lemma FirstSegment(s: string, rest: string)
    requires '/' !in s && (rest == "" || rest[0] == '/')
    ensures Find(s + rest, '/') == |s| && (s + rest)[..|s|] == s && (s + rest)[|s|..] == rest
  {
    FindIs(s + rest, '/', |s|);
  }

  lemma SlashSegment(s: string, rest: string)
    requires '/' !in s && (rest == "" || rest[0] == '/')
    ensures Segments("/" + s + rest) == [s] + Segments(rest)
  {
    var path, p := "/" + s + rest, s + rest;
    assert path[0] == '/' && path[1..] == p;
    FirstSegment(s, rest);
    assert Segments(path) == [p[..Find(p, '/')]] + Segments(p[Find(p, '/')..]);
  }

  lemma {:induction false} SegmentsOfSlashed(segs: Path)
    requires NoSlash(segs)
    ensures Segments(Slashed(segs)) == segs
  {
    if segs == [] {
    } else {
      var s, rest := segs[0], Slashed(segs[1..]);
      SegmentsOfSlashed(segs[1..]);
      assert rest == "" || rest[0] == '/';
      SlashSegment(s, rest);
    }
  }

  /** Walking a joined path visits its segments, if the first is not empty. */
  lemma SegmentsOfJoined(segs: Path)
    requires NoSlash(segs) && (segs != [] ==> segs[0] != "")
    ensures Segments(Joined(segs)) == segs
  {
    if segs != [] {
      SegmentsOfSlashed(segs[1..]);
      assert Slashed(segs[1..]) == "" || Slashed(segs[1..])[0] == '/';
      FirstSegment(segs[0], Slashed(segs[1..]));
      assert Joined(segs)[0] == segs[0][0] && segs[0][0] in segs[0];
      assert SkipSlash(Joined(segs)) == Joined(segs);
    }
  }

  /** With an empty first segment it does not: the walk takes the slash behind it for a leading one. */
  lemma EmptyFirstSegmentIsLost(segs: Path)
    requires NoSlash(segs) && segs != [] && segs[0] == ""
    ensures Segments(Joined(segs)) == segs[1..] != segs
  {
    SegmentsOfSlashed(segs[1..]);
    assert Joined(segs) == Slashed(segs[1..]);
  }

  lemma {:induction false} SlashedAppend(segs: Path, s: string)
    ensures Slashed(segs + [s]) == Slashed(segs) + "/" + s
  {
    if segs == [] {
      assert [s][1..] == [];
      assert Slashed([s]) == "/" + s + "";
    } else {
      SlashedAppend(segs[1..], s);
      assert (segs + [s])[1..] == segs[1..] + [s];
      assert Slashed(segs + [s]) == "/" + segs[0] + (Slashed(segs[1..]) + "/" + s);
    }
  }

  /** How _fcitx_configuration_subitems_foreach extends the path. */
  function Extended(path: string, key: string): string {
    if path == "" then key else path + "/" + key
  }

  lemma JoinedAppend(segs: Path, s: string)
    requires segs != [] ==> segs[0] != ""
    ensures Joined(segs + [s]) == Extended(Joined(segs), s)
  {
    if segs == [] {
      assert Slashed([s][1..]) == "";
    } else {
      assert (segs + [s])[1..] == segs[1..] + [s];
      SlashedAppend(segs[1..], s);
    }
  }

  /** The loop of _fcitx_configuration_get, as far as the path string goes. */
  method WalkPath(path: string) returns (segs: Path)
    ensures segs == Segments(path)
  {
    var rest := path;
    segs := [];
    while rest != ""
      invariant segs + Segments(rest) == Segments(path)
      decreases |rest|
    {
      var p := SkipSlash(rest);
      var n := Find(p, '/');
      assert Segments(rest) == [p[..n]] + Segments(p[n..]);
      segs := segs + [p[..n]];
      rest := p[n..];
    }
  }
}

/**
  configuration.c: the nodes of the tree, updated in place. ConfigTree says what tree they form; a
  node owns its sub-items, which is what reference counting amounts to here.
 */
module Configuration {
  import opened ConfigTree
  import opened Wrappers

  class Configuration {
    const name: string
    var value: Option<string>
    var comment: Option<string>
    var subitems: seq<Configuration>
    ghost var repr: set<Configuration>

    /** The node and everything below it, without sharing. */
    ghost predicate Valid()
      reads this, repr
      decreases repr
    {
      && this in repr
      && (forall i | 0 <= i < |subitems| ::
            subitems[i] in repr && subitems[i].repr <= repr && this !in subitems[i].repr && subitems[i].Valid())
      && forall i, j | 0 <= i < j < |subitems| :: subitems[i].repr !! subitems[j].repr
    }

    /** The tree the node stands for. */
    ghost predicate Is(t: Tree)
      requires Valid()
      reads this, repr
      decreases t
    {
      && value == t.value && comment == t.comment && |subitems| == |t.subitems|
      && forall i | 0 <= i < |subitems| ::
           subitems[i].name == t.subitems[i].name && subitems[i].Is(t.subitems[i].config)
    }

    /** fcitx_configuration_new */
    constructor (name: string)
      ensures Valid() && fresh(repr) && Is(EMPTY) && this.name == name
    {
      this.name := name;
      value, comment, subitems := None, None, [];
      repr := {this};
    }

    /** fcitx_dict_lookup among the sub-items */
    method Lookup(name: string, ghost t: Tree) returns (i: nat)
      requires Valid() && Is(t)
      ensures i == IndexOf(t.subitems, name)
    {
      i := 0;
      while i < |subitems| && subitems[i].name != name
        invariant 0 <= i <= |subitems| && forall j | 0 <= j < i :: t.subitems[j].name != name
      {
        i := i + 1;
      }
      IndexIs(t.subitems, name, i);
    }

    /** Inserts a new node, already filled in, as the last sub-item. */
    method Insert(newConfig: Configuration, ghost t: Tree, ghost c: Tree)
      requires Valid() && Is(t) && newConfig.Valid() && newConfig.Is(c) && newConfig.repr !! repr
      modifies this
      ensures Valid() && repr == old(repr) + newConfig.repr
      ensures Is(t.(subitems := t.subitems + [Item(newConfig.name, c)]))
    {
      subitems := subitems + [newConfig];
      repr := repr + newConfig.repr;
      assert forall i | 0 <= i < |subitems| - 1 :: subitems[i] == old(subitems)[i] && subitems[i].repr <= old(repr);
    }

    /** Sub-item `i` takes the value further down; its siblings do not change. */
    method SetBelow(i: nat, path: Path, v: string, ghost t: Tree)
      requires Valid() && Is(t) && i < |subitems|
      modifies repr
      ensures Valid() && fresh(repr - old(repr))
      ensures var item := Item(t.subitems[i].name, ConfigTree.Set(t.subitems[i].config, path, v));
              Is(t.(subitems := t.subitems[i := item]))
      decreases |path|, 1
    {
      hide ConfigTree.Set;
      var c := subitems[i];
      c.Set(path, v, t.subitems[i].config);
      forall j | 0 <= j < |subitems| && j != i
        ensures subitems[j].repr == old(subitems[j].repr) && subitems[j].Valid() && subitems[j].Is(t.subitems[j].config)
      {
        assert old(subitems[j].repr) !! old(c.repr);
        assert subitems[j] in old(subitems[j].repr);
      }
      repr := repr + c.repr;
    }

    /**
      fcitx_configuration_get with creation, from this node along `path`, and
      fcitx_configuration_set_value there.
     */
    method Set(path: Path, v: string, ghost t: Tree)
      requires Valid() && Is(t)
      modifies repr
      ensures Valid() && fresh(repr - old(repr)) && Is(ConfigTree.Set(t, path, v))
      decreases |path|, 0
    {
      hide Configuration.Valid, Configuration.Is;
      SizeIs(t);
      if path == [] {
        SetValue(v, t);
        return;
      }
      var i := Lookup(path[0], t);
      if i == |subitems| {
        var newConfig := new Configuration(path[0]);
        newConfig.Set(path[1..], v, EMPTY);
        Insert(newConfig, t, ConfigTree.Set(EMPTY, path[1..], v));
      } else {
        SetBelow(i, path[1..], v, t);
      }
    }

    lemma SizeIs(t: Tree)
      requires Valid() && Is(t)
      ensures |subitems| == |t.subitems| && this in repr
    {
    }

    lemma SubItem(t: Tree, i: nat)
      requires Valid() && Is(t) && i < |subitems|
      ensures |subitems| == |t.subitems| && subitems[i].Valid() && subitems[i].Is(t.subitems[i].config)
      ensures subitems[i].name == t.subitems[i].name && subitems[i].repr <= repr
    {
    }

    /** fcitx_configuration_set_value */
    method SetValue(v: string, ghost t: Tree)
      requires Valid() && Is(t)
      modifies this`value
      ensures Valid() && Is(t.(value := Some(v)))
    {
      value := Some(v);
      assert forall i | 0 <= i < |subitems| :: this !in subitems[i].repr && subitems[i].Is(t.subitems[i].config);
    }

    /** fcitx_configuration_set_value_by_path: exactly the value at that path changes. */
    method SetValueByPath(path: string, v: string, ghost t: Tree)
      requires Valid() && Is(t)
      modifies repr
      ensures Valid() && fresh(repr - old(repr)) && Is(ConfigTree.Set(t, Segments(path), v))
    {
      var segs := WalkPath(path);
      Set(segs, v, t);
    }

    /** fcitx_configuration_get_value_by_path */
    method GetValueByPath(path: string, ghost t: Tree) returns (r: Option<string>)
      requires Valid() && Is(t)
      ensures r == ValueAt(t, Segments(path))
    {
      var segs := WalkPath(path);
      var config, rest := this, segs;
      ghost var at := t;
      while rest != []
        invariant config.Valid() && config.Is(at) && ValueAt(at, rest) == ValueAt(t, segs)
        decreases |rest|
      {
        config.SizeIs(at);
        var i := config.Lookup(rest[0], at);
        if i == |config.subitems| {
          return None;
        }
        config, at, rest := config.subitems[i], at.subitems[i].config, rest[1..];
      }
      return config.value;
    }
  }
}

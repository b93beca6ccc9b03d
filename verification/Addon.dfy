/**
  addon.c: the manager's load loop and its unloading. Whether a resolver succeeds is up to the addon and
  to those loaded.
 */
module Addon {
  import opened AddonOrder
  import opened Seqs

  class Addon {
    const info: Info
    var enabled: bool
    var loaded: bool

    constructor (info: Info, enabled: bool)
      ensures this.info == info && this.enabled == enabled && !loaded
    {
      this.info, this.enabled, loaded := info, enabled, false;
    }
  }

  ghost function Infos(addons: seq<Addon>): (r: seq<Info>)
    ensures |r| == |addons|
  {
    seq(|addons|, i requires 0 <= i < |addons| => addons[i].info)
  }

  /** The flags of the addons are what `st` says. */
  ghost predicate Flags(addons: seq<Addon>, st: State)
    reads addons
  {
    forall i | 0 <= i < |addons| ::
      (addons[i].enabled <==> addons[i].info.name in st.enabled)
      && (addons[i].loaded <==> addons[i].info.name in st.loaded)
  }

  function NamesOf(addons: seq<Addon>): (r: seq<string>)
    ensures |r| == |addons|
  {
    seq(|addons|, i requires 0 <= i < |addons| => addons[i].info.name)
  }

  class AddonManager {
    /** The dictionary of addons, in its order. */
    const addons: seq<Addon>
    var loadedAddons: seq<Addon>
    var loaded: bool
    /** The names of the addons whose destroy function has been called. */
    ghost var destroyed: seq<string>

    ghost predicate Shape()
      reads this
    {
      && Distinct(addons) && AddonOrder.Names(Infos(addons))
      && forall i | 0 <= i < |loadedAddons| :: loadedAddons[i] in addons
    }

    /** The manager is in state `st`. */
    ghost predicate In(st: State)
      reads this, addons
    {
      Shape() && Flags(addons, st) && NamesOf(loadedAddons) == st.loaded
    }

    constructor (addons: seq<Addon>)
      requires Distinct(addons) && AddonOrder.Names(Infos(addons))
      ensures this.addons == addons && loadedAddons == [] && !loaded && destroyed == []
    {
      this.addons := addons;
      loadedAddons, loaded := [], false;
      destroyed := [];
    }

    /** fcitx_dict_lookup among the addons */
    method Lookup(name: string) returns (addon: Addon?)
      requires Shape()
      ensures addon == null <==> !Known(Infos(addons), name)
      ensures addon != null ==> addon in addons && addon.info.name == name
    {
      var i := 0;
      while i < |addons|
        invariant 0 <= i <= |addons| && forall j | 0 <= j < i :: addons[j].info.name != name
      {
        if addons[i].info.name == name {
          assert Infos(addons)[i].name == name;
          return addons[i];
        }
        i := i + 1;
      }
      return null;
    }

    /** _fcitx_addon_manager_load_addon */
    method LoadAddon(addon: Addon)
      requires addon in addons
      modifies this`loadedAddons, addon
      ensures old(addon.loaded) ==>
                loadedAddons == old(loadedAddons) && addon.loaded && addon.enabled == old(addon.enabled)
      ensures !old(addon.loaded) && addon.info.resolves(NamesOf(old(loadedAddons))) ==>
                loadedAddons == old(loadedAddons) + [addon] && addon.loaded && addon.enabled == old(addon.enabled)
      ensures !old(addon.loaded) && !addon.info.resolves(NamesOf(old(loadedAddons))) ==>
                loadedAddons == old(loadedAddons) && !addon.loaded && !addon.enabled
    {
      if addon.loaded {
        return;
      }
      if addon.info.resolves(NamesOf(loadedAddons)) {
        addon.loaded := true;
        loadedAddons := loadedAddons + [addon];
        return;
      }
      addon.enabled := false;
    }

    /** The loop over one addon's dependencies, which stops at the first unknown one. */
    method CheckDependencies(addon: Addon, ghost st: State) returns (unknown: bool, allLoaded: bool)
      requires In(st) && addon in addons
      ensures unknown <==> !AllKnown(Infos(addons), addon.info)
      ensures !unknown ==> (allLoaded <==> AllIn(st.loaded, addon.info))
    {
      allLoaded := true;
      var deps := addon.info.dependencies;
      var d := 0;
      while d < |deps|
        invariant 0 <= d <= |deps|
        invariant forall i | 0 <= i < d :: Known(Infos(addons), deps[i])
        invariant allLoaded <==> forall i | 0 <= i < d :: deps[i] in st.loaded
      {
        var depend := Lookup(deps[d]);
        if depend == null {
          return true, allLoaded;
        }
        if !depend.loaded {
          allLoaded := false;
        }
        d := d + 1;
      }
      return false, allLoaded;
    }

    /** The body of the loop over the addons. */
    method VisitAddon(i: nat, ghost st: State) returns (update: bool)
      requires In(st) && i < |addons|
      modifies this`loadedAddons, addons[i]
      ensures var r := Visit(Infos(addons), Infos(addons)[i], st); In(r.0) && update == r.1
    {
      var addon := addons[i];
      update := false;
      if !addon.enabled {
        return;
      }
      var unknown, allLoaded := CheckDependencies(addon, st);
      if unknown {
        addon.enabled := false;
        update := true;
      } else if allLoaded {
        LoadAddon(addon);
      }
      Others(i);
    }

    lemma Others(i: nat)
      requires Distinct(addons) && AddonOrder.Names(Infos(addons)) && i < |addons|
      ensures forall j | 0 <= j < |addons| && j != i ::
                addons[j] != addons[i] && addons[j].info.name != addons[i].info.name
    {
      assert forall j | 0 <= j < |addons| :: Infos(addons)[j].name == addons[j].info.name;
    }

    /** One pass over the dictionary. */
    method LoadPass(ghost st: State) returns (update: bool)
      requires In(st)
      modifies this`loadedAddons, addons
      ensures var r := Pass(Infos(addons), 0, st); In(r.0) && update == r.1
    {
      update := false;
      ghost var now := st;
      var i := 0;
      while i < |addons|
        invariant 0 <= i <= |addons| && In(now)
        invariant Pass(Infos(addons), 0, st)
                  == (Pass(Infos(addons), i, now).0, update || Pass(Infos(addons), i, now).1)
      {
        ghost var next := Visit(Infos(addons), Infos(addons)[i], now).0;
        var one := VisitAddon(i, now);
        update := update || one;
        now := next;
        i := i + 1;
      }
    }

    /**
      The loop of fcitx_addon_manager_load, after the metadata has been read into an empty manager:
      ends after one pass, or after two.
     */
    method Load(ghost enabled: set<string>) returns (ghost passes: nat)
      requires In(State(enabled, []))
      modifies this, addons
      ensures var r := AddonOrder.Load(Infos(addons), State(enabled, [])); In(r.0) && passes == r.1
      ensures loaded && destroyed == old(destroyed)
    {
      ghost var st := State(enabled, []);
      passes := 0;
      var update := true;
      TwoPasses(Infos(addons), st);
      ghost var first := Pass(Infos(addons), 0, st);
      ghost var now := st;
      while update
        invariant In(now) && passes <= 2 && destroyed == old(destroyed)
        invariant passes == 0 ==> update && now == st
        invariant passes == 1 ==> now == first.0 && update == first.1
        invariant passes == 2 ==> first.1 && !update && now == Pass(Infos(addons), 0, first.0).0
        decreases 2 - passes
      {
        ghost var next := Pass(Infos(addons), 0, now).0;
        update := LoadPass(now);
        now := next;
        passes := passes + 1;
      }
      loaded := true;
    }

    /** While unloading, with `i` addons still to go. */
    ghost predicate Unloading(st: State, i: nat)
      reads this, addons
    {
      && Shape() && i <= |st.loaded| && NamesOf(loadedAddons) == st.loaded
      && (forall k | 0 <= k < |addons| :: addons[k].enabled <==> addons[k].info.name in st.enabled)
      && (forall k | 0 <= k < |addons| && addons[k].loaded :: addons[k].info.name in st.loaded[..i])
    }

    /** One turn of fcitx_addon_manager_unload. */
    method UnloadAddon(i: nat, ghost st: State)
      requires Unloading(st, i + 1)
      modifies this`destroyed, loadedAddons
      ensures Unloading(st, i) && loadedAddons == old(loadedAddons)
      ensures destroyed == old(destroyed) + [st.loaded[i]]
    {
      var addon := loadedAddons[i];
      assert st.loaded[i] == addon.info.name && st.loaded[..i + 1] == st.loaded[..i] + [addon.info.name];
      SameName(addon);
      destroyed := destroyed + [addon.info.name];
      addon.loaded := false;
    }

    /** fcitx_addon_manager_unload: every loaded addon is destroyed, the last one loaded first. */
    method Unload(ghost st: State)
      requires In(st)
      modifies this, addons
      ensures old(loaded) ==>
                In(State(st.enabled, [])) && loadedAddons == [] && destroyed == old(destroyed) + Reversed(st.loaded)
      ensures !old(loaded) ==> In(st) && destroyed == old(destroyed)
    {
      if !loaded {
        return;
      }
      ghost var was := destroyed;
      var i := |loadedAddons|;
      assert Unloading(st, i) by { assert st.loaded[..i] == st.loaded; }
      ReversedEnd(was, st.loaded);
      while i > 0
        invariant 0 <= i <= |st.loaded| && loadedAddons == old(loadedAddons) && Unloading(st, i)
        invariant destroyed == was + Reversed(st.loaded[i..])
      {
        i := i - 1;
        ReversedStep(was, st.loaded, i);
        UnloadAddon(i, st);
      }
      assert st.loaded[0..] == st.loaded && st.loaded[..0] == [];
      loadedAddons := [];
      assert NamesOf([]) == [];
    }

    lemma ReversedEnd(was: seq<string>, s: seq<string>)
      ensures was == was + Reversed(s[|s|..])
    {
    }

    lemma ReversedStep(was: seq<string>, s: seq<string>, i: nat)
      requires i < |s|
      ensures was + Reversed(s[i..]) == was + Reversed(s[i + 1..]) + [s[i]]
    {
      assert s[i..][1..] == s[i + 1..];
      ConcatAssociates(was, Reversed(s[i + 1..]), [s[i]]);
    }

    lemma SameName(addon: Addon)
      requires Shape() && addon in addons
      ensures forall k | 0 <= k < |addons| && addons[k].info.name == addon.info.name :: addons[k] == addon
    {
      assert forall j | 0 <= j < |addons| :: Infos(addons)[j].name == addons[j].info.name;
    }
  }
}

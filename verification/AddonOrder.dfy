/**
  addon.c: in which order addons are loaded, on values. Addon proves that the manager does this.
  The metadata has been read into an empty manager; names are distinct, as dictionary keys are.
 */
module AddonOrder {
  import opened Seqs

  /**
    An addon's configuration; `resolves` says whether a resolver for its type exists and succeeds, which
    may depend on the addons loaded so far, for they can register resolvers.
   */
  datatype Info = Info(name: string, dependencies: seq<string>, resolves: seq<string> -> bool)

  /** The enabled addons, and the loaded ones in the order of loadedAddons. */
  datatype State = State(enabled: set<string>, loaded: seq<string>)

  predicate Names(addons: seq<Info>) {
    forall i, j | 0 <= i < j < |addons| :: addons[i].name != addons[j].name
  }

  /** fcitx_dict_lookup among the addons */
  predicate Known(addons: seq<Info>, name: string) {
    exists i :: 0 <= i < |addons| && addons[i].name == name
  }

  predicate AllKnown(addons: seq<Info>, a: Info) {
    forall i | 0 <= i < |a.dependencies| :: Known(addons, a.dependencies[i])
  }

  predicate AllIn(names: seq<string>, a: Info) {
    forall i | 0 <= i < |a.dependencies| :: a.dependencies[i] in names
  }

  /** What the body of the loop does to one addon, and whether it asks for another pass. */
  function Visit(addons: seq<Info>, a: Info, st: State): (State, bool) {
    if a.name !in st.enabled then (st, false)
    else if !AllKnown(addons, a) then (st.(enabled := st.enabled - {a.name}), true)
    else if !AllIn(st.loaded, a) || a.name in st.loaded then (st, false)
    else if a.resolves(st.loaded) then (st.(loaded := st.loaded + [a.name]), false)
    else (st.(enabled := st.enabled - {a.name}), false)
  }

  /** One pass, from addon `i` on. */
  function Pass(addons: seq<Info>, i: nat, st: State): (State, bool)
    requires i <= |addons|
    decreases |addons| - i
  {
    if i == |addons| then (st, false)
    else
      var one := Visit(addons, addons[i], st);
      var rest := Pass(addons, i + 1, one.0);
      (rest.0, one.1 || rest.1)
  }

  /** Every addon behind `i` that is enabled has only known dependencies. */
  predicate Sane(addons: seq<Info>, upTo: nat, st: State)
    requires upTo <= |addons|
  {
    forall i | 0 <= i < upTo :: addons[i].name in st.enabled ==> AllKnown(addons, addons[i])
  }

  /** A pass leaves no enabled addon with an unknown dependency, and without any to start with asks for no other. */
  lemma {:induction false} PassMakesSane(addons: seq<Info>, i: nat, st: State)
    requires i <= |addons| && Names(addons) && Sane(addons, i, st)
    ensures var r := Pass(addons, i, st);
            Sane(addons, |addons|, r.0) && r.0.enabled <= st.enabled && (Sane(addons, |addons|, st) ==> !r.1)
    decreases |addons| - i
  {
    if i == |addons| {
    } else {
      var one := Visit(addons, addons[i], st).0;
      assert Sane(addons, i + 1, one);
      PassMakesSane(addons, i + 1, one);
    }
  }

  /** The whole load: the number of passes is 1, or 2 when an enabled addon has an unknown dependency. */
  function Load(addons: seq<Info>, st: State): (r: (State, nat))
    requires Names(addons)
  {
    var first := Pass(addons, 0, st);
    if first.1 then (Pass(addons, 0, first.0).0, 2) else (first.0, 1)
  }

  // Safety: what is loaded is a plan.

  ghost predicate PlanStep(addons: seq<Info>, enabled: set<string>, plan: seq<string>, i: nat)
    requires i < |plan|
  {
    exists k :: 0 <= k < |addons| && addons[k].name == plan[i] && addons[k].resolves(plan[..i]) && plan[i] in enabled
                && AllKnown(addons, addons[k]) && AllIn(plan[..i], addons[k])
  }

  /** Enabled addons, each once, resolving with what is in front of it, and behind all its dependencies. */
  ghost predicate Plan(addons: seq<Info>, enabled: set<string>, plan: seq<string>) {
    Distinct(plan) && forall i | 0 <= i < |plan| :: PlanStep(addons, enabled, plan, i)
  }

  lemma PlanGrows(addons: seq<Info>, enabled: set<string>, plan: seq<string>, k: nat)
    requires Plan(addons, enabled, plan) && k < |addons| && addons[k].name !in plan && addons[k].name in enabled
    requires addons[k].resolves(plan) && AllKnown(addons, addons[k]) && AllIn(plan, addons[k])
    ensures Plan(addons, enabled, plan + [addons[k].name])
  {
    var r := plan + [addons[k].name];
    forall i | 0 <= i < |r| ensures PlanStep(addons, enabled, r, i) {
      assert r[..i] == if i < |plan| then plan[..i] else plan;
      if i < |plan| {
        assert PlanStep(addons, enabled, plan, i);
      }
    }
  }

  lemma {:induction false} PassKeepsPlan(addons: seq<Info>, i: nat, st: State, enabled: set<string>)
    requires i <= |addons| && st.enabled <= enabled && Plan(addons, enabled, st.loaded)
    ensures var r := Pass(addons, i, st).0;
            r.enabled <= enabled && Plan(addons, enabled, r.loaded) && st.loaded <= r.loaded
    decreases |addons| - i
  {
    if i == |addons| {
    } else {
      var a := addons[i];
      if a.name in st.enabled && AllKnown(addons, a) && AllIn(st.loaded, a) && a.name !in st.loaded
         && a.resolves(st.loaded) {
        PlanGrows(addons, enabled, st.loaded, i);
      }
      PassKeepsPlan(addons, i + 1, Visit(addons, a, st).0, enabled);
    }
  }

  /** From an empty manager, loadedAddons holds each addon once and behind all its dependencies. */
  lemma LoadedIsPlan(addons: seq<Info>, enabled: set<string>)
    requires Names(addons)
    ensures Plan(addons, enabled, Load(addons, State(enabled, [])).0.loaded)
  {
    var st := State(enabled, []);
    var first := Pass(addons, 0, st);
    PassKeepsPlan(addons, 0, st, enabled);
    PassKeepsPlan(addons, 0, first.0, enabled);
  }

  /** The loop ends after at most two passes: a third would find nothing to disable. */
  lemma TwoPasses(addons: seq<Info>, st: State)
    requires Names(addons)
    ensures !Pass(addons, 0, Pass(addons, 0, st).0).1
    ensures Pass(addons, 0, st).1 <==> !Sane(addons, |addons|, st)
  {
    PassMakesSane(addons, 0, st);
    PassMakesSane(addons, 0, Pass(addons, 0, st).0);
    if !Sane(addons, |addons|, st) {
      InsaneAsks(addons, 0, st);
    }
  }

  lemma {:induction false} InsaneAsks(addons: seq<Info>, i: nat, st: State)
    requires i <= |addons| && Names(addons)
    requires exists k :: i <= k < |addons| && addons[k].name in st.enabled && !AllKnown(addons, addons[k])
    ensures Pass(addons, i, st).1
    decreases |addons| - i
  {
    var k :| i <= k < |addons| && addons[k].name in st.enabled && !AllKnown(addons, addons[k]);
    if k == i {
    } else {
      var one := Visit(addons, addons[i], st).0;
      assert addons[k].name in one.enabled;
      InsaneAsks(addons, i + 1, one);
    }
  }

  // Completeness: exactly what a few runs through the dictionary reach is loaded.

  /** The place of an addon in the dictionary, or the number of addons. */
  function Place(addons: seq<Info>, name: string): (i: nat)
    ensures i <= |addons| && (i < |addons| ==> addons[i].name == name)
    ensures forall j | 0 <= j < i :: addons[j].name != name
  {
    if addons == [] || addons[0].name == name then 0 else 1 + Place(addons[1..], name)
  }

  lemma PlaceIs(addons: seq<Info>, k: nat)
    requires Names(addons) && k < |addons|
    ensures Place(addons, addons[k].name) == k
  {
  }

  /** Addons from place `i` on, in the order of the dictionary. */
  predicate InOrder(addons: seq<Info>, run: seq<string>, i: nat) {
    && (forall j | 0 <= j < |run| :: i <= Place(addons, run[j]) < |addons|)
    && forall j, k | 0 <= j < k < |run| :: Place(addons, run[j]) < Place(addons, run[k])
  }

  /** A plan that at most `passes` runs through the dictionary, of one or two, go through. */
  ghost predicate PlanInPasses(addons: seq<Info>, enabled: set<string>, plan: seq<string>, passes: nat) {
    && Plan(addons, enabled, plan)
    && exists cut :: 0 <= cut <= |plan| && InOrder(addons, plan[..cut], 0) && InOrder(addons, plan[cut..], 0)
                     && (passes == 1 ==> cut == |plan|)
  }

  /** An addon that resolves whenever its dependencies are loaded. */
  ghost predicate Resolvable(a: Info) {
    forall s | AllIn(s, a) :: a.resolves(s)
  }

  /** Which resolvers there are for an addon is settled once its dependencies are loaded. */
  ghost predicate Settled(addons: seq<Info>) {
    forall k, s | 0 <= k < |addons| && AllIn(s, addons[k]) && addons[k].resolves(s) :: Resolvable(addons[k])
  }

  /** What can be loaded after what is loaded already, from place `i` on. */
  ghost predicate Ready(addons: seq<Info>, st: State, run: seq<string>, i: nat) {
    InOrder(addons, run, i) && forall j | 0 <= j < |run| :: ReadyAt(addons, st, run, j)
  }

  ghost predicate ReadyAt(addons: seq<Info>, st: State, run: seq<string>, j: nat)
    requires j < |run| && Place(addons, run[j]) < |addons|
  {
    var a := addons[Place(addons, run[j])];
    && run[j] in st.enabled && AllKnown(addons, a) && AllIn(st.loaded + run[..j], a)
    && Resolvable(a)
  }

  lemma AllInMore(s: seq<string>, r: seq<string>, a: Info)
    requires AllIn(s, a) && forall x | x in s :: x in r
    ensures AllIn(r, a)
  {
  }

  lemma {:induction false} PassLoadsReady(addons: seq<Info>, i: nat, st: State, run: seq<string>)
    requires i <= |addons| && Names(addons) && Ready(addons, st, run, i)
    ensures forall j | 0 <= j < |run| :: run[j] in Pass(addons, i, st).0.loaded
    decreases |addons| - i
  {
    if i == |addons| {
    } else {
      PlaceIs(addons, i);
      var next := Visit(addons, addons[i], st).0;
      if run != [] && Place(addons, run[0]) == i {
        ReadyTail(addons, i, st, run);
        PassLoadsReady(addons, i + 1, next, run[1..]);
        PassKeepsLoaded(addons, i + 1, next);
        forall j | 0 <= j < |run| ensures run[j] in Pass(addons, i, st).0.loaded {
          if j > 0 {
            assert run[1..][j - 1] in Pass(addons, i + 1, next).0.loaded;
          }
        }
      } else {
        ReadySkip(addons, i, st, run);
        PassLoadsReady(addons, i + 1, next, run);
      }
    }
  }

  /** Being ready survives that more is loaded. */
  lemma ReadyAtMore(addons: seq<Info>, st: State, run: seq<string>, j: nat, next: State, run': seq<string>, j': nat)
    requires j < |run| && Place(addons, run[j]) < |addons| && ReadyAt(addons, st, run, j)
    requires j' < |run'| && run'[j'] == run[j] && run[j] in next.enabled
    requires forall x | x in st.loaded + run[..j] :: x in next.loaded + run'[..j']
    ensures ReadyAt(addons, next, run', j')
  {
    hide AllIn, AllKnown;
    AllInMore(st.loaded + run[..j], next.loaded + run'[..j'], addons[Place(addons, run[j])]);
  }

  lemma InOrderTail(addons: seq<Info>, run: seq<string>, i: nat)
    requires InOrder(addons, run, i) && run != [] && Place(addons, run[0]) == i
    ensures InOrder(addons, run[1..], i + 1)
  {
  }

  lemma InOrderSkip(addons: seq<Info>, run: seq<string>, i: nat)
    requires InOrder(addons, run, i) && (run == [] || Place(addons, run[0]) != i)
    ensures InOrder(addons, run, i + 1)
  {
    forall j | 0 <= j < |run| ensures Place(addons, run[j]) > i {
      assert Place(addons, run[0]) <= Place(addons, run[j]);
    }
  }

  lemma ReadyTail(addons: seq<Info>, i: nat, st: State, run: seq<string>)
    requires i < |addons| && Names(addons) && Ready(addons, st, run, i) && run != [] && Place(addons, run[0]) == i
    ensures var next := Visit(addons, addons[i], st).0; run[0] in next.loaded && Ready(addons, next, run[1..], i + 1)
  {
    hide InOrder, ReadyAt, Visit, Names;
    var next := Visit(addons, addons[i], st).0;
    VisitReady(addons, i, st, run);
    InOrderTail(addons, run, i);
    Places(addons, run[1..], i + 1);
    Places(addons, run, i);
    forall j | 0 <= j < |run| - 1 ensures ReadyAt(addons, next, run[1..], j) {
      assert run[..j + 1] == [run[0]] + run[1..][..j];
      ReadyAtMore(addons, st, run, j + 1, next, run[1..], j);
    }
  }

  lemma VisitReady(addons: seq<Info>, i: nat, st: State, run: seq<string>)
    requires i < |addons| && Ready(addons, st, run, i) && run != [] && Place(addons, run[0]) == i
    ensures var next := Visit(addons, addons[i], st).0;
            run[0] in next.loaded && next.enabled == st.enabled && forall x | x in st.loaded :: x in next.loaded
    ensures forall j | 0 <= j < |run| :: run[j] in Visit(addons, addons[i], st).0.enabled
  {
    hide Visit, AllIn, AllKnown, InOrder;
    Places(addons, run, i);
    FirstVisited(addons, i, st, run);
    forall j | 0 <= j < |run| ensures run[j] in st.enabled {
      assert ReadyAt(addons, st, run, j);
    }
  }

  lemma FirstVisited(addons: seq<Info>, i: nat, st: State, run: seq<string>)
    requires i < |addons| && run != [] && Place(addons, run[0]) == i && ReadyAt(addons, st, run, 0)
    ensures var next := Visit(addons, addons[i], st).0;
            run[0] in next.loaded && next.enabled == st.enabled && forall x | x in st.loaded :: x in next.loaded
  {
    hide AllIn, AllKnown;
    assert st.loaded + run[..0] == st.loaded;
  }

  lemma Places(addons: seq<Info>, run: seq<string>, i: nat)
    requires InOrder(addons, run, i)
    ensures forall j | 0 <= j < |run| :: i <= Place(addons, run[j]) < |addons|
  {
  }

  lemma ReadySkip(addons: seq<Info>, i: nat, st: State, run: seq<string>)
    requires i < |addons| && Names(addons) && Ready(addons, st, run, i) && (run == [] || Place(addons, run[0]) != i)
    ensures Ready(addons, Visit(addons, addons[i], st).0, run, i + 1)
  {
    hide InOrder, ReadyAt, Visit, Names;
    var next := Visit(addons, addons[i], st).0;
    InOrderSkip(addons, run, i);
    Places(addons, run, i + 1);
    forall j | 0 <= j < |run| ensures ReadyAt(addons, next, run, j) {
      SkippedStays(addons, i, st, run, j);
      ReadyAtMore(addons, st, run, j, next, run, j);
    }
  }

  lemma SkippedStays(addons: seq<Info>, i: nat, st: State, run: seq<string>, j: nat)
    requires i < |addons| && Names(addons) && j < |run|
    requires i < Place(addons, run[j]) < |addons| && ReadyAt(addons, st, run, j)
    ensures var next := Visit(addons, addons[i], st).0;
            run[j] in next.enabled && forall x | x in st.loaded :: x in next.loaded
  {
    hide AllIn, AllKnown;
    PlaceIs(addons, i);
  }

  /** A pass only appends, in the order of the dictionary, and disables no addon of a plan. */
  lemma {:induction false} PassKeepsLoaded(addons: seq<Info>, i: nat, st: State)
    requires i <= |addons| && Names(addons)
    ensures var r := Pass(addons, i, st).0; st.loaded <= r.loaded && InOrder(addons, r.loaded[|st.loaded|..], i)
    decreases |addons| - i
  {
    hide Visit;
    if i == |addons| {
    } else {
      var next := Visit(addons, addons[i], st).0;
      PassKeepsLoaded(addons, i + 1, next);
      var r := Pass(addons, i, st).0;
      VisitAppends(addons, addons[i], st);
      if |next.loaded| > |st.loaded| {
        InOrderCons(addons, i, r.loaded[|next.loaded|..]);
        assert r.loaded[|st.loaded|..] == [addons[i].name] + r.loaded[|next.loaded|..];
      }
    }
  }

  lemma VisitAppends(addons: seq<Info>, a: Info, st: State)
    ensures var next := Visit(addons, a, st).0; next.loaded == st.loaded || next.loaded == st.loaded + [a.name]
  {
  }

  lemma InOrderCons(addons: seq<Info>, i: nat, run: seq<string>)
    requires Names(addons) && i < |addons| && InOrder(addons, run, i + 1)
    ensures InOrder(addons, [addons[i].name] + run, i)
  {
    hide Names, Place;
    PlaceIs(addons, i);
  }

  lemma {:induction false} PassKeepsEnabled(addons: seq<Info>, i: nat, st: State, k: nat)
    requires i <= |addons| && Names(addons) && k < |addons| && Resolvable(addons[k]) && AllKnown(addons, addons[k])
    ensures addons[k].name in st.enabled ==> addons[k].name in Pass(addons, i, st).0.enabled
    decreases |addons| - i
  {
    if i == |addons| {
    } else {
      PassKeepsEnabled(addons, i + 1, Visit(addons, addons[i], st).0, k);
    }
  }

  /** Parts of a plan in dictionary order are ready once what is in front of them is loaded. */
  lemma PlanIsReady(addons: seq<Info>, enabled: set<string>, plan: seq<string>, cut: nat, end: nat, st: State)
    requires Names(addons) && Settled(addons)
    requires Plan(addons, enabled, plan) && cut <= end <= |plan| && InOrder(addons, plan[cut..end], 0)
    requires forall i | 0 <= i < cut :: plan[i] in st.loaded
    requires forall i | cut <= i < end :: plan[i] in st.enabled
    ensures Ready(addons, st, plan[cut..end], 0)
  {
    var run := plan[cut..end];
    forall j | 0 <= j < |run| ensures ReadyAt(addons, st, run, j) {
      assert PlanStep(addons, enabled, plan, cut + j);
      var k :| 0 <= k < |addons| && addons[k].name == plan[cut + j] && addons[k].resolves(plan[..cut + j])
               && AllKnown(addons, addons[k]) && AllIn(plan[..cut + j], addons[k]);
      PlaceIs(addons, k);
      forall i | 0 <= i < |addons[k].dependencies| ensures addons[k].dependencies[i] in st.loaded + run[..j] {
        assert addons[k].dependencies[i] in plan[..cut + j];
        var d :| 0 <= d < cut + j && plan[..cut + j][d] == addons[k].dependencies[i];
        if d >= cut {
          assert run[..j][d - cut] == plan[d];
        }
      }
    }
  }

  /** Two passes if an enabled addon has an unknown dependency, and one otherwise. */
  function Passes(addons: seq<Info>, enabled: set<string>): nat {
    if Sane(addons, |addons|, State(enabled, [])) then 1 else 2
  }

  /** From an empty manager exactly those addons are loaded that a plan in that many passes holds. */
  lemma LoadedExactly(addons: seq<Info>, enabled: set<string>, name: string)
    requires Names(addons) && Settled(addons)
    ensures name in Load(addons, State(enabled, [])).0.loaded
            <==> exists plan :: PlanInPasses(addons, enabled, plan, Passes(addons, enabled)) && name in plan
  {
    TwoPasses(addons, State(enabled, []));
    LoadedInPasses(addons, enabled);
    if exists plan :: PlanInPasses(addons, enabled, plan, Passes(addons, enabled)) && name in plan {
      var plan :| PlanInPasses(addons, enabled, plan, Passes(addons, enabled)) && name in plan;
      PlanIsLoaded(addons, enabled, plan, name);
    }
  }

  lemma LoadedInPasses(addons: seq<Info>, enabled: set<string>)
    requires Names(addons)
    ensures var r := Load(addons, State(enabled, [])); PlanInPasses(addons, enabled, r.0.loaded, r.1)
  {
    var st := State(enabled, []);
    var first := Pass(addons, 0, st);
    var r := Load(addons, st);
    LoadedIsPlan(addons, enabled);
    PassKeepsLoaded(addons, 0, st);
    PassKeepsLoaded(addons, 0, first.0);
    var cut := |first.0.loaded|;
    assert first.0.loaded[0..] == first.0.loaded == r.0.loaded[..cut];
  }

  lemma PlanIsLoaded(addons: seq<Info>, enabled: set<string>, plan: seq<string>, name: string)
    requires Names(addons) && Settled(addons) && name in plan
    requires PlanInPasses(addons, enabled, plan, Load(addons, State(enabled, [])).1)
    ensures name in Load(addons, State(enabled, [])).0.loaded
  {
    hide Pass, Plan, Ready, InOrder;
    var st := State(enabled, []);
    var first := Pass(addons, 0, st);
    var cut :| 0 <= cut <= |plan| && InOrder(addons, plan[..cut], 0) && InOrder(addons, plan[cut..], 0)
               && (!first.1 ==> cut == |plan|);
    PlanEnabled(addons, enabled, plan, st);
    Slices(plan, cut);
    PlanIsReady(addons, enabled, plan, 0, cut, st);
    PassLoadsReady(addons, 0, st, plan[0..cut]);
    assert forall i | 0 <= i < cut :: plan[i] == plan[0..cut][i];
    if first.1 {
      PlanIsReady(addons, enabled, plan, cut, |plan|, first.0);
      PassLoadsReady(addons, 0, first.0, plan[cut..|plan|]);
      PassKeepsLoaded(addons, 0, first.0);
      assert forall i | cut <= i < |plan| :: plan[i] == plan[cut..|plan|][i - cut];
    }
  }

  lemma Slices(plan: seq<string>, cut: nat)
    requires cut <= |plan|
    ensures plan[0..cut] == plan[..cut] && plan[cut..|plan|] == plan[cut..]
  {
  }

  lemma PlanEnabled(addons: seq<Info>, enabled: set<string>, plan: seq<string>, st: State)
    requires Names(addons) && Settled(addons) && Plan(addons, enabled, plan) && st == State(enabled, [])
    ensures forall i | 0 <= i < |plan| :: plan[i] in enabled && plan[i] in Pass(addons, 0, st).0.enabled
  {
    forall i | 0 <= i < |plan| ensures plan[i] in enabled && plan[i] in Pass(addons, 0, st).0.enabled {
      assert PlanStep(addons, enabled, plan, i);
      var k :| 0 <= k < |addons| && addons[k].name == plan[i] && addons[k].resolves(plan[..i]) && plan[i] in enabled
               && AllKnown(addons, addons[k]) && AllIn(plan[..i], addons[k]);
      PassKeepsEnabled(addons, 0, st, k);
    }
  }

  /** An addon in front of its only dependency is not loaded, although it could be. */
  lemma LeftOut()
    ensures var addons := [Info("a", ["b"], s => true), Info("b", [], s => true)];
            && Names(addons) && Plan(addons, {"a", "b"}, ["b", "a"])
            && Load(addons, State({"a", "b"}, [])).0.loaded == ["b"]
  {
    var addons := [Info("a", ["b"], s => true), Info("b", [], s => true)];
    assert addons[0].name == "a" && addons[1].name == "b";
    var enabled := {"a", "b"};
    assert ["b"] == [] + ["b"];
    PlanGrows(addons, enabled, [], 1);
    assert ["b", "a"] == ["b"] + ["a"];
    PlanGrows(addons, enabled, ["b"], 0);
    var st := State(enabled, []);
    assert Visit(addons, addons[0], st) == (st, false) by {
      assert addons[0].dependencies[0] !in st.loaded;
    }
    assert Visit(addons, addons[1], st) == (State(enabled, ["b"]), false);
    assert Pass(addons, 2, State(enabled, ["b"])) == (State(enabled, ["b"]), false);
    assert Pass(addons, 1, st) == (State(enabled, ["b"]), false);
    assert Pass(addons, 0, st) == (State(enabled, ["b"]), false);
  }

  /**
    Without that an addon can be lost: it has no dependencies and is asked for before the addon that
    registers its resolver, which disables it, although a second pass comes by.
   */
  lemma RefusedForGood()
    ensures var addons := [Info("a", [], s => "b" in s), Info("b", [], s => true), Info("c", ["d"], s => true)];
            var enabled := {"a", "b", "c"};
            && Names(addons) && PlanInPasses(addons, enabled, ["b", "a"], Passes(addons, enabled))
            && Load(addons, State(enabled, [])).0.loaded == ["b"]
  {
    var addons := [Info("a", [], s => "b" in s), Info("b", [], s => true), Info("c", ["d"], s => true)];
    var enabled := {"a", "b", "c"};
    hide Pass, PlanInPasses, Names;
    assert addons[0].name == "a" && addons[1].name == "b" && addons[2].name == "c";
    UnknownDependency(addons);
    RefusedPlan(addons, enabled);
    RefusedFirst(addons);
    RefusedAgain(addons);
  }

  lemma RefusedFirst(addons: seq<Info>)
    requires addons == [Info("a", [], s => "b" in s), Info("b", [], s => true), Info("c", ["d"], s => true)]
    ensures Pass(addons, 0, State({"a", "b", "c"}, [])) == (State({"b"}, ["b"]), true)
  {
    var st0, st1 := State({"a", "b", "c"}, []), State({"b", "c"}, []);
    var st2, st3 := State({"b", "c"}, ["b"]), State({"b"}, ["b"]);
    UnknownDependency(addons);
    assert {"a", "b", "c"} - {"a"} == {"b", "c"} && {"b", "c"} - {"c"} == {"b"} && [] + ["b"] == ["b"];
    assert Visit(addons, addons[0], st0) == (st1, false) && Visit(addons, addons[1], st1) == (st2, false);
    assert Visit(addons, addons[2], st2) == (st3, true);
    ThreeVisits(addons, st0, st1, st2, st3);
  }

  lemma RefusedAgain(addons: seq<Info>)
    requires addons == [Info("a", [], s => "b" in s), Info("b", [], s => true), Info("c", ["d"], s => true)]
    ensures Pass(addons, 0, State({"b"}, ["b"])) == (State({"b"}, ["b"]), false)
  {
    var st := State({"b"}, ["b"]);
    assert Visit(addons, addons[0], st) == Visit(addons, addons[1], st) == Visit(addons, addons[2], st) == (st, false);
    ThreeVisits(addons, st, st, st, st);
  }

  lemma ThreeVisits(addons: seq<Info>, st0: State, st1: State, st2: State, st3: State)
    requires |addons| == 3 && Visit(addons, addons[0], st0).0 == st1
    requires Visit(addons, addons[1], st1).0 == st2 && Visit(addons, addons[2], st2).0 == st3
    ensures Pass(addons, 0, st0)
            == (st3, Visit(addons, addons[0], st0).1 || Visit(addons, addons[1], st1).1
                     || Visit(addons, addons[2], st2).1)
  {
    hide Visit;
    assert Pass(addons, 3, st3) == (st3, false);
    assert Pass(addons, 2, st2) == (st3, Visit(addons, addons[2], st2).1);
    assert Pass(addons, 1, st1) == (st3, Visit(addons, addons[1], st1).1 || Visit(addons, addons[2], st2).1);
  }

  lemma UnknownDependency(addons: seq<Info>)
    requires |addons| == 3 && addons[0].name == "a" && addons[1].name == "b" && addons[2].name == "c"
    requires addons[2].dependencies == ["d"]
    ensures !AllKnown(addons, addons[2])
  {
    assert !Known(addons, "d");
    assert addons[2].dependencies[0] == "d";
  }

  lemma RefusedPlan(addons: seq<Info>, enabled: set<string>)
    requires addons == [Info("a", [], s => "b" in s), Info("b", [], s => true), Info("c", ["d"], s => true)]
    requires enabled == {"a", "b", "c"}
    ensures Names(addons) && PlanInPasses(addons, enabled, ["b", "a"], 2)
  {
    assert addons[0].name == "a" && addons[1].name == "b" && addons[2].name == "c";
    assert ["b"] == [] + ["b"] && ["b", "a"] == ["b"] + ["a"];
    PlanGrows(addons, enabled, [], 1);
    PlanGrows(addons, enabled, ["b"], 0);
    PlaceIs(addons, 0);
    PlaceIs(addons, 1);
    assert ["b", "a"][..1] == ["b"] && ["b", "a"][1..] == ["a"];
  }

  // Unloading

  function Reversed(s: seq<string>): (r: seq<string>)
    ensures |r| == |s| && forall i | 0 <= i < |s| :: r[i] == s[|s| - 1 - i]
  {
    if s == [] then [] else Reversed(s[1..]) + [s[0]]
  }

  /** In the reverse of a plan every addon stands in front of the addons it depends on. */
  lemma ReversedPlan(addons: seq<Info>, enabled: set<string>, plan: seq<string>, k: nat, d: nat)
    requires Names(addons) && Plan(addons, enabled, plan) && k < |addons| && d < |addons[k].dependencies|
    requires addons[k].name in plan
    ensures exists i, j :: 0 <= i < j < |plan| && Reversed(plan)[i] == addons[k].name
                           && Reversed(plan)[j] == addons[k].dependencies[d]
  {
    hide Plan, Names, Reversed;
    var at :| 0 <= at < |plan| && plan[at] == addons[k].name;
    DependencyBefore(addons, enabled, plan, k, d, at);
    var e :| 0 <= e < at && plan[e] == addons[k].dependencies[d];
    var n := |plan|;
    assert Reversed(plan)[n - 1 - at] == plan[at] && Reversed(plan)[n - 1 - e] == plan[e];
  }

  lemma DependencyBefore(addons: seq<Info>, enabled: set<string>, plan: seq<string>, k: nat, d: nat, at: nat)
    requires Names(addons) && Plan(addons, enabled, plan) && k < |addons| && d < |addons[k].dependencies|
    requires at < |plan| && plan[at] == addons[k].name
    ensures exists e :: 0 <= e < at && plan[e] == addons[k].dependencies[d]
  {
    assert PlanStep(addons, enabled, plan, at);
    var k' :| 0 <= k' < |addons| && addons[k'].name == plan[at] && AllIn(plan[..at], addons[k']);
    PlaceIs(addons, k);
    PlaceIs(addons, k');
    assert addons[k].dependencies[d] in plan[..at];
    var e :| 0 <= e < at && plan[..at][e] == addons[k].dependencies[d];
  }
}

/**
  What one timeout pass of mainloop.c is meant to do, without links, cursors or reference counts:
  the list of events is cut at the cursor, new events go to its front, and a removed event leaves
  whichever side it is on. MainLoop proves that the code computes exactly this.
 */
module Timeouts {
  import opened Seqs

  type Ptr = int

  /** The address of the list head; no event lives there. */
  const HEAD: Ptr := 0

  /** The fields of a timeout event that callbacks can see; `notify` says whether it has a destroyNotify. */
  datatype Info = Info(time: int, timeout: nat, repeat: bool, notify: bool)

  /**
    What a callback may do: register an event (at whatever free address the allocator picks, with
    whatever the clock says), remove an event, or quit.
   */
  datatype Op =
    | Register(at: Ptr, timeout: nat, repeat: bool, notify: bool, clock: int)
    | Remove(p: Ptr)
    | Quit

  /** One call of a callback: what it does, and the clock afterwards. */
  datatype Turn = Turn(ops: seq<Op>, clock: int)

  datatype Effect =
    | Called(p: Ptr, repeat: bool)
    | Registered(p: Ptr, notify: bool)
    | Removed(p: Ptr)
    | Notified(p: Ptr)
    | Freed(p: Ptr)

  /** set_time_event */
  function TimeFor(timeout: nat, clock: int): int {
    if timeout == 0 then 0 else clock + timeout
  }

  datatype World = World(front: seq<Ptr>, ahead: seq<Ptr>, events: map<Ptr, Info>, quit: bool, log: seq<Effect>)

  function Minus(s: seq<Ptr>, p: Ptr): (r: seq<Ptr>)
    ensures |r| <= |s|
  {
    if s == [] then [] else if s[0] == p then Minus(s[1..], p) else [s[0]] + Minus(s[1..], p)
  }

  /** destroyNotify, when there is one, and then free. */
  function DestroyLog(p: Ptr, notify: bool): seq<Effect> {
    (if notify then [Notified(p)] else []) + [Freed(p)]
  }

  function Destroy(w: World, p: Ptr): (r: World)
    requires p in w.events
    ensures |r.ahead| <= |w.ahead|
  {
    World(Minus(w.front, p), Minus(w.ahead, p), w.events - {p}, w.quit, w.log + DestroyLog(p, w.events[p].notify))
  }

  /**
    One operation of the callback of `running`; `doomed` once that event has been removed. Operations on
    what is not there are not permitted, and left out.
   */
  function Perform(w: World, running: Ptr, doomed: bool, op: Op): (r: (World, bool))
    ensures |r.0.ahead| <= |w.ahead|
    ensures running in w.events ==> running in r.0.events && r.0.events[running] == w.events[running]
  {
    match op
    case Quit => (w.(quit := true), doomed)
    case Register(at, timeout, repeat, notify, clock) =>
      if at == HEAD || at in w.events then (w, doomed)
      else (w.(front := [at] + w.front,
               events := w.events[at := Info(TimeFor(timeout, clock), timeout, repeat, notify)],
               log := w.log + [Registered(at, notify)]), doomed)
    case Remove(p) =>
      if p !in w.events || (p == running && doomed) then (w, doomed)
      else
        var w1 := w.(log := w.log + [Removed(p)]);
        if p == running then (w1, true) else (Destroy(w1, p), doomed)
  }

  function PerformAll(w: World, running: Ptr, doomed: bool, ops: seq<Op>): (r: (World, bool))
    ensures |r.0.ahead| <= |w.ahead|
    ensures running in w.events ==> running in r.0.events && r.0.events[running] == w.events[running]
    decreases |ops|
  {
    if ops == [] then (w, doomed)
    else
      var next := Perform(w, running, doomed, ops[0]);
      PerformAll(next.0, running, next.1, ops[1..])
  }

  /** The operations of a callback are done in turn, the last one on what the others leave. */
  lemma {:induction false} LastComesLast(w: World, running: Ptr, doomed: bool, ops: seq<Op>, op: Op)
    ensures var before := PerformAll(w, running, doomed, ops);
            PerformAll(w, running, doomed, ops + [op]) == Perform(before.0, running, before.1, op)
    decreases |ops|
  {
    hide Perform;
    if ops == [] {
      assert [] + [op] == [op] && [op][1..] == [];
    } else {
      var next := Perform(w, running, doomed, ops[0]);
      LastComesLast(next.0, running, next.1, ops[1..], op);
      assert (ops + [op])[1..] == ops[1..] + [op];
    }
  }

  /** After its callback an event that was removed or does not repeat is destroyed, any other is armed again. */
  function Settle(w: World, p: Ptr, doomed: bool, clock: int): (r: World)
    requires p in w.events
    ensures |r.ahead| <= |w.ahead|
  {
    var info := w.events[p];
    if doomed || !info.repeat then Destroy(w, p)
    else w.(front := w.front + [p], events := w.events[p := info.(time := TimeFor(info.timeout, clock))])
  }

  /** The callback of the event under the cursor, with everything it causes. */
  function Fire(w: World, turn: Turn): (r: World)
    requires w.ahead != [] && w.ahead[0] in w.events
    ensures |r.ahead| < |w.ahead|
  {
    var p := w.ahead[0];
    var called := w.(ahead := w.ahead[1..], log := w.log + [Called(p, w.events[p].repeat)]);
    var done := PerformAll(called, p, false, turn.ops);
    Settle(done.0, p, done.1, turn.clock)
  }

  ghost predicate Keyed(o: seq<Ptr>, events: map<Ptr, Info>) {
    Distinct(o) && HEAD !in o && forall p :: p in events <==> p in o
  }

  ghost predicate Between(w: World) {
    Keyed(w.front + w.ahead, w.events)
  }

  /** The rest of the pass: the n-th callback from here does what `script(n)` says. */
  ghost function Walk(w: World, script: nat -> Turn, n: nat, now: int): World
    requires Between(w)
    decreases |w.ahead|
  {
    if w.ahead == [] || w.quit then w
    else
      FireKeepsBetween(w, script(n));
      var p := w.ahead[0];
      assert p in w.front + w.ahead;
      if w.events[p].time < now then
        Walk(Fire(w, script(n)), script, n + 1, now)
      else
        SkipKeepsBetween(w);
        Walk(Skip(w), script, n, now)
  }

  function Skip(w: World): World
    requires w.ahead != []
  {
    w.(front := w.front + [w.ahead[0]], ahead := w.ahead[1..])
  }

  lemma SkipKeepsBetween(w: World)
    requires Between(w) && w.ahead != []
    ensures Between(Skip(w))
  {
    assert Skip(w).front + Skip(w).ahead == w.front + w.ahead;
  }

  // Minus

  lemma {:induction false} MinusSplits(a: seq<Ptr>, b: seq<Ptr>, p: Ptr)
    ensures Minus(a + b, p) == Minus(a, p) + Minus(b, p)
  {
    if a == [] {
      assert a + b == b;
    } else {
      var h, t := a[0], a[1..];
      MinusSplits(t, b, p);
      assert (a + b)[1..] == t + b && (a + b)[0] == h;
      ConcatAssociates([h], Minus(t, p), Minus(b, p));
    }
  }

  lemma {:induction false} MinusMembers(s: seq<Ptr>, p: Ptr)
    ensures forall x :: x in Minus(s, p) <==> x in s && x != p
  {
    if s == [] {
    } else {
      MinusMembers(s[1..], p);
      assert s == [s[0]] + s[1..];
    }
  }

  lemma {:induction false} MinusAbsent(s: seq<Ptr>, p: Ptr)
    requires p !in s
    ensures Minus(s, p) == s
  {
    if s == [] {
    } else {
      MinusAbsent(s[1..], p);
    }
  }

  lemma ConsDistinct(h: Ptr, t: seq<Ptr>)
    requires h !in t && Distinct(t)
    ensures Distinct([h] + t)
  {
  }

  lemma {:induction false} MinusDistinct(s: seq<Ptr>, p: Ptr)
    requires Distinct(s)
    ensures Distinct(Minus(s, p))
  {
    if s == [] {
    } else {
      MinusDistinct(s[1..], p);
      MinusMembers(s[1..], p);
      if s[0] != p {
        ConsDistinct(s[0], Minus(s[1..], p));
      }
    }
  }

  lemma MinusMiddle(a: seq<Ptr>, x: Ptr, b: seq<Ptr>, p: Ptr)
    ensures Minus(a + [x] + b, p) == Minus(a, p) + (if x == p then [] else [x]) + Minus(b, p)
  {
    MinusSplits(a + [x], b, p);
    MinusSplits(a, [x], p);
    assert [x][1..] == [];
  }

  lemma MinusOnce(a: seq<Ptr>, x: Ptr, b: seq<Ptr>)
    requires x !in a && x !in b
    ensures Minus(a + [x] + b, x) == a + b
  {
    MinusMiddle(a, x, b, x);
    MinusAbsent(a, x);
    MinusAbsent(b, x);
    assert a + [] == a;
  }

  /** In a list without repetition, taking out the element at `k`. */
  lemma MinusAt(s: seq<Ptr>, k: nat)
    requires Distinct(s) && k < |s|
    ensures Minus(s, s[k]) == Without(s, k)
  {
    assert s == s[..k] + [s[k]] + s[k + 1..];
    MinusOnce(s[..k], s[k], s[k + 1..]);
  }

  // The list and the map of events stay in step

  lemma KeyedMinus(o: seq<Ptr>, events: map<Ptr, Info>, p: Ptr)
    requires Keyed(o, events)
    ensures Keyed(Minus(o, p), events - {p})
  {
    MinusMembers(o, p);
    MinusDistinct(o, p);
  }

  /** The whole list while the callback of `running` is on. */
  ghost predicate During(w: World, running: Ptr) {
    Keyed(w.front + [running] + w.ahead, w.events)
  }

  lemma DestroyKeepsDuring(w: World, running: Ptr, p: Ptr)
    requires During(w, running) && p in w.events && p != running
    ensures During(Destroy(w, p), running)
    ensures Minus(w.front + [running] + w.ahead, p) == Destroy(w, p).front + [running] + Destroy(w, p).ahead
  {
    KeyedMinus(w.front + [running] + w.ahead, w.events, p);
    MinusMiddle(w.front, running, w.ahead, p);
  }

  lemma DestroyRunning(w: World, running: Ptr)
    requires During(w, running)
    ensures running in w.events
    ensures Between(Destroy(w, running))
    ensures Destroy(w, running).front == w.front && Destroy(w, running).ahead == w.ahead
    ensures Minus(w.front + [running] + w.ahead, running) == w.front + w.ahead
  {
    var o := w.front + [running] + w.ahead;
    assert o[|w.front|] == running;
    DistinctMiddle(w.front, running, w.ahead);
    KeyedMinus(o, w.events, running);
    MinusOnce(w.front, running, w.ahead);
    MinusAbsent(w.front, running);
    MinusAbsent(w.ahead, running);
  }

  lemma DistinctMiddle(a: seq<Ptr>, x: Ptr, b: seq<Ptr>)
    requires Distinct(a + [x] + b)
    ensures x !in a && x !in b
  {
    var o := a + [x] + b;
    assert o[|a|] == x;
    forall i | 0 <= i < |a| ensures a[i] != x {
      assert o[i] == a[i];
    }
    forall i | 0 <= i < |b| ensures b[i] != x {
      assert o[|a| + 1 + i] == b[i];
    }
  }

  lemma RegisterKeepsKeyed(o: seq<Ptr>, events: map<Ptr, Info>, at: Ptr, info: Info)
    requires Keyed(o, events) && at != HEAD && at !in events
    ensures Keyed([at] + o, events[at := info])
  {
  }

  lemma PerformKeepsDuring(w: World, running: Ptr, doomed: bool, op: Op)
    requires During(w, running)
    ensures During(Perform(w, running, doomed, op).0, running)
  {
    match op
    case Quit =>
    case Register(at, timeout, repeat, notify, clock) =>
      if at != HEAD && at !in w.events {
        var info := Info(TimeFor(timeout, clock), timeout, repeat, notify);
        RegisterKeepsKeyed(w.front + [running] + w.ahead, w.events, at, info);
        assert [at] + (w.front + [running] + w.ahead) == [at] + w.front + [running] + w.ahead;
      }
    case Remove(p) =>
      if p in w.events && p != running {
        DestroyKeepsDuring(w.(log := w.log + [Removed(p)]), running, p);
      }
  }

  lemma {:induction false} PerformAllKeepsDuring(w: World, running: Ptr, doomed: bool, ops: seq<Op>)
    requires During(w, running)
    ensures During(PerformAll(w, running, doomed, ops).0, running)
    decreases |ops|
  {
    if ops == [] {
    } else {
      var next := Perform(w, running, doomed, ops[0]);
      PerformKeepsDuring(w, running, doomed, ops[0]);
      PerformAllKeepsDuring(next.0, running, next.1, ops[1..]);
    }
  }

  lemma SettleKeepsBetween(w: World, p: Ptr, doomed: bool, clock: int)
    requires During(w, p)
    ensures p in w.events && Between(Settle(w, p, doomed, clock))
  {
    DestroyRunning(w, p);
    var o := w.front + [p] + w.ahead;
    assert forall x :: x in w.events[p := w.events[p].(time := TimeFor(w.events[p].timeout, clock))] <==> x in o;
  }

  lemma FireKeepsBetween(w: World, turn: Turn)
    requires Between(w) && w.ahead != []
    ensures w.ahead[0] in w.events && Between(Fire(w, turn))
  {
    var p := w.ahead[0];
    assert p in w.front + w.ahead;
    var called := w.(ahead := w.ahead[1..], log := w.log + [Called(p, w.events[p].repeat)]);
    assert called.front + [p] + called.ahead == w.front + w.ahead;
    PerformAllKeepsDuring(called, p, false, turn.ops);
    var done := PerformAll(called, p, false, turn.ops);
    SettleKeepsBetween(done.0, p, done.1, turn.clock);
  }
}

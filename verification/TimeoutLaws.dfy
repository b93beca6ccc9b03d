/**
  What holds of every timeout pass, whatever the callbacks do: the pass is replayed on a ledger
  that knows, of each address, whether an event lives there and what may still happen to it.
 */
module TimeoutLaws {
  import opened Timeouts

  /**
    Waiting: in the list since the pass began, not called and not removed. Settled: called and armed
    again, or registered during the pass. Doomed: removed, or called and not repeating; it has to be
    freed, after its notification if one is owed.
   */
  datatype Status = Waiting(notify: bool) | Settled(notify: bool) | Doomed(notify: bool)

  datatype Ledger = Fault | Fine(m: map<Ptr, Status>)

  /** Only a waiting event may be called, only a doomed one notified or freed, each at most once. */
  function Step(m: map<Ptr, Status>, e: Effect): Ledger {
    match e
    case Called(p, repeat) =>
      if p in m && m[p].Waiting? then Fine(m[p := if repeat then Settled(m[p].notify) else Doomed(m[p].notify)])
      else Fault
    case Registered(p, notify) => if p !in m then Fine(m[p := Settled(notify)]) else Fault
    case Removed(p) => if p in m then Fine(m[p := Doomed(m[p].notify)]) else Fault
    case Notified(p) => if p in m && m[p] == Doomed(true) then Fine(m[p := Doomed(false)]) else Fault
    case Freed(p) => if p in m && m[p] == Doomed(false) then Fine(m - {p}) else Fault
  }

  function Replay(m: map<Ptr, Status>, log: seq<Effect>): Ledger {
    if log == [] then Fine(m)
    else
      var before := Replay(m, log[..|log| - 1]);
      if before.Fault? then Fault else Step(before.m, log[|log| - 1])
  }

  /** The ledger when a pass begins. */
  function Opening(events: map<Ptr, Info>): map<Ptr, Status> {
    map p | p in events :: Waiting(events[p].notify)
  }

  /** The ledger agrees with the world while `running` (HEAD for none) is in its callback. */
  ghost predicate Tracks(l: Ledger, w: World, now: int, running: Ptr, doomed: bool) {
    && l.Fine? && l.m.Keys == w.events.Keys
    && (forall p | p in l.m :: l.m[p].notify == w.events[p].notify)
    && (forall p | p in l.m && p in w.ahead :: l.m[p].Waiting?)
    && (forall p | p in l.m && p in w.front :: !l.m[p].Doomed? && (l.m[p].Waiting? ==> now <= w.events[p].time))
    && (running in l.m ==> if doomed || !w.events[running].repeat then l.m[running].Doomed? else l.m[running].Settled?)
  }

  lemma ReplayOne(m: map<Ptr, Status>, log: seq<Effect>, e: Effect)
    ensures Replay(m, log + [e]) == if Replay(m, log).Fault? then Fault else Step(Replay(m, log).m, e)
  {
    assert (log + [e])[..|log|] == log;
  }

  /** Freeing a doomed event, with its notification if one is owed. */
  lemma ReplayDestroy(m: map<Ptr, Status>, log: seq<Effect>, p: Ptr)
    requires Replay(m, log).Fine? && p in Replay(m, log).m && Replay(m, log).m[p].Doomed?
    ensures Replay(m, log + DestroyLog(p, Replay(m, log).m[p].notify)) == Fine(Replay(m, log).m - {p})
  {
    var l := Replay(m, log).m;
    if l[p].notify {
      ReplayOne(m, log, Notified(p));
      ReplayOne(m, log + [Notified(p)], Freed(p));
      assert log + DestroyLog(p, true) == log + [Notified(p)] + [Freed(p)];
      assert l[p := Doomed(false)] - {p} == l - {p};
    } else {
      ReplayOne(m, log, Freed(p));
      assert log + DestroyLog(p, false) == log + [Freed(p)];
    }
  }

  lemma RegisterTracks(m: map<Ptr, Status>, w: World, now: int, running: Ptr, doomed: bool, at: Ptr, info: Info)
    requires During(w, running) && Tracks(Replay(m, w.log), w, now, running, doomed) && at != HEAD && at !in w.events
    ensures var w1 := w.(front := [at] + w.front, events := w.events[at := info],
                         log := w.log + [Registered(at, info.notify)]);
            Tracks(Replay(m, w1.log), w1, now, running, doomed)
  {
    ReplayOne(m, w.log, Registered(at, info.notify));
    var o := w.front + [running] + w.ahead;
    assert o[|w.front|] == running && at !in o;
    forall i | 0 <= i < |w.ahead| ensures w.ahead[i] != at {
      assert o[|w.front| + 1 + i] == w.ahead[i];
    }
  }

  lemma RemoveRunningTracks(m: map<Ptr, Status>, w: World, now: int, running: Ptr)
    requires During(w, running) && Tracks(Replay(m, w.log), w, now, running, false)
    ensures var w1 := w.(log := w.log + [Removed(running)]); Tracks(Replay(m, w1.log), w1, now, running, true)
  {
    ReplayOne(m, w.log, Removed(running));
    var o := w.front + [running] + w.ahead;
    assert o[|w.front|] == running;
    DistinctMiddle(w.front, running, w.ahead);
  }

  lemma PerformTracks(m: map<Ptr, Status>, w: World, now: int, running: Ptr, doomed: bool, op: Op)
    requires During(w, running) && Tracks(Replay(m, w.log), w, now, running, doomed)
    ensures var r := Perform(w, running, doomed, op); Tracks(Replay(m, r.0.log), r.0, now, running, r.1)
  {
    match op
    case Quit =>
    case Register(at, timeout, repeat, notify, clock) =>
      if at != HEAD && at !in w.events {
        RegisterTracks(m, w, now, running, doomed, at, Info(TimeFor(timeout, clock), timeout, repeat, notify));
      }
    case Remove(p) =>
      if p in w.events && !(p == running && doomed) {
        if p == running {
          RemoveRunningTracks(m, w, now, running);
        } else {
          DestroyTracks(m, w, now, running, doomed, p);
        }
      }
  }

  lemma DestroyTracks(m: map<Ptr, Status>, w: World, now: int, running: Ptr, doomed: bool, p: Ptr)
    requires During(w, running) && Tracks(Replay(m, w.log), w, now, running, doomed) && p in w.events && p != running
    ensures var w1 := w.(log := w.log + [Removed(p)]);
            Tracks(Replay(m, Destroy(w1, p).log), Destroy(w1, p), now, running, doomed)
  {
    var w1 := w.(log := w.log + [Removed(p)]);
    ReplayOne(m, w.log, Removed(p));
    ReplayDestroy(m, w1.log, p);
    MinusMembers(w.front, p);
    MinusMembers(w.ahead, p);
  }

  lemma {:induction false} PerformAllTracks(m: map<Ptr, Status>, w: World, now: int, running: Ptr, doomed: bool,
                                            ops: seq<Op>)
    requires During(w, running) && Tracks(Replay(m, w.log), w, now, running, doomed)
    ensures var r := PerformAll(w, running, doomed, ops); Tracks(Replay(m, r.0.log), r.0, now, running, r.1)
    decreases |ops|
  {
    if ops == [] {
    } else {
      var next := Perform(w, running, doomed, ops[0]);
      PerformTracks(m, w, now, running, doomed, ops[0]);
      PerformKeepsDuring(w, running, doomed, ops[0]);
      PerformAllTracks(m, next.0, now, running, next.1, ops[1..]);
    }
  }

  lemma SettleTracks(m: map<Ptr, Status>, w: World, now: int, p: Ptr, doomed: bool, clock: int)
    requires During(w, p) && Tracks(Replay(m, w.log), w, now, p, doomed)
    ensures p in w.events
    ensures var r := Settle(w, p, doomed, clock); Tracks(Replay(m, r.log), r, now, HEAD, false)
  {
    var o := w.front + [p] + w.ahead;
    assert o[|w.front|] == p;
    assert HEAD !in o && HEAD !in w.events;
    if doomed || !w.events[p].repeat {
      ReplayDestroy(m, w.log, p);
      MinusMembers(w.front, p);
      MinusMembers(w.ahead, p);
    }
  }

  lemma FireTracks(m: map<Ptr, Status>, w: World, now: int, turn: Turn)
    requires Between(w) && w.ahead != [] && w.ahead[0] in w.events && Tracks(Replay(m, w.log), w, now, HEAD, false)
    ensures var r := Fire(w, turn); Tracks(Replay(m, r.log), r, now, HEAD, false)
  {
    var p := w.ahead[0];
    var called := w.(ahead := w.ahead[1..], log := w.log + [Called(p, w.events[p].repeat)]);
    assert called.front + [p] + called.ahead == w.front + w.ahead;
    ReplayOne(m, w.log, Called(p, w.events[p].repeat));
    CalledTracks(m, w, now);
    PerformAllTracks(m, called, now, p, false, turn.ops);
    PerformAllKeepsDuring(called, p, false, turn.ops);
    var done := PerformAll(called, p, false, turn.ops);
    SettleTracks(m, done.0, now, p, done.1, turn.clock);
  }

  lemma CalledTracks(m: map<Ptr, Status>, w: World, now: int)
    requires Between(w) && w.ahead != [] && w.ahead[0] in w.events && Tracks(Replay(m, w.log), w, now, HEAD, false)
    ensures var p := w.ahead[0];
            var called := w.(ahead := w.ahead[1..], log := w.log + [Called(p, w.events[p].repeat)]);
            Tracks(Replay(m, called.log), called, now, p, false)
  {
    var p := w.ahead[0];
    ReplayOne(m, w.log, Called(p, w.events[p].repeat));
    assert w.front + w.ahead == w.front + [p] + w.ahead[1..];
    DistinctMiddle(w.front, p, w.ahead[1..]);
    assert w.ahead == [p] + w.ahead[1..];
  }

  lemma SkipTracks(l: Ledger, w: World, now: int)
    requires Between(w) && w.ahead != [] && w.ahead[0] in w.events && Tracks(l, w, now, HEAD, false)
    requires now <= w.events[w.ahead[0]].time
    ensures Tracks(l, Skip(w), now, HEAD, false)
  {
    assert forall p | p in w.ahead[1..] :: p in w.ahead;
  }

  lemma {:induction false} WalkTracks(m: map<Ptr, Status>, w: World, script: nat -> Turn, n: nat, now: int)
    requires Between(w) && Tracks(Replay(m, w.log), w, now, HEAD, false)
    ensures var r := Walk(w, script, n, now);
            Between(r) && Tracks(Replay(m, r.log), r, now, HEAD, false) && (r.quit || r.ahead == [])
    decreases |w.ahead|
  {
    if w.ahead == [] || w.quit {
    } else {
      FireKeepsBetween(w, script(n));
      if w.events[w.ahead[0]].time < now {
        FireTracks(m, w, now, script(n));
        WalkTracks(m, Fire(w, script(n)), script, n + 1, now);
      } else {
        SkipKeepsBetween(w);
        SkipTracks(Replay(m, w.log), w, now);
        WalkTracks(m, Skip(w), script, n, now);
      }
    }
  }

  /** The pass from its beginning. */
  ghost function Pass(order: seq<Ptr>, events: map<Ptr, Info>, quit: bool, script: nat -> Turn, now: int): World
    requires Keyed(order, events)
  {
    assert [] + order == order;
    Walk(World([], order, events, quit, []), script, 0, now)
  }

  /**
    For every list, every clock and all callbacks: nothing freed or removed is called, nothing
    registered during the pass is called, nothing is called, notified or freed twice, every removed
    event and every one-shot that was called has been notified (if it asked to be) and freed by the
    end, and an event that was neither is still there; unless the pass was quit it was not due.
   */
  lemma PassIsSafe(order: seq<Ptr>, events: map<Ptr, Info>, quit: bool, script: nat -> Turn, now: int)
    requires Keyed(order, events)
    ensures var r := Pass(order, events, quit, script, now);
            var l := Replay(Opening(events), r.log);
            && l.Fine? && l.m.Keys == r.events.Keys
            && (forall p | p in l.m :: !l.m[p].Doomed?)
            && (!r.quit ==> forall p | p in l.m && l.m[p].Waiting? :: now <= r.events[p].time)
  {
    assert [] + order == order;
    var w := World([], order, events, quit, []);
    WalkTracks(Opening(events), w, script, 0, now);
    var r := Pass(order, events, quit, script, now);
    var l := Replay(Opening(events), r.log);
    forall p | p in l.m ensures !l.m[p].Doomed? && (!r.quit && l.m[p].Waiting? ==> now <= r.events[p].time) {
      assert p in r.front + r.ahead;
    }
  }

  /** A pass over events none of which is due calls nothing and changes nothing. */
  lemma {:induction false} NothingDue(w: World, script: nat -> Turn, n: nat, now: int)
    requires Between(w) && forall p | p in w.events :: now <= w.events[p].time
    ensures var r := Walk(w, script, n, now);
            r.front + r.ahead == w.front + w.ahead && r.events == w.events && r.quit == w.quit && r.log == w.log
    decreases |w.ahead|
  {
    if w.ahead == [] || w.quit {
    } else {
      assert w.ahead[0] in w.front + w.ahead;
      SkipKeepsBetween(w);
      NothingDue(Skip(w), script, n, now);
      assert Skip(w).front + Skip(w).ahead == w.front + w.ahead;
    }
  }
}

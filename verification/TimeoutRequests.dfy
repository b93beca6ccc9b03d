/**
  That a timeout pass does what its callbacks ask, and in which order it calls them, told from its log.
 */
module TimeoutRequests {
  import opened Timeouts
  import opened TimeoutLaws
  import opened TimeoutFates

  /**
    What the log shows of an operation of callback number `k`: an address it registers holds an event, from
    before or from a registration; an event it removes, from before or from an earlier callback, gets freed.
   */
  ghost predicate Granted(was: map<Ptr, Info>, log: seq<Effect>, k: nat, op: Op) {
    match op
    case Quit => true
    case Register(at, _, _, _, _) => at == HEAD || at in was || !Unregistered(log, at)
    case Remove(p) =>
      && (p in was ==> !Unfreed(log, p, 0))
      && forall i | 0 <= i < |log| && log[i].Registered? && log[i].p == p && CallsBefore(log, i) <= k ::
           !Unfreed(log, p, i)
  }

  // Counting calls

  lemma {:induction false} CallsMonotone(log: seq<Effect>, i: nat, j: nat)
    requires i <= j <= |log|
    ensures CallsBefore(log, i) <= CallsBefore(log, j)
  {
    if i == j {
    } else {
      CallsMonotone(log, i, j - 1);
    }
  }

  /** A granted operation stays granted in a longer log. */
  lemma GrantedLater(was: map<Ptr, Info>, log: seq<Effect>, more: seq<Effect>, k: nat, op: Op)
    requires Granted(was, log, k, op) && k < CallsBefore(log, |log|)
    ensures Granted(was, log + more, k, op)
  {
    var l := log + more;
    forall p, i: nat | !Unfreed(log, p, i) ensures !Unfreed(l, p, i) {
      var j :| i <= j < |log| && log[j] == Freed(p);
      assert l[j] == Freed(p);
    }
    match op
    case Quit =>
    case Register(at, _, _, _, _) =>
      if !Unregistered(log, at) {
        var j :| 0 <= j < |log| && log[j].Registered? && log[j].p == at;
        assert l[j] == log[j];
      }
    case Remove(p) =>
      forall i | 0 <= i < |l| && l[i].Registered? && l[i].p == p && CallsBefore(l, i) <= k ensures !Unfreed(l, p, i) {
        if i < |log| {
          CallsBeforePrefix(log, more, i);
        } else {
          CallsMonotone(l, |log|, i);
          CallsBeforePrefix(log, more, |log|);
        }
      }
  }

  // One callback

  /** An event of before, or of a registration, that has not been freed since is there. */
  lemma StillThere(was: map<Ptr, Info>, w: World, script: nat -> Turn, now: int, running: Ptr, p: Ptr)
    requires Told(was, w, script, now, running)
    ensures p in was && Unfreed(w.log, p, 0) ==> p in w.events
    ensures forall i | 0 <= i < |w.log| && w.log[i].Registered? && w.log[i].p == p && Unfreed(w.log, p, i) ::
              p in w.events
  {
    if p in was && Unfreed(w.log, p, 0) && !Uncalled(w.log, p) {
      var j :| 0 <= j < |w.log| && w.log[j].Called? && w.log[j].p == p;
      assert CallAt(was, w.events, w.log, script, now, running, j);
    }
    forall i | 0 <= i < |w.log| && w.log[i].Registered? && w.log[i].p == p && Unfreed(w.log, p, i)
      ensures p in w.events
    {
      assert RegistrationAt(w.events, w.log, script, i);
    }
  }

  /** `log'` is a later log in which `op` of callback `k` is granted, but for what settling `running` will do. */
  ghost predicate Handled(was: map<Ptr, Info>, log: seq<Effect>, running: Ptr, doomed: bool, k: nat, op: Op) {
    Granted(was, log, k, op) || (doomed && op == Remove(running))
  }

  lemma PerformHandles(was: map<Ptr, Info>, w: World, script: nat -> Turn, now: int, running: Ptr, doomed: bool, k: nat,
                       op: Op)
    requires Told(was, w, script, now, running) && running in w.events
    requires CallsBefore(w.log, |w.log|) == k + 1 && op in script(k).ops
    ensures var r := Perform(w, running, doomed, op);
            && Handled(was, r.0.log, running, r.1, k, op) && (doomed ==> r.1)
            && (r.0.quit <==> w.quit || op == Quit)
  {
    match op
    case Quit =>
    case Register(at, timeout, repeat, notify, clock) =>
      if at != HEAD && at !in w.events {
        UnregisteredOne(w.log, Registered(at, notify), at);
      }
    case Remove(p) =>
      if p !in w.events {
        StillThere(was, w, script, now, running, p);
      } else if p != running {
        FreedLast(w.log + [Removed(p)], p, w.events[p].notify);
      }
  }

  /** After destroying it, no entry leaves `p` unfreed. */
  lemma FreedLast(log: seq<Effect>, p: Ptr, notify: bool)
    ensures forall i | 0 <= i < |log + DestroyLog(p, notify)| :: !Unfreed(log + DestroyLog(p, notify), p, i)
  {
    var l := log + DestroyLog(p, notify);
    assert l[|l| - 1] == Freed(p);
  }

  ghost predicate AllHandled(was: map<Ptr, Info>, log: seq<Effect>, running: Ptr, doomed: bool, k: nat, ops: seq<Op>) {
    forall i | 0 <= i < |ops| :: Handled(was, log, running, doomed, k, ops[i])
  }

  lemma {:induction false} PerformAllHandles(was: map<Ptr, Info>, w: World, script: nat -> Turn, now: int, running: Ptr,
                                             doomed: bool, k: nat, ops: seq<Op>)
    requires Told(was, w, script, now, running) && running in w.events
    requires CallsBefore(w.log, |w.log|) == k + 1 && forall op | op in ops :: op in script(k).ops
    ensures var r := PerformAll(w, running, doomed, ops);
            && AllHandled(was, r.0.log, running, r.1, k, ops) && (doomed ==> r.1)
            && (r.0.quit <==> w.quit || Quit in ops)
    decreases |ops|
  {
    if ops == [] {
    } else {
      hide Told, Perform, Adds, Handled, AllHandled, CallsBefore;
      var next := Perform(w, running, doomed, ops[0]);
      assert ops[0] in ops && forall op | op in ops[1..] :: op in ops;
      PerformTold(was, w, script, now, running, doomed, ops[0]);
      PerformHandles(was, w, script, now, running, doomed, k, ops[0]);
      AddsNoCalls(w.log, next.0.log, running);
      PerformAllHandles(was, next.0, script, now, running, next.1, k, ops[1..]);
      PerformAllTold(was, next.0, script, now, running, next.1, ops[1..]);
      var r := PerformAll(next.0, running, next.1, ops[1..]);
      AllHandledFirst(was, next.0.log, r.0.log, running, next.1, r.1, k, ops);
      QuitFirst(ops);
    }
  }

  lemma QuitFirst(ops: seq<Op>)
    requires ops != []
    ensures Quit in ops <==> ops[0] == Quit || Quit in ops[1..]
  {
    assert ops == [ops[0]] + ops[1..];
  }

  lemma AllHandledFirst(was: map<Ptr, Info>, log: seq<Effect>, log': seq<Effect>, running: Ptr, doomed: bool,
                        doomed': bool, k: nat, ops: seq<Op>)
    requires ops != [] && Handled(was, log, running, doomed, k, ops[0]) && (doomed ==> doomed')
    requires Adds(log, log', running) && CallsBefore(log, |log|) == k + 1
    requires AllHandled(was, log', running, doomed', k, ops[1..])
    ensures AllHandled(was, log', running, doomed', k, ops)
  {
    hide Handled;
    HandledLater(was, log, log', running, doomed, doomed', k, ops[0]);
    forall i | 0 <= i < |ops| ensures Handled(was, log', running, doomed', k, ops[i]) {
      if i > 0 {
        assert ops[1..][i - 1] == ops[i];
      }
    }
  }

  lemma HandledLater(was: map<Ptr, Info>, log: seq<Effect>, log': seq<Effect>, running: Ptr, doomed: bool,
                     doomed': bool, k: nat, op: Op)
    requires Handled(was, log, running, doomed, k, op) && (doomed ==> doomed')
    requires Adds(log, log', running) && CallsBefore(log, |log|) == k + 1
    ensures Handled(was, log', running, doomed', k, op)
  {
    hide Granted;
    AddsIs(log, log', running);
    if Granted(was, log, k, op) {
      GrantedLater(was, log, log'[|log|..], k, op);
    }
  }

  lemma AddsIs(log: seq<Effect>, log': seq<Effect>, running: Ptr)
    requires Adds(log, log', running)
    ensures |log| <= |log'| && log' == log + log'[|log|..]
  {
  }

  // The pass

  /** The operations of all `n` callbacks so far are granted, and only the last of them may have quit. */
  ghost predicate Obeyed(was: map<Ptr, Info>, w: World, script: nat -> Turn, n: nat, quit: bool) {
    && CallsBefore(w.log, |w.log|) == n
    && (forall k: nat, op | k < n && op in script(k).ops :: Granted(was, w.log, k, op))
    && (w.quit <==> quit || exists k: nat :: k < n && Quit in script(k).ops)
    && (forall k: nat | k + 1 < n :: Quit !in script(k).ops)
    && (quit ==> n == 0)
  }

  lemma FireObeys(was: map<Ptr, Info>, w: World, script: nat -> Turn, n: nat, now: int, quit: bool)
    requires Told(was, w, script, now, HEAD) && Between(w) && w.ahead != [] && w.ahead[0] in w.events
    requires w.events[w.ahead[0]].time < now && Obeyed(was, w, script, n, quit) && !w.quit
    ensures Obeyed(was, Fire(w, script(n)), script, n + 1, quit)
  {
    hide Told, PerformAll, Minus, CalledOnce, Adds, Granted, Destroy;
    var p := w.ahead[0];
    var called := w.(ahead := w.ahead[1..], log := w.log + [Called(p, w.events[p].repeat)]);
    CallTold(was, w, script, now);
    PerformAllTold(was, called, script, now, p, false, script(n).ops);
    PerformAllHandles(was, called, script, now, p, false, n, script(n).ops);
    var done := PerformAll(called, p, false, script(n).ops);
    AddsIs(called.log, done.0.log, p);
    var r := Fire(w, script(n));
    FireTold(was, w, script, now, n);
    FireLog(w, script(n));
    forall k: nat, op | k <= n && op in script(k).ops ensures Granted(was, r.log, k, op) {
      if k < n {
        GrantedLater(was, w.log, r.log[|w.log|..], k, op);
      } else {
        var i :| 0 <= i < |script(n).ops| && script(n).ops[i] == op;
        assert Handled(was, done.0.log, p, done.1, n, script(n).ops[i]);
        AddsNoCalls(called.log, done.0.log, p);
        SettleGrants(was, done.0, p, done.1, n, script(n).clock, op);
      }
    }
    FireQuits(w, script(n));
  }

  lemma FireQuits(w: World, turn: Turn)
    requires w.ahead != [] && w.ahead[0] in w.events
    ensures var p := w.ahead[0];
            var called := w.(ahead := w.ahead[1..], log := w.log + [Called(p, w.events[p].repeat)]);
            Fire(w, turn).quit == PerformAll(called, p, false, turn.ops).0.quit
  {
    hide PerformAll, Minus;
  }

  /** What was left to settling is granted by it. */
  lemma SettleGrants(was: map<Ptr, Info>, w: World, p: Ptr, doomed: bool, n: nat, clock: int, op: Op)
    requires p in w.events && Handled(was, w.log, p, doomed, n, op) && n < CallsBefore(w.log, |w.log|)
    ensures Granted(was, Settle(w, p, doomed, clock).log, n, op)
  {
    hide Granted, Minus;
    var r := Settle(w, p, doomed, clock);
    if Granted(was, w.log, n, op) {
      assert r.log == w.log + r.log[|w.log|..];
      GrantedLater(was, w.log, r.log[|w.log|..], n, op);
    } else {
      RemovedRunning(was, w, p, n);
    }
  }

  lemma RemovedRunning(was: map<Ptr, Info>, w: World, p: Ptr, n: nat)
    requires p in w.events
    ensures Granted(was, Destroy(w, p).log, n, Remove(p))
  {
    FreedLast(w.log, p, w.events[p].notify);
  }

  /** The log only grows. */
  lemma FireLog(w: World, turn: Turn)
    requires w.ahead != [] && w.ahead[0] in w.events
    requires var p := w.ahead[0];
             var called := w.(ahead := w.ahead[1..], log := w.log + [Called(p, w.events[p].repeat)]);
             called.log <= PerformAll(called, p, false, turn.ops).0.log
    ensures var p := w.ahead[0];
            var called := w.(ahead := w.ahead[1..], log := w.log + [Called(p, w.events[p].repeat)]);
            var done := PerformAll(called, p, false, turn.ops).0;
            var r := Fire(w, turn);
            && |w.log| <= |done.log| <= |r.log|
            && r.log == w.log + r.log[|w.log|..] && r.log == done.log + r.log[|done.log|..]
  {
    hide PerformAll, Minus;
    var p := w.ahead[0];
    var called := w.(ahead := w.ahead[1..], log := w.log + [Called(p, w.events[p].repeat)]);
    var done := PerformAll(called, p, false, turn.ops).0;
    var r := Fire(w, turn);
    assert done.log <= r.log;
    assert w.log <= called.log <= done.log <= r.log;
  }

  lemma ObeyedCount(was: map<Ptr, Info>, w: World, script: nat -> Turn, n: nat, quit: bool)
    requires Obeyed(was, w, script, n, quit)
    ensures CallsBefore(w.log, |w.log|) == n
  {
  }

  lemma SkipObeys(was: map<Ptr, Info>, w: World, script: nat -> Turn, n: nat, now: int, quit: bool)
    requires Told(was, w, script, now, HEAD) && Obeyed(was, w, script, n, quit) && w.ahead != []
    ensures Told(was, Skip(w), script, now, HEAD) && Obeyed(was, Skip(w), script, n, quit)
  {
    hide Fates, Granted;
  }

  lemma {:induction false} WalkObeys(was: map<Ptr, Info>, w: World, script: nat -> Turn, n: nat, now: int, quit: bool)
    requires Between(w) && Told(was, w, script, now, HEAD) && Obeyed(was, w, script, n, quit)
    ensures var r := Walk(w, script, n, now); Obeyed(was, r, script, CallsBefore(r.log, |r.log|), quit)
    decreases |w.ahead|
  {
    hide Told, Obeyed, Fire, Keyed, CallsBefore;
    if w.ahead == [] || w.quit {
      ObeyedCount(was, w, script, n, quit);
    } else {
      FireKeepsBetween(w, script(n));
      ObeyedCount(was, w, script, n, quit);
      if w.events[w.ahead[0]].time < now {
        FireTold(was, w, script, now, n);
        FireObeys(was, w, script, n, now, quit);
        WalkObeys(was, Fire(w, script(n)), script, n + 1, now, quit);
      } else {
        SkipKeepsBetween(w);
        SkipObeys(was, w, script, n, now, quit);
        WalkObeys(was, Skip(w), script, n, now, quit);
      }
    }
  }

  /**
    For every list, every clock and all callbacks: every operation of every callback that was on is done, the
    loop is left as quit exactly if it was or a callback said so, and after that there is no further call.
   */
  lemma PassObeys(order: seq<Ptr>, events: map<Ptr, Info>, quit: bool, script: nat -> Turn, now: int)
    requires Keyed(order, events)
    ensures var r := Pass(order, events, quit, script, now);
            var calls := CallsBefore(r.log, |r.log|);
            && (forall k: nat, op | k < calls && op in script(k).ops :: Granted(events, r.log, k, op))
            && (r.quit <==> quit || exists k: nat :: k < calls && Quit in script(k).ops)
            && (forall k: nat | k + 1 < calls :: Quit !in script(k).ops)
            && (quit ==> calls == 0)
  {
    assert [] + order == order;
    WalkObeys(events, World([], order, events, quit, []), script, 0, now, quit);
  }

  // The order of the calls

  /** `p` stands before `q` in the list. */
  ghost predicate Precedes(order: seq<Ptr>, p: Ptr, q: Ptr) {
    exists i, j :: 0 <= i < j < |order| && order[i] == p && order[j] == q
  }

  ghost predicate InOrder(order: seq<Ptr>, s: seq<Ptr>) {
    forall i, j | 0 <= i < j < |s| :: Precedes(order, s[i], s[j])
  }

  /** The calls so far are in the order of the list, and so is what lies ahead, behind all of them. */
  ghost predicate Queued(order: seq<Ptr>, w: World) {
    && InOrder(order, w.ahead)
    && (forall i, j | 0 <= i < j < |w.log| && w.log[i].Called? && w.log[j].Called? ::
          Precedes(order, w.log[i].p, w.log[j].p))
    && forall i, p | 0 <= i < |w.log| && w.log[i].Called? && p in w.ahead :: Precedes(order, w.log[i].p, p)
  }

  lemma {:induction false} MinusInOrder(order: seq<Ptr>, s: seq<Ptr>, p: Ptr)
    requires InOrder(order, s)
    ensures InOrder(order, Minus(s, p))
  {
    if s == [] {
    } else {
      hide Precedes;
      var t := s[1..];
      MinusInOrder(order, t, p);
      MinusMembers(t, p);
      var m := Minus(t, p);
      forall j | 0 <= j < |m| ensures Precedes(order, s[0], m[j]) {
        assert m[j] in m && m[j] in t;
        var k :| 0 <= k < |t| && t[k] == m[j];
        assert s[k + 1] == m[j];
      }
    }
  }

  lemma DestroyQueued(order: seq<Ptr>, w: World, p: Ptr)
    requires Queued(order, w) && p in w.events
    ensures Queued(order, Destroy(w, p))
  {
    hide Precedes, InOrder;
    MinusInOrder(order, w.ahead, p);
    MinusMembers(w.ahead, p);
    QueuedLater(order, w, DestroyLog(p, w.events[p].notify), Minus(w.ahead, p));
  }

  /** Entries other than calls, and less ahead. */
  lemma QueuedLater(order: seq<Ptr>, w: World, more: seq<Effect>, ahead: seq<Ptr>)
    requires Queued(order, w) && (forall i | 0 <= i < |more| :: !more[i].Called?)
    requires InOrder(order, ahead) && forall p | p in ahead :: p in w.ahead
    ensures Queued(order, w.(ahead := ahead, log := w.log + more))
  {
    hide Precedes, InOrder;
    var log := w.log + more;
    forall i | |w.log| <= i < |log| ensures !log[i].Called? {
      assert log[i] == more[i - |w.log|];
    }
  }

  lemma QueuedWith(order: seq<Ptr>, w: World, w': World)
    requires Queued(order, w) && w'.ahead == w.ahead && w'.log == w.log
    ensures Queued(order, w')
  {
  }

  lemma PerformQueued(order: seq<Ptr>, w: World, running: Ptr, doomed: bool, op: Op)
    requires Queued(order, w)
    ensures Queued(order, Perform(w, running, doomed, op).0)
  {
    hide Queued, InOrder;
    var r := Perform(w, running, doomed, op).0;
    assert InOrder(order, w.ahead) by {
      QueuedInOrder(order, w);
    }
    match op
    case Quit =>
      QueuedWith(order, w, r);
    case Register(at, timeout, repeat, notify, clock) =>
      QueuedLater(order, w, [Registered(at, notify)], w.ahead);
      QueuedWith(order, if at == HEAD || at in w.events then w else w.(log := w.log + [Registered(at, notify)]), r);
    case Remove(p) =>
      QueuedLater(order, w, [Removed(p)], w.ahead);
      if p in w.events && p != running {
        DestroyQueued(order, w.(log := w.log + [Removed(p)]), p);
      }
  }

  lemma QueuedInOrder(order: seq<Ptr>, w: World)
    requires Queued(order, w)
    ensures InOrder(order, w.ahead)
  {
  }

  lemma {:induction false} PerformAllQueued(order: seq<Ptr>, w: World, running: Ptr, doomed: bool, ops: seq<Op>)
    requires Queued(order, w)
    ensures Queued(order, PerformAll(w, running, doomed, ops).0)
    decreases |ops|
  {
    if ops == [] {
    } else {
      hide Queued, Perform;
      var next := Perform(w, running, doomed, ops[0]);
      PerformQueued(order, w, running, doomed, ops[0]);
      PerformAllQueued(order, next.0, running, next.1, ops[1..]);
    }
  }

  lemma CallQueued(order: seq<Ptr>, w: World)
    requires Queued(order, w) && w.ahead != [] && w.ahead[0] in w.events
    ensures Queued(order, w.(ahead := w.ahead[1..], log := w.log + [Called(w.ahead[0], w.events[w.ahead[0]].repeat)]))
  {
    hide Precedes;
    var p := w.ahead[0];
    var log := w.log + [Called(p, w.events[p].repeat)];
    assert p in w.ahead;
    forall q | q in w.ahead[1..] ensures q in w.ahead && Precedes(order, p, q) {
      var k :| 0 <= k < |w.ahead[1..]| && w.ahead[1..][k] == q;
      assert w.ahead[k + 1] == q;
    }
  }

  lemma FireQueued(order: seq<Ptr>, w: World, turn: Turn)
    requires Queued(order, w) && w.ahead != [] && w.ahead[0] in w.events
    ensures Queued(order, Fire(w, turn))
  {
    hide Queued, PerformAll, Minus;
    var p := w.ahead[0];
    var called := w.(ahead := w.ahead[1..], log := w.log + [Called(p, w.events[p].repeat)]);
    CallQueued(order, w);
    PerformAllQueued(order, called, p, false, turn.ops);
    var done := PerformAll(called, p, false, turn.ops);
    if done.1 || !done.0.events[p].repeat {
      DestroyQueued(order, done.0, p);
    } else {
      QueuedWith(order, done.0, Fire(w, turn));
    }
  }

  lemma SkipQueued(order: seq<Ptr>, w: World)
    requires Queued(order, w) && w.ahead != []
    ensures Queued(order, Skip(w))
  {
    hide Precedes;
    assert forall p | p in w.ahead[1..] :: p in w.ahead;
  }

  lemma {:induction false} WalkQueued(order: seq<Ptr>, w: World, script: nat -> Turn, n: nat, now: int)
    requires Between(w) && Queued(order, w)
    ensures Queued(order, Walk(w, script, n, now))
    decreases |w.ahead|
  {
    if w.ahead == [] || w.quit {
    } else {
      hide Queued, Fire;
      FireKeepsBetween(w, script(n));
      if w.events[w.ahead[0]].time < now {
        FireQueued(order, w, script(n));
        WalkQueued(order, Fire(w, script(n)), script, n + 1, now);
      } else {
        SkipKeepsBetween(w);
        SkipQueued(order, w);
        WalkQueued(order, Skip(w), script, n, now);
      }
    }
  }

  /** A pass calls events in the order in which they stood in the list when it began. */
  lemma PassCallsInOrder(order: seq<Ptr>, events: map<Ptr, Info>, quit: bool, script: nat -> Turn, now: int)
    requires Keyed(order, events)
    ensures var r := Pass(order, events, quit, script, now);
            forall i, j | 0 <= i < j < |r.log| && r.log[i].Called? && r.log[j].Called? ::
              Precedes(order, r.log[i].p, r.log[j].p)
  {
    assert [] + order == order;
    WalkQueued(order, World([], order, events, quit, []), script, 0, now);
  }
}

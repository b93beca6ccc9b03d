/**
  What a timeout pass leaves behind, told from its log alone: which calls it made and in which order,
  what became of every event that was called, left alone or registered, and what quit and remove did.
 */
module TimeoutFates {
  import opened Timeouts
  import opened TimeoutLaws

  /** How many callbacks the first `i` entries of the log contain. */
  ghost function CallsBefore(log: seq<Effect>, i: nat): nat
    requires i <= |log|
  {
    if i == 0 then 0 else CallsBefore(log, i - 1) + if log[i - 1].Called? then 1 else 0
  }

  /** From entry `i` on, the event at `p` is not freed. */
  ghost predicate Unfreed(log: seq<Effect>, p: Ptr, i: nat) {
    forall j | i <= j < |log| :: log[j] != Freed(p)
  }

  ghost predicate Uncalled(log: seq<Effect>, p: Ptr) {
    forall j | 0 <= j < |log| :: !(log[j].Called? && log[j].p == p)
  }

  /** The event `o` registers. */
  ghost predicate MadeBy(o: Op, p: Ptr, notify: bool, info: Info) {
    && o.Register? && o.at == p && o.notify == notify
    && info == Info(if o.timeout == 0 then 0 else o.clock + o.timeout, o.timeout, o.repeat, o.notify)
  }

  /** What calling at entry `i` leaves in the fields of an event that had `was`. */
  ghost predicate ArmedAgain(was: Info, info: Info, clock: int) {
    && info.timeout == was.timeout && info.repeat == was.repeat && info.notify == was.notify
    && was.repeat && info.time == if was.timeout == 0 then 0 else clock + was.timeout
  }

  /** An event that was there before the pass, was not called and not freed, has kept all its fields. */
  ghost predicate LeftAlone(was: map<Ptr, Info>, events: map<Ptr, Info>, log: seq<Effect>) {
    forall p | p in was && Uncalled(log, p) && Unfreed(log, p, 0) :: p in events && events[p] == was[p]
  }

  /**
    Entry `i`, a call, is of an event of before the pass that was due; unless it is freed later it is there,
    and armed again by the clock of that very callback (still as before while its callback is on).
   */
  ghost predicate CallAt(was: map<Ptr, Info>, events: map<Ptr, Info>, log: seq<Effect>, script: nat -> Turn, now: int,
                         running: Ptr, i: nat)
    requires i < |log| && log[i].Called?
  {
    var p := log[i].p;
    && p in was && was[p].time < now && log[i].repeat == was[p].repeat
    && (Unfreed(log, p, i) ==>
          && p in events
          && if p == running then events[p] == was[p]
             else ArmedAgain(was[p], events[p], script(CallsBefore(log, i)).clock))
  }

  /** Entry `i`, a registration, was asked for by the callback that was on, and unless freed it is there as asked. */
  ghost predicate RegistrationAt(events: map<Ptr, Info>, log: seq<Effect>, script: nat -> Turn, i: nat)
    requires i < |log| && log[i].Registered?
  {
    var p := log[i].p;
    && CallsBefore(log, i) > 0
    && (Unfreed(log, p, i) ==>
          && p in events
          && exists o :: o in script(CallsBefore(log, i) - 1).ops && MadeBy(o, p, log[i].notify, events[p]))
  }

  ghost predicate Fates(was: map<Ptr, Info>, events: map<Ptr, Info>, log: seq<Effect>, script: nat -> Turn, now: int,
                        running: Ptr) {
    && LeftAlone(was, events, log)
    && (forall i | 0 <= i < |log| && log[i].Called? :: CallAt(was, events, log, script, now, running, i))
    && (forall i | 0 <= i < |log| && log[i].Registered? :: RegistrationAt(events, log, script, i))
    && (forall p | p in events :: p in was || !Unregistered(log, p))
  }

  ghost predicate Unregistered(log: seq<Effect>, p: Ptr) {
    forall j | 0 <= j < |log| :: !(log[j].Registered? && log[j].p == p)
  }

  /** What still lies ahead was there before the pass; the log does not call, free or register it. */
  ghost predicate Unreached(was: map<Ptr, Info>, ahead: seq<Ptr>, log: seq<Effect>) {
    forall p | p in ahead :: p in was && Uncalled(log, p) && Unfreed(log, p, 0) && Unregistered(log, p)
  }

  /** What a callback of `running` adds to the log: it makes no call, and does not register `running`. */
  ghost predicate Adds(log: seq<Effect>, log': seq<Effect>, running: Ptr) {
    && log <= log'
    && forall j | |log| <= j < |log'| :: !log'[j].Called? && !(log'[j].Registered? && log'[j].p == running)
  }

  // Longer logs

  lemma {:induction false} CallsBeforePrefix(log: seq<Effect>, more: seq<Effect>, i: nat)
    requires i <= |log|
    ensures CallsBefore(log + more, i) == CallsBefore(log, i)
  {
    if i == 0 {
    } else {
      CallsBeforePrefix(log, more, i - 1);
    }
  }

  lemma CallsBeforeOne(log: seq<Effect>, e: Effect)
    ensures CallsBefore(log + [e], |log| + 1) == CallsBefore(log, |log|) + if e.Called? then 1 else 0
  {
    CallsBeforePrefix(log, [e], |log|);
  }

  /** A later entry that does not free `p`, and one that does. */
  lemma UnfreedOne(log: seq<Effect>, e: Effect, p: Ptr, i: nat)
    requires i <= |log|
    ensures Unfreed(log + [e], p, i) <==> Unfreed(log, p, i) && e != Freed(p)
  {
    assert (log + [e])[|log|] == e;
    assert forall j | 0 <= j < |log| :: (log + [e])[j] == log[j];
  }

  lemma UncalledOne(log: seq<Effect>, e: Effect, p: Ptr)
    ensures Uncalled(log + [e], p) <==> Uncalled(log, p) && !(e.Called? && e.p == p)
  {
    assert (log + [e])[|log|] == e;
    assert forall j | 0 <= j < |log| :: (log + [e])[j] == log[j];
  }

  /** Entries about other addresses, or about `p` but neither a call, a registration nor a free, change no fate. */
  lemma CallAtOne(was: map<Ptr, Info>, events: map<Ptr, Info>, events': map<Ptr, Info>, log: seq<Effect>,
                  script: nat -> Turn, now: int, running: Ptr, running': Ptr, e: Effect, i: nat)
    requires i < |log| && log[i].Called? && CallAt(was, events, log, script, now, running, i)
    requires var p := log[i].p;
             || e == Freed(p)
             || (p in events ==> p in events' && events'[p] == events[p] && (p == running <==> p == running'))
    ensures CallAt(was, events', log + [e], script, now, running', i)
  {
    UnfreedOne(log, e, log[i].p, i);
    CallsBeforePrefix(log, [e], i);
  }

  lemma RegistrationAtOne(events: map<Ptr, Info>, events': map<Ptr, Info>, log: seq<Effect>, script: nat -> Turn,
                          e: Effect, i: nat)
    requires i < |log| && log[i].Registered? && RegistrationAt(events, log, script, i)
    requires var p := log[i].p; e == Freed(p) || (p in events ==> p in events' && events'[p] == events[p])
    ensures RegistrationAt(events', log + [e], script, i)
  {
    UnfreedOne(log, e, log[i].p, i);
    CallsBeforePrefix(log, [e], i);
  }

  lemma LeftAloneOne(was: map<Ptr, Info>, events: map<Ptr, Info>, events': map<Ptr, Info>, log: seq<Effect>, e: Effect)
    requires LeftAlone(was, events, log)
    requires forall p | p in events :: e == Freed(p) || (p in events' && events'[p] == events[p])
    ensures LeftAlone(was, events', log + [e])
  {
    forall p | p in was && Uncalled(log + [e], p) && Unfreed(log + [e], p, 0)
      ensures p in events' && events'[p] == was[p]
    {
      UncalledOne(log, e, p);
      UnfreedOne(log, e, p, 0);
    }
  }

  /** One more entry, when every event it does not free stays as it is. */
  lemma FatesOne(was: map<Ptr, Info>, events: map<Ptr, Info>, events': map<Ptr, Info>, log: seq<Effect>,
                 script: nat -> Turn, now: int, running: Ptr, running': Ptr, e: Effect)
    requires Fates(was, events, log, script, now, running)
    requires forall p | p in events :: e == Freed(p) || (p in events' && events'[p] == events[p])
    requires forall p | p in events' :: p in events || (e.Registered? && e.p == p)
    requires forall p | p in events && e != Freed(p) && !Uncalled(log, p) :: p == running <==> p == running'
    requires e.Called? ==> CallAt(was, events', log + [e], script, now, running', |log|)
    requires e.Registered? ==> RegistrationAt(events', log + [e], script, |log|)
    ensures Fates(was, events', log + [e], script, now, running')
  {
    hide CallAt, RegistrationAt, LeftAlone, Uncalled, Unregistered;
    forall p | p in events' ensures p in was || !Unregistered(log + [e], p) {
      UnregisteredOne(log, e, p);
    }
    LeftAloneOne(was, events, events', log, e);
    forall i | 0 <= i < |log + [e]| && (log + [e])[i].Called?
      ensures CallAt(was, events', log + [e], script, now, running', i)
    {
      if i < |log| {
        CalledIs(log, i);
        CallAtOne(was, events, events', log, script, now, running, running', e, i);
      }
    }
    forall i | 0 <= i < |log + [e]| && (log + [e])[i].Registered?
      ensures RegistrationAt(events', log + [e], script, i)
    {
      if i < |log| {
        RegistrationAtOne(events, events', log, script, e, i);
      }
    }
  }

  lemma CalledIs(log: seq<Effect>, i: nat)
    requires i < |log| && log[i].Called?
    ensures !Uncalled(log, log[i].p)
  {
  }

  lemma UnregisteredOne(log: seq<Effect>, e: Effect, p: Ptr)
    ensures Unregistered(log + [e], p) <==> Unregistered(log, p) && !(e.Registered? && e.p == p)
  {
    assert (log + [e])[|log|] == e;
    assert forall j | 0 <= j < |log| :: (log + [e])[j] == log[j];
  }

  lemma AddsTransitive(a: seq<Effect>, b: seq<Effect>, c: seq<Effect>, running: Ptr)
    requires Adds(a, b, running) && Adds(b, c, running)
    ensures Adds(a, c, running)
  {
    assert forall j | |a| <= j < |b| :: c[j] == b[j];
  }

  lemma {:induction false} AddsNoCalls(log: seq<Effect>, log': seq<Effect>, running: Ptr)
    requires Adds(log, log', running)
    ensures CallsBefore(log', |log'|) == CallsBefore(log, |log|)
    decreases |log'| - |log|
  {
    if |log'| == |log| {
      assert log == log';
    } else {
      var shorter := log'[..|log'| - 1];
      AddsNoCalls(log, shorter, running);
      assert log' == shorter + [log'[|log'| - 1]];
      CallsBeforeOne(shorter, log'[|log'| - 1]);
    }
  }

  // The steps of a pass

  /** Between the entries of one callback: the fates so far, and what lies ahead is untouched. */
  ghost predicate Told(was: map<Ptr, Info>, w: World, script: nat -> Turn, now: int, running: Ptr) {
    Fates(was, w.events, w.log, script, now, running) && Unreached(was, w.ahead, w.log)
  }

  lemma UnreachedOne(was: map<Ptr, Info>, ahead: seq<Ptr>, ahead': seq<Ptr>, log: seq<Effect>, e: Effect)
    requires Unreached(was, ahead, log) && forall p | p in ahead' :: p in ahead
    requires forall p | p in ahead' :: e != Freed(p) && !((e.Called? || e.Registered?) && e.p == p)
    ensures Unreached(was, ahead', log + [e])
  {
    forall p | p in ahead'
      ensures p in was && Uncalled(log + [e], p) && Unfreed(log + [e], p, 0) && Unregistered(log + [e], p)
    {
      UncalledOne(log, e, p);
      UnregisteredOne(log, e, p);
      UnfreedOne(log, e, p, 0);
    }
  }

  lemma DestroyTold(was: map<Ptr, Info>, w: World, script: nat -> Turn, now: int, running: Ptr, p: Ptr, running': Ptr)
    requires Told(was, w, script, now, running) && p in w.events && (running == running' || p == running)
    requires running' == running || running' !in w.events
    ensures Told(was, Destroy(w, p), script, now, running')
  {
    hide Fates, Unreached, Minus;
    MinusMembers(w.ahead, p);
    var noted := if w.events[p].notify then w.log + [Notified(p)] else w.log;
    if w.events[p].notify {
      FatesOne(was, w.events, w.events, w.log, script, now, running, running, Notified(p));
      UnreachedOne(was, w.ahead, w.ahead, w.log, Notified(p));
    }
    FatesOne(was, w.events, w.events - {p}, noted, script, now, running, running', Freed(p));
    UnreachedOne(was, w.ahead, Minus(w.ahead, p), noted, Freed(p));
    assert noted + [Freed(p)] == w.log + DestroyLog(p, w.events[p].notify);
  }

  lemma AheadIsThere(was: map<Ptr, Info>, w: World, script: nat -> Turn, now: int, running: Ptr)
    requires Told(was, w, script, now, running)
    ensures forall p | p in w.ahead :: p in w.events && p in was && w.events[p] == was[p]
  {
  }

  lemma RegisterTold(was: map<Ptr, Info>, w: World, script: nat -> Turn, now: int, running: Ptr, op: Op)
    requires Told(was, w, script, now, running) && op.Register? && op.at !in w.events && running in w.events
    requires CallsBefore(w.log, |w.log|) > 0 && op in script(CallsBefore(w.log, |w.log|) - 1).ops
    ensures var info := Info(TimeFor(op.timeout, op.clock), op.timeout, op.repeat, op.notify);
            var e := Registered(op.at, op.notify);
            && Fates(was, w.events[op.at := info], w.log + [e], script, now, running)
            && Unreached(was, w.ahead, w.log + [e])
  {
    AheadIsThere(was, w, script, now, running);
    hide Fates, Unreached;
    var info := Info(TimeFor(op.timeout, op.clock), op.timeout, op.repeat, op.notify);
    var e := Registered(op.at, op.notify);
    CallsBeforePrefix(w.log, [e], |w.log|);
    assert (w.log + [e])[|w.log|] == e;
    assert op in script(CallsBefore(w.log + [e], |w.log|) - 1).ops;
    assert MadeBy(op, op.at, op.notify, w.events[op.at := info][op.at]);
    assert RegistrationAt(w.events[op.at := info], w.log + [e], script, |w.log|);
    FatesOne(was, w.events, w.events[op.at := info], w.log, script, now, running, running, e);
    UnreachedOne(was, w.ahead, w.ahead, w.log, e);
  }

  lemma PerformTold(was: map<Ptr, Info>, w: World, script: nat -> Turn, now: int, running: Ptr, doomed: bool, op: Op)
    requires Told(was, w, script, now, running) && running in w.events
    requires CallsBefore(w.log, |w.log|) > 0 && op in script(CallsBefore(w.log, |w.log|) - 1).ops
    ensures Told(was, Perform(w, running, doomed, op).0, script, now, running)
    ensures Adds(w.log, Perform(w, running, doomed, op).0.log, running)
  {
    hide Fates, Unreached;
    match op
    case Quit =>
    case Register(at, timeout, repeat, notify, clock) =>
      if at != HEAD && at !in w.events {
        RegisterTold(was, w, script, now, running, op);
      }
    case Remove(p) =>
      if p in w.events && !(p == running && doomed) {
        RemoveTold(was, w, script, now, running, p);
      }
  }

  lemma RemoveTold(was: map<Ptr, Info>, w: World, script: nat -> Turn, now: int, running: Ptr, p: Ptr)
    requires Told(was, w, script, now, running) && p in w.events
    ensures var w1 := w.(log := w.log + [Removed(p)]);
            Told(was, w1, script, now, running) && (p != running ==> Told(was, Destroy(w1, p), script, now, running))
  {
    hide Fates, Unreached;
    var w1 := w.(log := w.log + [Removed(p)]);
    FatesOne(was, w.events, w.events, w.log, script, now, running, running, Removed(p));
    UnreachedOne(was, w.ahead, w.ahead, w.log, Removed(p));
    if p != running {
      DestroyTold(was, w1, script, now, running, p, running);
    }
  }

  lemma {:induction false} PerformAllTold(was: map<Ptr, Info>, w: World, script: nat -> Turn, now: int, running: Ptr,
                                          doomed: bool, ops: seq<Op>)
    requires Told(was, w, script, now, running) && running in w.events
    requires CallsBefore(w.log, |w.log|) > 0
    requires forall op | op in ops :: op in script(CallsBefore(w.log, |w.log|) - 1).ops
    ensures Told(was, PerformAll(w, running, doomed, ops).0, script, now, running)
    ensures Adds(w.log, PerformAll(w, running, doomed, ops).0.log, running)
    decreases |ops|
  {
    if ops == [] {
    } else {
      hide Told, Perform, Adds;
      assert ops[0] in ops && forall op | op in ops[1..] :: op in ops;
      var next := Perform(w, running, doomed, ops[0]);
      PerformTold(was, w, script, now, running, doomed, ops[0]);
      AddsNoCalls(w.log, next.0.log, running);
      PerformAllTold(was, next.0, script, now, running, next.1, ops[1..]);
      AddsTransitive(w.log, next.0.log, PerformAll(w, running, doomed, ops).0.log, running);
    }
  }

  /** The only call of `p` was the `n`-th, and `p` has not been registered. */
  ghost predicate CalledOnce(log: seq<Effect>, p: Ptr, n: nat) {
    && !Uncalled(log, p) && Unregistered(log, p)
    && forall i | 0 <= i < |log| && log[i].Called? && log[i].p == p :: CallsBefore(log, i) == n
  }

  lemma AddsCalledOnce(log: seq<Effect>, log': seq<Effect>, p: Ptr, n: nat)
    requires CalledOnce(log, p, n) && Adds(log, log', p)
    ensures CalledOnce(log', p, n)
  {
    assert log' == log + log'[|log|..];
    forall i | 0 <= i < |log'| && log'[i].Called? && log'[i].p == p ensures CallsBefore(log', i) == n {
      CallsBeforePrefix(log, log'[|log|..], i);
    }
    var j :| 0 <= j < |log| && log[j].Called? && log[j].p == p;
    assert log'[j] == log[j];
  }

  lemma CallTold(was: map<Ptr, Info>, w: World, script: nat -> Turn, now: int)
    requires Told(was, w, script, now, HEAD) && Between(w) && w.ahead != [] && w.ahead[0] in w.events
    requires w.events[w.ahead[0]].time < now
    ensures var p := w.ahead[0];
            var called := w.(ahead := w.ahead[1..], log := w.log + [Called(p, w.events[p].repeat)]);
            && Told(was, called, script, now, p) && CalledOnce(called.log, p, CallsBefore(w.log, |w.log|))
            && CallsBefore(called.log, |called.log|) == CallsBefore(w.log, |w.log|) + 1
  {
    var p := w.ahead[0];
    var e := Called(p, w.events[p].repeat);
    AheadIsThere(was, w, script, now, HEAD);
    assert p in w.ahead;
    assert w.front + w.ahead == w.front + [p] + w.ahead[1..];
    DistinctMiddle(w.front, p, w.ahead[1..]);
    KeyedHead(w);
    assert (w.log + [e])[|w.log|] == e;
    assert CallAt(was, w.events, w.log + [e], script, now, p, |w.log|);
    CallsBeforeOne(w.log, e);
    CalledNow(was, w, p, w.events[p].repeat);
    hide Fates, Unreached, CallAt;
    FatesOne(was, w.events, w.events, w.log, script, now, HEAD, p, e);
    UnreachedOne(was, w.ahead, w.ahead[1..], w.log, e);
  }

  lemma CalledNow(was: map<Ptr, Info>, w: World, p: Ptr, repeat: bool)
    requires Unreached(was, w.ahead, w.log) && p in w.ahead
    ensures CalledOnce(w.log + [Called(p, repeat)], p, CallsBefore(w.log, |w.log|))
  {
    var e := Called(p, repeat);
    UncalledOne(w.log, e, p);
    UnregisteredOne(w.log, e, p);
    CallsBeforePrefix(w.log, [e], |w.log|);
  }

  lemma KeyedHead(w: World)
    requires Between(w)
    ensures HEAD !in w.events
  {
  }

  lemma ArmTold(was: map<Ptr, Info>, w: World, script: nat -> Turn, now: int, p: Ptr, n: nat)
    requires Told(was, w, script, now, p) && p in w.events && CalledOnce(w.log, p, n) && HEAD !in w.events
    requires w.events[p].repeat
    ensures var again := w.events[p].(time := TimeFor(w.events[p].timeout, script(n).clock));
            Told(was, w.(front := w.front + [p], events := w.events[p := again]), script, now, HEAD)
  {
    var events := w.events[p := w.events[p].(time := TimeFor(w.events[p].timeout, script(n).clock))];
    forall i | 0 <= i < |w.log| && w.log[i].Called? ensures CallAt(was, events, w.log, script, now, HEAD, i) {
      assert CallAt(was, w.events, w.log, script, now, p, i);
    }
    forall i | 0 <= i < |w.log| && w.log[i].Registered? ensures RegistrationAt(events, w.log, script, i) {
      assert RegistrationAt(w.events, w.log, script, i);
      assert w.log[i].p != p;
    }
  }

  lemma FireTold(was: map<Ptr, Info>, w: World, script: nat -> Turn, now: int, n: nat)
    requires Told(was, w, script, now, HEAD) && Between(w) && w.ahead != [] && w.ahead[0] in w.events
    requires w.events[w.ahead[0]].time < now && n == CallsBefore(w.log, |w.log|)
    ensures var r := Fire(w, script(n));
            Told(was, r, script, now, HEAD) && CallsBefore(r.log, |r.log|) == n + 1
  {
    hide Told, PerformAll, Minus, CalledOnce, Adds;
    var p := w.ahead[0];
    var called := w.(ahead := w.ahead[1..], log := w.log + [Called(p, w.events[p].repeat)]);
    CallTold(was, w, script, now);
    assert called.front + [p] + called.ahead == w.front + w.ahead;
    PerformAllTold(was, called, script, now, p, false, script(n).ops);
    PerformAllKeepsDuring(called, p, false, script(n).ops);
    var done := PerformAll(called, p, false, script(n).ops);
    AddsNoCalls(called.log, done.0.log, p);
    AddsCalledOnce(called.log, done.0.log, p, n);
    assert HEAD !in done.0.events;
    if done.1 || !done.0.events[p].repeat {
      DestroyTold(was, done.0, script, now, p, p, HEAD);
      DestroyCalls(done.0.log, p, done.0.events[p].notify);
    } else {
      ArmTold(was, done.0, script, now, p, n);
    }
  }

  lemma DestroyCalls(log: seq<Effect>, p: Ptr, notify: bool)
    ensures var log1 := log + DestroyLog(p, notify); CallsBefore(log1, |log1|) == CallsBefore(log, |log|)
  {
    AddsNoCalls(log, log + DestroyLog(p, notify), p);
  }

  lemma UnreachedFewer(was: map<Ptr, Info>, ahead: seq<Ptr>, log: seq<Effect>)
    requires Unreached(was, ahead, log) && ahead != []
    ensures Unreached(was, ahead[1..], log)
  {
  }

  lemma {:induction false} WalkTold(was: map<Ptr, Info>, w: World, script: nat -> Turn, n: nat, now: int)
    requires Between(w) && Told(was, w, script, now, HEAD) && n == CallsBefore(w.log, |w.log|)
    ensures Told(was, Walk(w, script, n, now), script, now, HEAD)
    decreases |w.ahead|
  {
    hide Fates, Unreached, Fire, Keyed, CallsBefore;
    if w.ahead == [] || w.quit {
    } else {
      FireKeepsBetween(w, script(n));
      if w.events[w.ahead[0]].time < now {
        FireTold(was, w, script, now, n);
        WalkTold(was, Fire(w, script(n)), script, n + 1, now);
      } else {
        SkipKeepsBetween(w);
        UnreachedFewer(was, w.ahead, w.log);
        WalkTold(was, Skip(w), script, n, now);
      }
    }
  }

  /**
    For every list, every clock and all callbacks, of the events in the list after a pass: one that was there
    before and was not called has all its fields; one that was called repeats, has its next time from the
    clock after its own callback, and its other fields as before; one that was registered has what its
    callback asked for. Only events of before the pass that were due are called.
   */
  lemma PassTellsFates(order: seq<Ptr>, events: map<Ptr, Info>, quit: bool, script: nat -> Turn, now: int)
    requires Keyed(order, events)
    ensures var r := Pass(order, events, quit, script, now);
            && LeftAlone(events, r.events, r.log)
            && (forall i | 0 <= i < |r.log| && r.log[i].Called? ::
                  var p := r.log[i].p;
                  && p in events && events[p].time < now && r.log[i].repeat == events[p].repeat
                  && (Unfreed(r.log, p, i) ==>
                        p in r.events && ArmedAgain(events[p], r.events[p], script(CallsBefore(r.log, i)).clock)))
            && (forall i | 0 <= i < |r.log| && r.log[i].Registered? :: RegistrationAt(r.events, r.log, script, i))
  {
    assert [] + order == order;
    var w := World([], order, events, quit, []);
    WalkTold(events, w, script, 0, now);
    var r := Pass(order, events, quit, script, now);
    TimeoutLaws.WalkTracks(Opening(events), w, script, 0, now);
    KeyedHead(r);
    forall i | 0 <= i < |r.log| && r.log[i].Called?
      ensures CallAt(events, r.events, r.log, script, now, HEAD, i)
    {
    }
  }
}

/**
  mainloop.c: the timeout events. Memory is explicit: an address has links, event fields and a
  reference count as long as it is allocated, and every access has to show that it is. Freeing drops
  the address from all three maps, and the allocator may hand it out again.

  Clocks and callbacks are parameters. A callback performs any permitted operations; it does not
  dispatch again, and destroyNotify does not call back into the loop.
 */
module MainLoop {
  import opened Seqs
  import opened Timeouts
  import TimeoutLaws

  datatype Link = Link(prev: Ptr, next: Ptr)

  /** Element `i` of the list, or its head outside the list. */
  function PtrAt(o: seq<Ptr>, i: int): Ptr {
    if 0 <= i < |o| then o[i] else HEAD
  }

  /** The links run through `o` in both directions and close at the head. */
  ghost predicate Ring(links: map<Ptr, Link>, o: seq<Ptr>) {
    && Distinct(o) && HEAD !in o
    && HEAD in links && (forall p | p in links :: p == HEAD || p in o) && (forall i | 0 <= i < |o| :: o[i] in links)
    && links[HEAD] == Link(PtrAt(o, |o| - 1), PtrAt(o, 0))
    && forall i {:trigger links[o[i]]} | 0 <= i < |o| :: links[o[i]] == Link(PtrAt(o, i - 1), PtrAt(o, i + 1))
  }

  /** __fcitx_list_insert_between after the head, on links. */
  function LinksPrepend(links: map<Ptr, Link>, p: Ptr, next: Ptr): map<Ptr, Link>
    requires HEAD in links && next in links && p != HEAD && p != next
  {
    var l1 := links[next := links[next].(prev := p)];
    var l2 := l1[HEAD := l1[HEAD].(next := p)];
    l2[p := Link(HEAD, next)]
  }

  lemma RingPrepend(links: map<Ptr, Link>, o: seq<Ptr>, p: Ptr)
    requires Ring(links, o) && p != HEAD && p !in o
    ensures HEAD in links
    ensures var next := links[HEAD].next;
            next in links && next != p && Ring(LinksPrepend(links, p, next), [p] + o)
  {
    hide Ring, PtrAt;
    RingFacts(links, o);
    var next := links[HEAD].next;
    var r := LinksPrepend(links, p, next);
    var q := [p] + o;
    HeadPrepended(links, o, p);
    forall i | 0 <= i < |q| ensures q[i] in r && r[q[i]] == Link(PtrAt(q, i - 1), PtrAt(q, i + 1)) {
      RingPrependedOne(links, o, p, i);
    }
    RingIs(r, q);
  }

  lemma RingFacts(links: map<Ptr, Link>, o: seq<Ptr>)
    requires Ring(links, o)
    ensures HEAD in links && links[HEAD].next in links && links[HEAD].next == PtrAt(o, 0)
    ensures Distinct(o) && HEAD !in o && (forall x | x in links :: x == HEAD || x in o)
    ensures links[HEAD].next == HEAD || links[HEAD].next in o
  {
  }

  /** The head's own links, and which addresses have links at all. */
  lemma HeadPrepended(links: map<Ptr, Link>, o: seq<Ptr>, p: Ptr)
    requires Ring(links, o) && p != HEAD && p !in o
    ensures HEAD in links && links[HEAD].next in links && links[HEAD].next != p
    ensures var r, q := LinksPrepend(links, p, links[HEAD].next), [p] + o;
            && Distinct(q) && HEAD !in q && (forall x | x in r :: x == HEAD || x in q)
            && HEAD in r && r[HEAD] == Link(PtrAt(q, |q| - 1), PtrAt(q, 0))
  {
    hide Ring;
    RingFacts(links, o);
    RingHead(links, o);
    assert ([p] + o)[0] == p && forall k | 0 <= k < |o| :: ([p] + o)[k + 1] == o[k];
  }

  lemma RingIs(links: map<Ptr, Link>, o: seq<Ptr>)
    requires Distinct(o) && HEAD !in o && (forall x | x in links :: x == HEAD || x in o)
    requires HEAD in links && links[HEAD] == Link(PtrAt(o, |o| - 1), PtrAt(o, 0))
    requires forall i | 0 <= i < |o| :: o[i] in links && links[o[i]] == Link(PtrAt(o, i - 1), PtrAt(o, i + 1))
    ensures Ring(links, o)
  {
  }

  lemma RingPrependedOne(links: map<Ptr, Link>, o: seq<Ptr>, p: Ptr, i: nat)
    requires Ring(links, o) && p != HEAD && p !in o && i <= |o|
    ensures var next := links[HEAD].next;
            next in links && next != p &&
            var r, q := LinksPrepend(links, p, next), [p] + o;
            q[i] in r && r[q[i]] == Link(PtrAt(q, i - 1), PtrAt(q, i + 1))
  {
    assert links[HEAD].next == PtrAt(o, 0);
    assert PtrAt([p] + o, i + 1) == PtrAt(o, i);
    if i > 0 {
      RingAt(links, o, i - 1);
      if i > 1 {
        RingDistinct(links, o, 0, i - 1);
        assert PtrAt([p] + o, i - 1) == PtrAt(o, i - 2);
      }
    }
  }

  /** fcitx_list_remove and free, on links. */
  function LinksRemove(links: map<Ptr, Link>, p: Ptr): map<Ptr, Link>
    requires p in links && links[p].prev in links && links[p].next in links
  {
    var prev, next := links[p].prev, links[p].next;
    var l1 := links[prev := links[prev].(next := next)];
    l1[next := l1[next].(prev := prev)] - {p}
  }

  lemma RingAt(links: map<Ptr, Link>, o: seq<Ptr>, i: nat)
    requires Ring(links, o) && i < |o|
    ensures o[i] in links && o[i] != HEAD && links[o[i]] == Link(PtrAt(o, i - 1), PtrAt(o, i + 1))
    ensures links[o[i]].prev in links && links[o[i]].next in links
  {
  }

  lemma RingRemovedAt(links: map<Ptr, Link>, o: seq<Ptr>, k: nat, i: nat)
    requires Ring(links, o) && k < |o| && i < |o| && i != k
    ensures o[k] in links && links[o[k]].prev in links && links[o[k]].next in links
    ensures var r := LinksRemove(links, o[k]);
            o[i] in r && r[o[i]] == Link(PtrAt(o, if i == k + 1 then k - 1 else i - 1),
                                         PtrAt(o, if i + 1 == k then k + 1 else i + 1))
  {
    hide Ring;
    RingAt(links, o, k);
    RingAt(links, o, i);
    RingDistinct(links, o, i, k);
    if i + 1 != k && k > 0 {
      RingDistinct(links, o, i, k - 1);
    }
    if i != k + 1 && k + 1 < |o| {
      RingDistinct(links, o, i, k + 1);
    }
  }

  lemma RingDistinct(links: map<Ptr, Link>, o: seq<Ptr>, i: nat, j: nat)
    requires Ring(links, o) && i < |o| && j < |o| && i != j
    ensures o[i] != o[j]
  {
  }

  lemma WithoutAt(o: seq<Ptr>, k: nat, i: int)
    requires k < |o| && -1 <= i < |o|
    ensures PtrAt(Without(o, k), i) == PtrAt(o, if i < k then i else i + 1)
  {
  }

  lemma RingRemove(links: map<Ptr, Link>, o: seq<Ptr>, k: nat)
    requires Ring(links, o) && k < |o|
    ensures var p := o[k];
            p in links && links[p].prev in links && links[p].next in links && Ring(LinksRemove(links, p), Without(o, k))
  {
    var p, q := o[k], Without(o, k);
    RingAt(links, o, k);
    var r := LinksRemove(links, p);
    WithoutMembers(o, k);
    WithoutDistinct(o, k);
    forall i | 0 <= i < |q| ensures q[i] in r && r[q[i]] == Link(PtrAt(q, i - 1), PtrAt(q, i + 1)) {
      RingRemovedOne(links, o, k, i);
    }
    RingRemovedHead(links, o, k);
  }

  lemma RingRemovedOne(links: map<Ptr, Link>, o: seq<Ptr>, k: nat, i: nat)
    requires Ring(links, o) && k < |o| && i < |o| - 1
    ensures o[k] in links && links[o[k]].prev in links && links[o[k]].next in links
    ensures var r, q := LinksRemove(links, o[k]), Without(o, k);
            q[i] in r && r[q[i]] == Link(PtrAt(q, i - 1), PtrAt(q, i + 1))
  {
    hide Ring;
    WithoutAt(o, k, i - 1);
    WithoutAt(o, k, i);
    WithoutAt(o, k, i + 1);
    RingRemovedAt(links, o, k, if i < k then i else i + 1);
  }

  lemma RingHead(links: map<Ptr, Link>, o: seq<Ptr>)
    requires Ring(links, o)
    ensures HEAD in links && links[HEAD] == Link(PtrAt(o, |o| - 1), PtrAt(o, 0))
    ensures forall i | 0 <= i < |o| :: o[i] != HEAD
  {
  }

  lemma RingRemovedHead(links: map<Ptr, Link>, o: seq<Ptr>, k: nat)
    requires Ring(links, o) && k < |o|
    ensures o[k] in links && links[o[k]].prev in links && links[o[k]].next in links
    ensures var r, q := LinksRemove(links, o[k]), Without(o, k);
            HEAD in r && r[HEAD] == Link(PtrAt(q, |q| - 1), PtrAt(q, 0))
  {
    hide Ring, LinksRemove, PtrAt;
    RingAt(links, o, k);
    HeadPrev(links, o, k);
    HeadNext(links, o, k);
    WithoutEnds(o, k);
  }

  lemma HeadPrev(links: map<Ptr, Link>, o: seq<Ptr>, k: nat)
    requires Ring(links, o) && k < |o|
    requires o[k] in links && links[o[k]].prev in links && links[o[k]].next in links
    ensures var r := LinksRemove(links, o[k]);
            HEAD in r && r[HEAD].prev == PtrAt(o, if k == |o| - 1 then k - 1 else |o| - 1)
  {
    hide Ring;
    RingAt(links, o, k);
    RingHead(links, o);
  }

  lemma HeadNext(links: map<Ptr, Link>, o: seq<Ptr>, k: nat)
    requires Ring(links, o) && k < |o|
    requires o[k] in links && links[o[k]].prev in links && links[o[k]].next in links
    ensures var r := LinksRemove(links, o[k]); HEAD in r && r[HEAD].next == PtrAt(o, if k == 0 then 1 else 0)
  {
    hide Ring;
    RingAt(links, o, k);
    RingHead(links, o);
  }

  lemma WithoutEnds(o: seq<Ptr>, k: nat)
    requires k < |o|
    ensures PtrAt(Without(o, k), |Without(o, k)| - 1) == PtrAt(o, if k == |o| - 1 then k - 1 else |o| - 1)
    ensures PtrAt(Without(o, k), 0) == PtrAt(o, if k == 0 then 1 else 0)
  {
    WithoutAt(o, k, |o| - 2);
    WithoutAt(o, k, 0);
  }

  lemma NextIs(links: map<Ptr, Link>, a: seq<Ptr>, p: Ptr, b: seq<Ptr>)
    requires Ring(links, a + [p] + b)
    ensures p in links && p != HEAD && links[p].next == PtrAt(b, 0)
  {
    var o := a + [p] + b;
    assert o[|a|] == p;
    assert PtrAt(o, |a| + 1) == PtrAt(b, 0);
  }

  lemma FirstIs(links: map<Ptr, Link>, o: seq<Ptr>)
    requires Ring(links, o)
    ensures HEAD in links && links[HEAD].next == PtrAt(o, 0)
  {
  }

  lemma AtTheHead(links: map<Ptr, Link>, a: seq<Ptr>, b: seq<Ptr>)
    requires Ring(links, a + b)
    ensures PtrAt(b, 0) == HEAD <==> b == []
  {
    if b != [] {
      assert (a + b)[|a|] == b[0];
    }
  }

  lemma KeyedDistinct(o: seq<Ptr>, events: map<Ptr, Info>)
    requires Keyed(o, events)
    ensures Distinct(o)
  {
  }

  lemma KeyedMember(o: seq<Ptr>, events: map<Ptr, Info>, p: Ptr)
    requires Keyed(o, events)
    ensures p != HEAD ==> (p in events <==> p in o)
    ensures p in events ==> p != HEAD
  {
  }

  class MainLoop {
    var links: map<Ptr, Link>
    var events: map<Ptr, Info>
    var refs: map<Ptr, int>
    var quit: bool
    var nextTimeout: int
    ghost var order: seq<Ptr>
    ghost var log: seq<Effect>

    ghost predicate Inv()
      reads this
    {
      Ring(links, order) && Keyed(order, events) && refs.Keys == events.Keys
    }

    /** Between callbacks every event is held once. */
    ghost predicate Valid()
      reads this
    {
      Inv() && forall p | p in refs :: refs[p] == 1
    }

    /** During the callback of `r` that event is held twice, or once when it has been removed. */
    ghost predicate Running(r: Ptr, doomed: bool)
      reads this
    {
      Inv() && r in refs && forall p | p in refs :: refs[p] == if p == r && !doomed then 2 else 1
    }

    constructor ()
      ensures Valid() && order == [] && events == map[] && log == [] && !quit
    {
      links := map[HEAD := Link(HEAD, HEAD)];
      events, refs := map[], map[];
      quit, nextTimeout := false, 0;
      order, log := [], [];
    }

    /** set_time_event */
    method SetTimeEvent(p: Ptr, clock: int)
      requires p in events
      modifies `events
      ensures var info := old(events)[p];
              events == old(events)[p := info.(time := if info.timeout == 0 then 0 else clock + info.timeout)]
    {
      if events[p].timeout == 0 {
        events := events[p := events[p].(time := 0)];
      } else {
        events := events[p := events[p].(time := clock)];
        events := events[p := events[p].(time := events[p].time + events[p].timeout)];
      }
    }

    /** fcitx_mainloop_register_timeout_event, for an event allocated at `at`. */
    method RegisterTimeoutEvent(at: Ptr, timeout: nat, repeat: bool, notify: bool, clock: int)
      requires Inv() && at != HEAD && at !in events
      modifies `links, `events, `refs, `order, `log
      ensures Inv() && order == [at] + old(order) && refs == old(refs)[at := 1]
      ensures events == old(events)[at := Info(if timeout == 0 then 0 else clock + timeout, timeout, repeat, notify)]
      ensures log == old(log) + [Registered(at, notify)]
    {
      hide Ring, Keyed;
      KeyedMember(order, events, at);
      RegisterKeepsKeyed(order, events, at, Info(TimeFor(timeout, clock), timeout, repeat, notify));
      events := events[at := Info(0, timeout, repeat, notify)];
      SetTimeEvent(at, clock);
      refs := refs[at := 1];
      RingPrepend(links, order, at);
      links := LinksPrepend(links, at, links[HEAD].next);
      order, log := [at] + order, log + [Registered(at, notify)];
      assert events == old(events)[at := Info(TimeFor(timeout, clock), timeout, repeat, notify)];
    }

    /** fcitx_mainloop_remove_timeout_event: only the last reference destroys the event. */
    method RemoveTimeoutEvent(p: Ptr)
      requires Inv() && p in refs
      modifies `links, `events, `refs, `order, `log
      ensures Inv()
      ensures old(refs)[p] != 1 ==>
                && refs == old(refs)[p := old(refs)[p] - 1]
                && order == old(order) && events == old(events) && log == old(log)
      ensures old(refs)[p] == 1 ==>
                && refs == old(refs) - {p} && order == Minus(old(order), p) && events == old(events) - {p}
                && log == old(log) + DestroyLog(p, old(events)[p].notify)
    {
      hide Ring, Keyed, Minus;
      KeyedMember(order, events, p);
      var count := refs[p];
      refs := refs[p := count - 1];
      if count != 1 {
        return;
      }
      ghost var k :| 0 <= k < |order| && order[k] == p;
      RingRemove(links, order, k);
      KeyedDistinct(order, events);
      MinusAt(order, k);
      KeyedMinus(order, events, p);
      links := LinksRemove(links, p);
      log := log + DestroyLog(p, events[p].notify);
      events, refs := events - {p}, refs - {p};
      order := Minus(order, p);
    }

    /** A callback of `running` performs one operation. */
    method PerformOp(running: Ptr, ghost doomed: bool, op: Op, ghost front: seq<Ptr>, ghost ahead: seq<Ptr>)
      returns (ghost w: World, ghost doomed': bool)
      requires Running(running, doomed) && order == front + [running] + ahead
      modifies `links, `events, `refs, `order, `log, `quit
      ensures (w, doomed') == Perform(World(front, ahead, old(events), old(quit), old(log)), running, doomed, op)
      ensures Running(running, doomed') && order == w.front + [running] + w.ahead
      ensures events == w.events && quit == w.quit && log == w.log
    {
      hide Ring, Keyed, Minus;
      ghost var was := World(front, ahead, events, quit, log);
      w, doomed' := Perform(was, running, doomed, op).0, Perform(was, running, doomed, op).1;
      match op {
        case Quit =>
          quit := true;
        case Register(at, timeout, repeat, notify, clock) =>
          if at != HEAD && at !in events {
            RegisterTimeoutEvent(at, timeout, repeat, notify, clock);
            assert [at] + (front + [running] + ahead) == [at] + front + [running] + ahead;
          }
        case Remove(p) =>
          if p in events && !(p == running && refs[running] == 1) {
            log := log + [Removed(p)];
            if p != running {
              DestroyKeepsDuring(was, running, p);
            }
            RemoveTimeoutEvent(p);
          }
      }
    }

    /** The callback of `running`. */
    method Callback(running: Ptr, ops: seq<Op>, ghost front: seq<Ptr>, ghost ahead: seq<Ptr>)
      returns (ghost w: World, ghost doomed: bool)
      requires Running(running, false) && order == front + [running] + ahead
      modifies `links, `events, `refs, `order, `log, `quit
      ensures (w, doomed) == PerformAll(World(front, ahead, old(events), old(quit), old(log)), running, false, ops)
      ensures Running(running, doomed) && order == w.front + [running] + w.ahead
      ensures events == w.events && quit == w.quit && log == w.log
    {
      hide Ring, Keyed, Minus, Perform;
      ghost var was := World(front, ahead, events, quit, log);
      w, doomed := was, false;
      var i := 0;
      while i < |ops|
        invariant 0 <= i <= |ops|
        invariant Running(running, doomed) && order == w.front + [running] + w.ahead
        invariant w == World(w.front, w.ahead, events, quit, log)
        invariant PerformAll(w, running, doomed, ops[i..]) == PerformAll(was, running, false, ops)
      {
        assert ops[i..][1..] == ops[i + 1..];
        w, doomed := PerformOp(running, doomed, ops[i], w.front, w.ahead);
        i := i + 1;
      }
    }

    /** One due event of fcitx_mainloop_dispatch_timeout. */
    method DispatchEvent(event: Ptr, turn: Turn, ghost w: World) returns (next: Ptr, ghost w': World)
      requires Valid() && order == w.front + w.ahead && w == World(w.front, w.ahead, events, quit, log)
      requires w.ahead != [] && event == w.ahead[0] && event in events
      modifies `links, `events, `refs, `order, `log, `quit
      ensures Valid() && order == w'.front + w'.ahead && w' == World(w'.front, w'.ahead, events, quit, log)
      ensures w' == Fire(w, turn) && next == PtrAt(w'.ahead, 0)
    {
      hide Ring, Keyed, Minus, Perform, PerformAll;
      refs := refs[event := refs[event] + 1];
      log := log + [Called(event, events[event].repeat)];
      assert order == w.front + [event] + w.ahead[1..];
      ghost var done, doomed := Callback(event, turn.ops, w.front, w.ahead[1..]);
      NextIs(links, done.front, event, done.ahead);
      next := links[event].next;
      var count := refs[event];
      refs := refs[event := count - 1];
      DestroyRunning(done, event);
      SettleKeepsBetween(done, event, doomed, turn.clock);
      w' := Settle(done, event, doomed, turn.clock);
      if count == 1 {
        refs := refs[event := refs[event] + 1];
        RemoveTimeoutEvent(event);
      } else {
        if events[event].repeat {
          SetTimeEvent(event, turn.clock);
        } else {
          RemoveTimeoutEvent(event);
        }
      }
    }

    /** fcitx_mainloop_dispatch_timeout, with the n-th callback doing what `script(n)` says. */
    method DispatchTimeout(now: int, script: nat -> Turn)
      requires Valid()
      modifies `links, `events, `refs, `order, `log, `quit
      ensures Valid()
      ensures var r := TimeoutLaws.Pass(old(order), old(events), old(quit), script, now);
              order == r.front + r.ahead && events == r.events && quit == r.quit && log == old(log) + r.log
    {
      hide Ring, Keyed, Fire;
      FirstIs(links, order);
      var event := links[HEAD].next;
      var n := 0;
      ghost var start := log;
      log := [];
      ghost var w := World([], order, events, quit, []);
      assert [] + order == order;
      ghost var target := Walk(w, script, 0, now);
      while event != HEAD
        invariant Valid() && order == w.front + w.ahead && w == World(w.front, w.ahead, events, quit, log)
        invariant event == PtrAt(w.ahead, 0)
        invariant Between(w) && Walk(w, script, n, now) == target
        decreases |w.ahead|
      {
        if quit {
          break;
        }
        assert event in w.front + w.ahead;
        KeyedMember(order, events, event);
        if events[event].time < now {
          FireKeepsBetween(w, script(n));
          event, w := DispatchEvent(event, script(n), w);
          n := n + 1;
        } else {
          SkipKeepsBetween(w);
          assert w.front + w.ahead == w.front + [event] + w.ahead[1..];
          NextIs(links, w.front, event, w.ahead[1..]);
          event := links[event].next;
          w := Skip(w);
        }
      }
      AtTheHead(links, w.front, w.ahead);
      assert target == w;
      log := start + log;
    }

    /** The timeout part of fcitx_mainloop_prepare. */
    method Prepare(now: int) returns (r: int)
      requires Valid()
      modifies `nextTimeout
      ensures r == if quit then -1 else 0
      ensures quit ==> nextTimeout == old(nextTimeout)
      ensures !quit ==> SleepsUntilDue(events, now, nextTimeout)
    {
      hide Ring, Keyed, SleepsUntilDue;
      if quit {
        return -1;
      }
      nextTimeout := -1;
      FirstIs(links, order);
      var event := links[HEAD].next;
      ghost var i := 0;
      while event != HEAD
        invariant 0 <= i <= |order| && event == PtrAt(order, i)
        invariant Soonest(order[..i], events, now, nextTimeout)
        decreases |order| - i
      {
        assert event in order;
        KeyedMember(order, events, event);
        if events[event].time <= now {
          nextTimeout := 0;
          SleepNot(events, now, event);
          return 0;
        }
        if events[event].time == 0 {
          nextTimeout := 0;
          SleepNot(events, now, event);
          return 0;
        }
        assert order[..i + 1] == order[..i] + [event];
        if nextTimeout == -1 || events[event].time - now < nextTimeout {
          nextTimeout := events[event].time - now;
        }
        RingAt(links, order, i);
        event := links[event].next;
        i := i + 1;
      }
      RingSize(links, order, i);
      assert order[..i] == order;
      SoonestOfAll(order, events, now, nextTimeout);
      return 0;
    }
  }

  /** How long the poll that follows may sleep: not at all, for ever, or until the first event is due. */
  ghost predicate SleepsUntilDue(events: map<Ptr, Info>, now: int, t: int) {
    if exists p :: p in events && (events[p].time <= now || events[p].time == 0) then t == 0
    else if events == map[] then t == -1
    else t > 0 && (forall p | p in events :: now + t <= events[p].time)
         && exists p :: p in events && events[p].time == now + t
  }

  ghost predicate Soonest(s: seq<Ptr>, events: map<Ptr, Info>, now: int, t: int) {
    && (forall p | p in s :: p in events && events[p].time > now && events[p].time != 0)
    && if s == [] then t == -1
       else t > 0 && (forall p | p in s :: now + t <= events[p].time) && exists p :: p in s && events[p].time == now + t
  }

  lemma SleepNot(events: map<Ptr, Info>, now: int, p: Ptr)
    requires p in events && (events[p].time <= now || events[p].time == 0)
    ensures SleepsUntilDue(events, now, 0)
  {
  }

  lemma SoonestOfAll(o: seq<Ptr>, events: map<Ptr, Info>, now: int, t: int)
    requires Keyed(o, events) && Soonest(o, events, now, t)
    ensures SleepsUntilDue(events, now, t)
  {
    if o != [] {
      assert o[0] in o;
    } else {
      assert forall p | p in events :: p in o;
      assert events == map[];
    }
  }

  lemma RingSize(links: map<Ptr, Link>, o: seq<Ptr>, i: nat)
    requires Ring(links, o) && i <= |o| && PtrAt(o, i) == HEAD
    ensures i == |o|
  {
  }

  /** When the poll may sleep at all, a pass at the same clock would not have called anything. */
  lemma SleepIsSafe(w: World, script: nat -> Turn, n: nat, now: int, t: int)
    requires Between(w) && SleepsUntilDue(w.events, now, t) && t != 0
    ensures Walk(w, script, n, now).log == w.log
  {
    TimeoutLaws.NothingDue(w, script, n, now);
  }
}

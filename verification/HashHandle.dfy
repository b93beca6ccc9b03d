/**
  The hash handle of uthash.h (UT_hash_handle) and the two doubly linked lists it threads:
  the application-order list through `prev`/`next`, and the chain of its bucket through
  `hhPrev`/`hhNext`.
 */
module HashHandle {
  import opened Seqs

  type Key = seq<bv8>
  type Hash = h: nat | h < 0x1_0000_0000

  const INITIAL_NUM_BUCKETS := 32
  const INITIAL_NUM_BUCKETS_LOG2 := 5
  const BKT_CAPACITY_THRESH := 10

  class Handle<V> {
    const key: Key
    var data: V
    var prev: Handle?<V>
    var next: Handle?<V>
    var hhPrev: Handle?<V>
    var hhNext: Handle?<V>
    var hashv: Hash

    constructor (key: Key, data: V)
      ensures this.key == key && this.data == data
    {
      this.key, this.data := key, data;
      prev, next, hhPrev, hhNext, hashv := null, null, null, null, 0;
    }
  }

  datatype Bucket<!V> = Bucket(hhHead: Handle?<V>, count: nat, expandMult: nat)

  // ---------------------------------------------------------------- linked sequences

  ghost function At<V>(s: seq<Handle<V>>, i: int): Handle?<V> {
    if 0 <= i < |s| then s[i] else null
  }

  ghost function FirstOf<V>(s: seq<Handle<V>>): set<Handle<V>> {
    if s == [] then {} else {s[0]}
  }

  ghost predicate AppLinks<V>(s: seq<Handle<V>>)
    reads s`prev, s`next
  {
    && (forall i {:trigger s[i].prev} | 0 <= i < |s| :: s[i].prev == At(s, i - 1))
    && (forall i {:trigger s[i].next} | 0 <= i < |s| :: s[i].next == At(s, i + 1))
  }

  lemma WithoutAt<V>(s: seq<Handle<V>>, k: nat, i: int)
    requires k < |s|
    ensures At(Without(s, k), i) == if i < k then At(s, i) else At(s, i + 1)
  {
  }

  ghost predicate HhLinks<V>(c: seq<Handle<V>>)
    reads c`hhPrev, c`hhNext
  {
    && (forall i {:trigger c[i].hhPrev} | 0 <= i < |c| :: c[i].hhPrev == At(c, i - 1))
    && (forall i {:trigger c[i].hhNext} | 0 <= i < |c| :: c[i].hhNext == At(c, i + 1))
  }

  /** Takes `s[k]` out of a list threaded through `hhPrev` and `hhNext`. */
  method UnlinkHh<V>(del: Handle<V>, ghost s: seq<Handle<V>>, ghost k: nat)
    requires HhLinks(s) && Distinct(s) && k < |s| && s[k] == del
    modifies s`hhPrev, s`hhNext
    ensures HhLinks(Without(s, k))
  {
    assert del.hhPrev == At(s, k - 1) && del.hhNext == At(s, k + 1);
    if del.hhPrev != null {
      del.hhPrev.hhNext := del.hhNext;
    }
    if del.hhNext != null {
      del.hhNext.hhPrev := del.hhPrev;
    }
    ghost var r := Without(s, k);
    forall i | 0 <= i < |r| ensures r[i].hhPrev == At(r, i - 1) && r[i].hhNext == At(r, i + 1) {
      WithoutAt(s, k, i - 1);
      WithoutAt(s, k, i + 1);
      var u := if i < k then i else i + 1;
      assert r[i] == s[u] && old(s[u].hhPrev) == At(s, u - 1) && old(s[u].hhNext) == At(s, u + 1);
    }
  }

  /** Takes `s[k]` out of a list threaded through `prev` and `next`. */
  method UnlinkApp<V>(del: Handle<V>, ghost s: seq<Handle<V>>, ghost k: nat)
    requires AppLinks(s) && Distinct(s) && k < |s| && s[k] == del
    modifies s`prev, s`next
    ensures AppLinks(Without(s, k))
  {
    assert del.prev == At(s, k - 1) && del.next == At(s, k + 1);
    if del.prev != null {
      del.prev.next := del.next;
    }
    if del.next != null {
      del.next.prev := del.prev;
    }
    ghost var r := Without(s, k);
    forall i | 0 <= i < |r| ensures r[i].prev == At(r, i - 1) && r[i].next == At(r, i + 1) {
      WithoutAt(s, k, i - 1);
      WithoutAt(s, k, i + 1);
      var u := if i < k then i else i + 1;
      assert r[i] == s[u] && old(s[u].prev) == At(s, u - 1) && old(s[u].next) == At(s, u + 1);
    }
  }

  /** Every chain is a NULL-terminated doubly linked list of nodes of `ms`. */
  ghost predicate ChainsLinked<V>(chains: seq<seq<Handle<V>>>, ms: seq<Handle<V>>)
    reads ms`hhPrev, ms`hhNext
  {
    && (forall b, i | 0 <= b < |chains| && 0 <= i < |chains[b]| :: chains[b][i] in ms)
    && (forall b, i {:trigger chains[b][i].hhPrev} | 0 <= b < |chains| && 0 <= i < |chains[b]| ::
          chains[b][i].hhPrev == At(chains[b], i - 1))
    && (forall b, i {:trigger chains[b][i].hhNext} | 0 <= b < |chains| && 0 <= i < |chains[b]| ::
          chains[b][i].hhNext == At(chains[b], i + 1))
  }

  ghost predicate HeadsMatch<V>(bkts: seq<Bucket<V>>, chains: seq<seq<Handle<V>>>) {
    && |bkts| == |chains|
    && forall b | 0 <= b < |bkts| :: bkts[b].hhHead == At(chains[b], 0) && bkts[b].count == |chains[b]|
  }

  /** Neither `h` nor the nodes of chain `b` occur in any other chain. */
  ghost predicate Apart<V>(chains: seq<seq<Handle<V>>>, b: nat, h: Handle<V>)
    requires b < |chains|
  {
    && h !in chains[b]
    && forall c, i | 0 <= c < |chains| && c != b && 0 <= i < |chains[c]| ::
         chains[c][i] != h && chains[c][i] !in chains[b]
  }

  ghost function Push<V>(chains: seq<seq<Handle<V>>>, b: nat, h: Handle<V>): seq<seq<Handle<V>>>
    requires b < |chains|
  {
    chains[b := [h] + chains[b]]
  }

  /** Links `h` in front of its chain; the other chains are left as they were. */
  method PushFront<V>(bkts: array<Bucket<V>>, b: nat, h: Handle<V>,
                      ghost chains: seq<seq<Handle<V>>>, ghost ms: seq<Handle<V>>)
    requires b < bkts.Length == |chains| && bkts[b].hhHead == At(chains[b], 0)
    requires ChainsLinked(chains, ms) && Apart(chains, b, h) && h in ms
    requires Distinct(chains[b])
    modifies bkts, h`hhPrev, h`hhNext, FirstOf(chains[b])`hhPrev
    ensures ChainsLinked(Push(chains, b, h), ms)
    ensures bkts[..] == old(bkts[..])[b := old(bkts[b]).(hhHead := h)]
  {
    h.hhNext := bkts[b].hhHead;
    h.hhPrev := null;
    if bkts[b].hhHead != null {
      bkts[b].hhHead.hhPrev := h;
    }
    bkts[b] := bkts[b].(hhHead := h);
    ghost var chains' := Push(chains, b, h);
    forall k, i | 0 <= k < |chains'| && 0 <= i < |chains'[k]|
      ensures chains'[k][i] in ms
      ensures chains'[k][i].hhPrev == At(chains'[k], i - 1) && chains'[k][i].hhNext == At(chains'[k], i + 1)
    {
      if k != b {
        assert chains'[k][i] == chains[k][i];
        assert chains[k][i] != h && chains[k][i] !in FirstOf(chains[b]);
        assert old(chains[k][i].hhPrev == At(chains[k], i - 1) && chains[k][i].hhNext == At(chains[k], i + 1));
      } else if i > 0 {
        assert chains'[k][i] == chains[b][i - 1];
        assert old(chains[b][i - 1].hhPrev == At(chains[b], i - 2) && chains[b][i - 1].hhNext == At(chains[b], i));
      }
    }
  }
}

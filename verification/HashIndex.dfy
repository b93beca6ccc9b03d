/**
  The hash index of uthash.h, its macros expanded into the methods of a class.

  The table behind the head pointer exists only while there is an item, as in the source.
 */
module HashIndex {
  import opened Bits
  import opened HashHandle
  import opened Seqs
  import opened HashChains
  import opened HashSort
  import opened StableOrder

  // ---------------------------------------------------------------- the table

  class HashIndex<V> {
    const hashFcn: Key -> Hash
    var head: Handle?<V>
    var buckets: array<Bucket<V>>
    var numBuckets: nat
    var log2NumBuckets: nat
    var numItems: nat
    var tail: Handle?<V>
    var idealChainMaxlen: nat
    var nonidealItems: nat
    var ineffExpands: nat
    var noexpand: bool
    ghost var items: seq<Handle<V>>
    ghost var chains: seq<seq<Handle<V>>>

    /** The application-order list. */
    ghost predicate AppValid()
      reads this`head, this`tail, this`numItems, this`items, items`prev, items`next
    {
      && Distinct(items)
      && AppLinks(items)
      && head == At(items, 0)
      && (items != [] ==> tail == At(items, |items| - 1) && numItems == |items|)
    }

    /** The buckets hold exactly `ms`, each item in the bucket its hash value selects. */
    ghost predicate BucketsValid(ms: seq<Handle<V>>)
      reads this`numBuckets, this`log2NumBuckets, this`buckets, this`chains, buckets
      reads ms`hhPrev, ms`hhNext, ms`hashv
    {
      && numBuckets == Pow2(log2NumBuckets) == buckets.Length
      && HeadsMatch(buckets[..], chains)
      && ChainsHold(hashFcn, chains, ms)
      && ChainsLinked(chains, ms)
      && (forall x {:trigger x.hashv} | x in ms :: x.hashv == hashFcn(x.key))
    }

    ghost predicate Valid()
      reads this, buckets, items`prev, items`next, items`hhPrev, items`hhNext, items`hashv
    {
      && AppValid()
      && (items == [] ==> chains == [])
      && (items != [] ==> BucketsValid(items))
    }

    constructor (hashFcn: Key -> Hash)
      ensures Valid() && items == [] && this.hashFcn == hashFcn && fresh(buckets)
    {
      this.hashFcn := hashFcn;
      head, tail := null, null;
      buckets := new Bucket<V>[0](_ => Bucket(null, 0, 0));
      numBuckets, log2NumBuckets, numItems := 0, 0, 0;
      idealChainMaxlen, nonidealItems, ineffExpands, noexpand := 0, 0, 0, false;
      items, chains := [], [];
    }

    lemma ItemsDistinct()
      requires Valid()
      ensures Distinct(items)
    {
    }

    method First() returns (item: Handle?<V>)
      requires Valid()
      ensures item == At(items, 0)
    {
      item := head;
    }

    /** The application-order successor of an item. */
    method Next(item: Handle<V>, ghost k: nat) returns (next: Handle?<V>)
      requires Valid() && k < |items| && items[k] == item
      ensures next == At(items, k + 1)
    {
      assert items[k].next == At(items, k + 1);
      next := item.next;
    }

    /** HASH_FIND: the first item of the chain whose key has the same length and bytes. */
    method Find(key: Key) returns (out: Handle?<V>)
      requires Valid()
      ensures out != null ==> out in items && out.key == key
      ensures out == null ==> forall i | 0 <= i < |items| :: items[i].key != key
    {
      out := null;
      if head != null {
        var bkt := BitAnd(hashFcn(key), numBuckets - 1);
        ghost var c, i := chains[bkt], 0;
        out := buckets[bkt].hhHead;
        while out != null
          invariant 0 <= i <= |c| && out == At(c, i)
          invariant forall t | 0 <= t < i :: c[t].key != key
          decreases |c| - i
        {
          if |out.key| == |key| && out.key == key {
            assert out in c;
            return;
          }
          assert c[i] == out;
          out := out.hhNext;
          i := i + 1;
        }
        forall k | 0 <= k < |items| ensures items[k].key != key {
          assert items[k] in items;
        }
      }
    }

    /** HASH_MAKE_TABLE */
    method MakeTable()
      modifies this`buckets, this`numBuckets, this`log2NumBuckets, this`numItems, this`idealChainMaxlen
      modifies this`nonidealItems, this`ineffExpands, this`noexpand, this`chains
      ensures fresh(buckets) && numItems == 0 && BucketsValid([]) && Unexpanded()
      ensures forall b | 0 <= b < |chains| :: chains[b] == []
    {
      numBuckets := INITIAL_NUM_BUCKETS;
      log2NumBuckets := INITIAL_NUM_BUCKETS_LOG2;
      buckets := new Bucket<V>[INITIAL_NUM_BUCKETS](_ => Bucket(null, 0, 0));
      numItems, idealChainMaxlen, nonidealItems, ineffExpands, noexpand := 0, 0, 0, 0, false;
      chains := seq(INITIAL_NUM_BUCKETS, _ => []);
    }

    /** Makes the table for the first item. */
    method AppendFirst(add: Handle<V>)
      requires items == []
      modifies this, add`prev, add`next
      ensures AppValid() && BucketsValid([]) && items == [add] && Unexpanded()
      ensures forall b | 0 <= b < |chains| :: chains[b] == []
      ensures fresh(buckets)
    {
      add.next := null;
      head := add;
      head.prev := null;
      MakeTable();
      tail := add;
      numItems := numItems + 1;
      items := [add];
    }

    /** Puts `add` at the end of a non-empty application-order list. */
    method AppendLast(add: Handle<V>)
      requires AppValid() && items != [] && add !in items
      modifies this`tail, this`items, this`numItems, add`prev, add`next, items`next
      ensures AppValid() && items == old(items) + [add]
    {
      ghost var ms := items;
      add.next := null;
      tail.next := add;
      add.prev := tail;
      tail := add;
      numItems := numItems + 1;
      items := items + [add];
      forall i | 0 <= i < |items|
        ensures items[i].prev == At(items, i - 1) && items[i].next == At(items, i + 1)
      {
        if i < |ms| {
          assert items[i] == ms[i] && old(ms[i].prev) == At(ms, i - 1) && old(ms[i].next) == At(ms, i + 1);
        }
      }
    }

    /** The application-order half of HASH_ADD_KEYPTR. */
    method AddToList(add: Handle<V>)
      requires Valid() && add !in items
      modifies this, add`prev, add`next, add`hashv, items`next
      ensures AppValid() && items == old(items) + [add]
      ensures BucketsValid(old(items)) && add.hashv == hashFcn(add.key)
      ensures buckets == old(buckets) || fresh(buckets)
      ensures old(items) == [] ==> Unexpanded() && forall b | 0 <= b < |chains| :: chains[b] == []
      ensures old(items) != [] ==> SameTable()
    {
      if head == null {
        AppendFirst(add);
      } else {
        AppendLast(add);
        assert BucketsValid(old(items));
      }
      add.hashv := hashFcn(add.key);
    }

    /** The table has its 32 buckets, none of which holds ten nodes, and has never been doubled. */
    ghost predicate Unexpanded()
      reads this`numBuckets, this`chains, this`buckets, this`ineffExpands, this`noexpand, buckets
    {
      && numBuckets == 32 == |chains| == buckets.Length && ineffExpands == 0 && !noexpand
      && (forall b | 0 <= b < 32 :: buckets[b].expandMult == 0)
      && forall b | 0 <= b < 32 :: |chains[b]| < 10
    }

    /** One more node brings bucket `b` to ten times one more than its multiplier, and the table has not given up. */
    ghost predicate Crowds(b: nat)
      reads this`chains, this`buckets, this`noexpand, buckets
    {
      b < |chains| == buckets.Length && |chains[b]| + 1 >= 10 * (buckets[b].expandMult + 1) && !noexpand
    }

    twostate predicate SameTable()
      reads this`numBuckets, this`log2NumBuckets, this`idealChainMaxlen, this`nonidealItems
      reads this`ineffExpands, this`noexpand, this`chains, this`buckets, buckets
    {
      && SameSizes() && chains == old(chains)
      && forall k | 0 <= k < buckets.Length :: buckets[k] == old(buckets[k])
    }

    /** Neither the buckets nor what the table keeps about expanding are changed. */
    twostate predicate SameSizes()
      reads this`numBuckets, this`log2NumBuckets, this`idealChainMaxlen, this`nonidealItems
      reads this`ineffExpands, this`noexpand, this`buckets, buckets
    {
      && buckets == old(buckets) && numBuckets == old(numBuckets) && log2NumBuckets == old(log2NumBuckets)
      && idealChainMaxlen == old(idealChainMaxlen) && nonidealItems == old(nonidealItems)
      && ineffExpands == old(ineffExpands) && noexpand == old(noexpand)
      && forall k | 0 <= k < buckets.Length :: buckets[k].expandMult == old(buckets[k].expandMult)
    }

    /** `add` is in front of bucket `b`; the table is doubled exactly if that crowds the bucket. */
    twostate predicate Placed(new add: Handle<V>, new b: nat)
      reads this, buckets
    {
      && b < |old(chains)|
      && if old(Crowds(b)) then
           && Expanded(old(numBuckets), Push(old(chains), b, add))
           && ineffExpands == (if nonidealItems > numItems / 2 then old(ineffExpands) + 1 else 0)
           && noexpand == (ineffExpands > 1)
         else SameSizes() && chains == Push(old(chains), b, add)
    }

    /** HASH_ADD_KEYPTR: last in application order, first in its bucket. */
    method Add(add: Handle<V>)
      requires Valid() && add !in items
      modifies this, buckets, add`prev, add`next, add`hhPrev, add`hhNext, add`hashv
      modifies items`next, items`hhPrev, items`hhNext
      ensures Valid() && items == old(items) + [add]
      ensures buckets == old(buckets) || fresh(buckets)
      ensures old(items) != [] ==> old(numBuckets) > 0 && Placed(add, hashFcn(add.key) % old(numBuckets))
      ensures old(items) == [] ==> Unexpanded()
      ensures old(items) != [] && old(Unexpanded()) ==>
                (Unexpanded() <==> |old(chains)[hashFcn(add.key) % 32]| + 1 < 10)
    {
      hide ChainsHold, ChainsLinked, HeadsMatch;
      ghost var ms := items;
      AddToList(add);
      AddToBucket(add, ms);
    }

    /** The insertion half of HASH_ADD_TO_BKT. */
    method InsertInBucket(add: Handle<V>, ghost ms: seq<Handle<V>>, bkt: nat)
      requires BucketsValid(ms) && add !in ms
      requires add.hashv == hashFcn(add.key) && bkt == BucketOf(hashFcn, add.key, numBuckets)
      modifies this`chains, buckets, add`hhPrev, add`hhNext, ms`hhPrev
      ensures BucketsValid(ms + [add])
      ensures bkt < |old(chains)| && SameSizes() && chains == Push(old(chains), bkt, add)
    {
      ChainsApart(hashFcn, chains, ms, add);
      PushHolds(hashFcn, chains, ms, bkt, add);
      assert forall i | 0 <= i < |chains[bkt]| :: chains[bkt][i] in ms;
      LinkInBucket(add, ms + [add], bkt);
    }

    method LinkInBucket(add: Handle<V>, ghost ms: seq<Handle<V>>, bkt: nat)
      requires numBuckets == Pow2(log2NumBuckets) == buckets.Length && bkt < numBuckets
      requires HeadsMatch(buckets[..], chains) && ChainsLinked(chains, ms)
      requires Apart(chains, bkt, add) && Distinct(chains[bkt]) && add in ms
      requires ChainsHold(hashFcn, Push(chains, bkt, add), ms)
      requires forall x {:trigger x.hashv} | x in ms :: x.hashv == hashFcn(x.key)
      modifies this`chains, buckets, add`hhPrev, add`hhNext, FirstOf(chains[bkt])`hhPrev
      ensures BucketsValid(ms)
      ensures SameSizes() && chains == Push(old(chains), bkt, add)
    {
      hide ChainsHold, ChainsLinked, Pow2;
      buckets[bkt] := buckets[bkt].(count := buckets[bkt].count + 1);
      PushFront(buckets, bkt, add, chains, ms);
      chains := Push(chains, bkt, add);
    }

    /** HASH_ADD_TO_BKT: expands when the chain has grown to a multiple of the capacity threshold. */
    method AddToBucket(add: Handle<V>, ghost ms: seq<Handle<V>>)
      requires BucketsValid(ms) && add !in ms && numItems > 0
      requires add.hashv == hashFcn(add.key)
      modifies this`buckets, this`numBuckets, this`log2NumBuckets, this`idealChainMaxlen
      modifies this`nonidealItems, this`ineffExpands, this`noexpand, this`chains
      modifies buckets, add`hhPrev, add`hhNext, ms`hhPrev, ms`hhNext
      ensures BucketsValid(ms + [add])
      ensures buckets == old(buckets) || fresh(buckets)
      ensures old(numBuckets) > 0 && Placed(add, add.hashv % old(numBuckets))
    {
      MaskIsMod(add.hashv, log2NumBuckets);
      var bkt := BitAnd(add.hashv, numBuckets - 1);
      InsertInBucket(add, ms, bkt);
      if buckets[bkt].count >= (buckets[bkt].expandMult + 1) * BKT_CAPACITY_THRESH && !noexpand {
        ExpandBuckets(ms + [add]);
      }
    }

    /** Counts one more node in bucket `bkt`; beyond the ideal length it is a non-ideal one. */
    method CountNode(nb: array<Bucket<V>>, bkt: nat, ghost nw: seq<seq<Handle<V>>>, ghost h: Handle<V>)
      requires bkt < nb.Length == |nw| && idealChainMaxlen > 0
      requires nb[bkt].count == |nw[bkt]| && nb[bkt].expandMult == Multiplier(|nw[bkt]|, idealChainMaxlen)
      requires nonidealItems == Nonideal(nw, idealChainMaxlen)
      modifies nb, this`nonidealItems
      ensures var now := Bucket(old(nb[bkt].hhHead), |nw[bkt]| + 1, Multiplier(|nw[bkt]| + 1, idealChainMaxlen));
              nb[..] == old(nb[..])[bkt := now]
      ensures nonidealItems == Nonideal(Push(nw, bkt, h), idealChainMaxlen)
    {
      NonidealPush(nw, bkt, h, idealChainMaxlen);
      nb[bkt] := nb[bkt].(count := nb[bkt].count + 1);
      if nb[bkt].count > idealChainMaxlen {
        nonidealItems := nonidealItems + 1;
        nb[bkt] := nb[bkt].(expandMult := nb[bkt].count / idealChainMaxlen);
      }
    }

    method PlaceNode(nb: array<Bucket<V>>, bkt: nat, h: Handle<V>,
                     ghost nw: seq<seq<Handle<V>>>, ghost ms: seq<Handle<V>>)
      requires bkt < nb.Length == |nw| && idealChainMaxlen > 0 && nb[bkt].hhHead == At(nw[bkt], 0)
      requires nb[bkt].count == |nw[bkt]| && nb[bkt].expandMult == Multiplier(|nw[bkt]|, idealChainMaxlen)
      requires nonidealItems == Nonideal(nw, idealChainMaxlen)
      requires ChainsLinked(nw, ms) && Apart(nw, bkt, h) && h in ms && Distinct(nw[bkt])
      modifies nb, this`nonidealItems, h`hhPrev, h`hhNext, FirstOf(nw[bkt])`hhPrev
      ensures nb[..] == old(nb[..])[bkt := Bucket(h, |nw[bkt]| + 1, Multiplier(|nw[bkt]| + 1, idealChainMaxlen))]
      ensures nonidealItems == Nonideal(Push(nw, bkt, h), idealChainMaxlen)
      ensures ChainsLinked(Push(nw, bkt, h), ms)
    {
      CountNode(nb, bkt, nw, h);
      PushFront(nb, bkt, h, nw, ms);
    }

    /** Placing `h` leaves every other node still to be moved linked as it was. */
    method PlaceFirst(nb: array<Bucket<V>>, bkt: nat, h: Handle<V>,
                      ghost nw: seq<seq<Handle<V>>>, ghost ms: seq<Handle<V>>,
                      ghost i: nat, ghost j: nat)
      requires bkt < nb.Length == |nw| && idealChainMaxlen > 0 && nb[bkt].hhHead == At(nw[bkt], 0)
      requires nb[bkt].count == |nw[bkt]| && nb[bkt].expandMult == Multiplier(|nw[bkt]|, idealChainMaxlen)
      requires nonidealItems == Nonideal(nw, idealChainMaxlen)
      requires ChainsLinked(nw, ms) && Apart(nw, bkt, h) && h in ms && Distinct(nw[bkt])
      requires Remaining(chains, ms, i, j)
      requires forall b, t | i <= b < |chains| && 0 <= t < |chains[b]| && (b == i ==> j < t) :: chains[b][t] != h
      modifies nb, this`nonidealItems, h`hhPrev, h`hhNext, FirstOf(nw[bkt])`hhPrev
      ensures nb[..] == old(nb[..])[bkt := Bucket(h, |nw[bkt]| + 1, Multiplier(|nw[bkt]| + 1, idealChainMaxlen))]
      ensures nonidealItems == Nonideal(Push(nw, bkt, h), idealChainMaxlen)
      ensures ChainsLinked(Push(nw, bkt, h), ms)
      ensures Remaining(chains, ms, i, j + 1)
    {
      PlaceNode(nb, bkt, h, nw, ms);
      forall b, t | i <= b < |chains| && 0 <= t < |chains[b]| && (b == i ==> j + 1 <= t)
        ensures chains[b][t] in ms && chains[b][t].hhNext == At(chains[b], t + 1)
      {
        assert old(chains[b][t].hhNext) == At(chains[b], t + 1);
      }
    }

    /** Moves node `j` of old bucket `i` to the front of its new bucket. */
    method MoveNode(nb: array<Bucket<V>>, thh: Handle<V>, ghost nw0: seq<seq<Handle<V>>>, ghost ms: seq<Handle<V>>,
                    ghost i: nat, ghost j: nat)
      returns (ghost nw: seq<seq<Handle<V>>>)
      requires numBuckets == Pow2(log2NumBuckets) && numBuckets == |chains|
      requires i < |chains| && j < |chains[i]| && thh == chains[i][j] && thh.hashv == hashFcn(thh.key)
      requires ChainsHold(hashFcn, chains, ms)
      requires Expanding(hashFcn, nb[..], nw0, chains, i, j, idealChainMaxlen)
      requires ChainsLinked(nw0, ms) && Remaining(chains, ms, i, j)
      requires nonidealItems == Nonideal(nw0, idealChainMaxlen)
      modifies nb, this`nonidealItems, ms`hhPrev, ms`hhNext
      ensures Expanding(hashFcn, nb[..], nw, chains, i, j + 1, idealChainMaxlen)
      ensures ChainsLinked(nw, ms) && Remaining(chains, ms, i, j + 1)
      ensures nonidealItems == Nonideal(nw, idealChainMaxlen)
    {
      MoveTarget(hashFcn, nb[..], nw0, ms, chains, log2NumBuckets, i, j, idealChainMaxlen);
      var bkt := BitAnd(thh.hashv, 2 * numBuckets - 1);
      ghost var was := nb[..];
      PlaceFirst(nb, bkt, thh, nw0, ms, i, j);
      MoveOne(hashFcn, was, nb[..], nw0, chains, i, j, idealChainMaxlen, bkt);
      nw := Push(nw0, bkt, thh);
    }

    /** The inner loop of HASH_EXPAND_BUCKETS: moves the chain of one old bucket. */
    method MoveBucket(nb: array<Bucket<V>>, ghost nw0: seq<seq<Handle<V>>>, ghost ms: seq<Handle<V>>, i: nat)
      returns (ghost nw: seq<seq<Handle<V>>>)
      requires i < numBuckets == buckets.Length == Pow2(log2NumBuckets) && nb != buckets
      requires ChainsHold(hashFcn, chains, ms) && HeadsMatch(buckets[..], chains)
      requires forall x {:trigger x.hashv} | x in ms :: x.hashv == hashFcn(x.key)
      requires Expanding(hashFcn, nb[..], nw0, chains, i, 0, idealChainMaxlen)
      requires ChainsLinked(nw0, ms) && Remaining(chains, ms, i, 0)
      requires nonidealItems == Nonideal(nw0, idealChainMaxlen)
      modifies nb, this`nonidealItems, ms`hhPrev, ms`hhNext
      ensures Expanding(hashFcn, nb[..], nw, chains, i + 1, 0, idealChainMaxlen)
      ensures ChainsLinked(nw, ms) && Remaining(chains, ms, i + 1, 0)
      ensures nonidealItems == Nonideal(nw, idealChainMaxlen)
    {
      hide ChainsLinked, Expanding, Pow2, MultipliersSet;
      nw := nw0;
      ghost var j := 0;
      ExpandingSizes(hashFcn, nb[..], nw, chains, i, 0, idealChainMaxlen);
      var thh := buckets[i].hhHead;
      while thh != null
        invariant 0 <= j <= |chains[i]| && thh == At(chains[i], j)
        invariant Expanding(hashFcn, nb[..], nw, chains, i, j, idealChainMaxlen)
        invariant ChainsLinked(nw, ms) && Remaining(chains, ms, i, j)
        invariant nonidealItems == Nonideal(nw, idealChainMaxlen)
        decreases |chains[i]| - j
      {
        assert chains[i][j] in ms;
        var nxt := thh.hhNext;
        nw := MoveNode(nb, thh, nw, ms, i, j);
        thh := nxt;
        j := j + 1;
      }
      NextBucket(hashFcn, nb[..], nw, chains, i, idealChainMaxlen);
    }

    /** The outer loop of HASH_EXPAND_BUCKETS. */
    method MoveAll(nb: array<Bucket<V>>, ghost nw0: seq<seq<Handle<V>>>, ghost ms: seq<Handle<V>>)
      returns (ghost nw: seq<seq<Handle<V>>>)
      requires numBuckets == buckets.Length == Pow2(log2NumBuckets) && nb != buckets
      requires ChainsHold(hashFcn, chains, ms) && HeadsMatch(buckets[..], chains)
      requires forall x {:trigger x.hashv} | x in ms :: x.hashv == hashFcn(x.key)
      requires Expanding(hashFcn, nb[..], nw0, chains, 0, 0, idealChainMaxlen)
      requires ChainsLinked(nw0, ms) && Remaining(chains, ms, 0, 0)
      requires nonidealItems == Nonideal(nw0, idealChainMaxlen)
      modifies nb, this`nonidealItems, ms`hhPrev, ms`hhNext
      ensures Expanding(hashFcn, nb[..], nw, chains, |chains|, 0, idealChainMaxlen)
      ensures ChainsLinked(nw, ms)
      ensures nonidealItems == Nonideal(nw, idealChainMaxlen)
    {
      nw := nw0;
      var i := 0;
      while i < numBuckets
        invariant 0 <= i <= numBuckets
        invariant Expanding(hashFcn, nb[..], nw, chains, i, 0, idealChainMaxlen)
        invariant ChainsLinked(nw, ms) && Remaining(chains, ms, i, 0)
        invariant nonidealItems == Nonideal(nw, idealChainMaxlen)
      {
        nw := MoveBucket(nb, nw, ms, i);
        i := i + 1;
      }
    }

    /** Fills the new bucket array from the old one. */
    method Redistribute(nb: array<Bucket<V>>, ghost ms: seq<Handle<V>>) returns (ghost nw: seq<seq<Handle<V>>>)
      requires BucketsValid(ms) && nb != buckets && nb.Length == 2 * numBuckets && idealChainMaxlen > 0
      requires forall k | 0 <= k < nb.Length :: nb[k] == Bucket(null, 0, 0)
      modifies nb, this`nonidealItems, ms`hhPrev, ms`hhNext
      ensures HeadsMatch(nb[..], nw) && ChainsHold(hashFcn, nw, ms) && ChainsLinked(nw, ms)
      ensures Redistributed(hashFcn, chains, nw)
      ensures nonidealItems == Nonideal(nw, idealChainMaxlen)
      ensures MultipliersSet(nb[..], nw, idealChainMaxlen)
    {
      nonidealItems := 0;
      nw := seq(nb.Length, _ => []);
      NonidealEmpty(nw, idealChainMaxlen);
      ExpandingStart(hashFcn, nb[..], nw, chains, idealChainMaxlen);
      nw := MoveAll(nb, nw, ms);
      ExpandedHolds(hashFcn, nb[..], nw, ms, chains, log2NumBuckets, idealChainMaxlen);
    }

    /** Redistributes and switches to the new bucket array. */
    method Rehash(nb: array<Bucket<V>>, ghost ms: seq<Handle<V>>)
      requires BucketsValid(ms) && nb != buckets && nb.Length == 2 * numBuckets && idealChainMaxlen > 0
      requires forall k | 0 <= k < nb.Length :: nb[k] == Bucket(null, 0, 0)
      modifies nb, this`nonidealItems, ms`hhPrev, ms`hhNext
      modifies this`buckets, this`numBuckets, this`log2NumBuckets, this`chains
      ensures buckets == nb && numBuckets == 2 * old(numBuckets)
      ensures BucketsValid(ms)
      ensures Redistributed(hashFcn, old(chains), chains)
      ensures nonidealItems == Nonideal(chains, idealChainMaxlen)
      ensures MultipliersSet(buckets[..], chains, idealChainMaxlen)
    {
      ghost var nw := Redistribute(nb, ms);
      Install(nb, nw, ms);
    }

    method SetIdealLength()
      requires numBuckets == Pow2(log2NumBuckets) && numItems > 0
      modifies this`idealChainMaxlen
      ensures idealChainMaxlen >= 1 && idealChainMaxlen == Ceiling(numItems, 2 * numBuckets)
    {
      CeilingOfShift(numItems, log2NumBuckets + 1);
      idealChainMaxlen := ShiftRight(numItems, log2NumBuckets + 1) +
        (if BitAnd(numItems, 2 * numBuckets - 1) != 0 then 1 else 0);
    }

    method CountIneffectiveExpand()
      modifies this`ineffExpands, this`noexpand
      ensures ineffExpands == if nonidealItems > numItems / 2 then old(ineffExpands) + 1 else 0
      ensures noexpand == (old(noexpand) || ineffExpands > 1)
    {
      assert ShiftRight(numItems, 1) == ShiftRight(numItems / 2, 0) == numItems / 2;
      ineffExpands := if nonidealItems > ShiftRight(numItems, 1) then ineffExpands + 1 else 0;
      if ineffExpands > 1 {
        noexpand := true;
      }
    }

    /** HASH_EXPAND_BUCKETS up to the accounting of ineffective expansions. */
    method Grow(ghost ms: seq<Handle<V>>)
      requires BucketsValid(ms) && numItems > 0
      modifies this`buckets, this`numBuckets, this`log2NumBuckets, this`idealChainMaxlen
      modifies this`nonidealItems, this`chains
      modifies ms`hhPrev, ms`hhNext
      ensures BucketsValid(ms) && fresh(buckets)
      ensures Expanded(old(numBuckets), old(chains))
    {
      var nb := new Bucket<V>[2 * numBuckets](_ => Bucket(null, 0, 0));
      SetIdealLength();
      Rehash(nb, ms);
    }

    /** What an expansion of a table of `n` buckets holding `c` has computed. */
    ghost predicate Expanded(n: nat, c: seq<seq<Handle<V>>>)
      reads this`numBuckets, this`chains, this`idealChainMaxlen, this`numItems, this`nonidealItems
      reads this`buckets, buckets
    {
      && numBuckets == 2 * n && n > 0
      && Redistributed(hashFcn, c, chains)
      && idealChainMaxlen >= 1 && idealChainMaxlen == Ceiling(numItems, numBuckets)
      && nonidealItems == Nonideal(chains, idealChainMaxlen)
      && MultipliersSet(buckets[..], chains, idealChainMaxlen)
    }

    /**
      HASH_EXPAND_BUCKETS: doubles the table. Bucket `k` of the new table receives exactly the
      nodes of old bucket `k` or `k - n` that belong there, last first.
     */
    method ExpandBuckets(ghost ms: seq<Handle<V>>)
      requires BucketsValid(ms) && numItems > 0
      modifies this`buckets, this`numBuckets, this`log2NumBuckets, this`idealChainMaxlen
      modifies this`nonidealItems, this`ineffExpands, this`noexpand, this`chains
      modifies ms`hhPrev, ms`hhNext
      ensures BucketsValid(ms) && fresh(buckets)
      ensures Expanded(old(numBuckets), old(chains))
      ensures ineffExpands == if nonidealItems > numItems / 2 then old(ineffExpands) + 1 else 0
      ensures noexpand == (old(noexpand) || ineffExpands > 1)
    {
      Grow(ms);
      CountIneffectiveExpand();
    }

    method Install(nb: array<Bucket<V>>, ghost nw: seq<seq<Handle<V>>>, ghost ms: seq<Handle<V>>)
      requires HeadsMatch(nb[..], nw) && ChainsHold(hashFcn, nw, ms) && ChainsLinked(nw, ms)
      requires forall x {:trigger x.hashv} | x in ms :: x.hashv == hashFcn(x.key)
      requires nb.Length == 2 * numBuckets && numBuckets == Pow2(log2NumBuckets)
      modifies this`buckets, this`numBuckets, this`log2NumBuckets, this`chains
      ensures buckets == nb && chains == nw && numBuckets == 2 * old(numBuckets)
      ensures BucketsValid(ms)
    {
      buckets := nb;
      numBuckets := 2 * numBuckets;
      log2NumBuckets := log2NumBuckets + 1;
      chains := nw;
    }

    // -------------------------------------------------------------- removal

    /** Moves the ends of the application-order list off the item that is about to go. */
    method StepEndsOff(del: Handle<V>, ghost k: nat)
      requires AppValid() && |items| > 1 && k < |items| && items[k] == del
      modifies this`head, this`tail
      ensures head == At(Without(items, k), 0) && tail == At(Without(items, k), |items| - 2)
    {
      assert del.prev == At(items, k - 1) && del.next == At(items, k + 1);
      WithoutAt(items, k, 0);
      WithoutAt(items, k, |items| - 2);
      if del == tail {
        tail := del.prev;
      }
      if del.prev == null {
        head := del.next;
      }
    }

    /** The application-order half of HASH_DELETE. */
    method UnlinkFromList(del: Handle<V>, ghost k: nat)
      requires AppValid() && |items| > 1 && k < |items| && items[k] == del
      modifies this`head, this`tail, this`numItems, this`items, items`prev, items`next
      ensures AppValid() && items == Without(old(items), k)
    {
      StepEndsOff(del, k);
      WithoutDistinct(items, k);
      UnlinkApp(del, items, k);
      numItems := numItems - 1;
      items := Without(items, k);
    }

    /** HASH_DEL_IN_BKT, with the bucket of the item's hash value. */
    method DeleteInBucket(del: Handle<V>, ghost ms: seq<Handle<V>>, ghost ms': seq<Handle<V>>)
      requires BucketsValid(ms) && del in ms
      requires forall x :: x in ms' <==> x in ms && x != del
      modifies this`chains, buckets, ms`hhPrev, ms`hhNext
      ensures BucketsValid(ms') && SameSizes()
    {
      var bkt := BitAnd(del.hashv, numBuckets - 1);
      ghost var c := chains[bkt];
      assert del in c;
      ghost var t :| 0 <= t < |c| && c[t] == del;
      assert HhLinks(c);
      TakeFromBucket(del, bkt, c, t);
      assert SameSizes() by {
        assert forall k | 0 <= k < buckets.Length :: buckets[..][k] == buckets[k];
      }
      assert HeadsMatch(buckets[..], chains[bkt := Without(c, t)]);
      UnlinkInBuckets(del, bkt, t, ms, ms');
    }

    /** The relinking of HASH_DEL_IN_BKT, once the bucket has let go of the item. */
    method UnlinkInBuckets(del: Handle<V>, ghost bkt: nat, ghost t: nat,
                           ghost ms: seq<Handle<V>>, ghost ms': seq<Handle<V>>)
      requires bkt < |chains| && t < |chains[bkt]| && chains[bkt][t] == del
      requires numBuckets == Pow2(log2NumBuckets) == buckets.Length
      requires HeadsMatch(buckets[..], chains[bkt := Without(chains[bkt], t)])
      requires ChainsHold(hashFcn, chains, ms) && ChainsLinked(chains, ms)
      requires forall x {:trigger x.hashv} | x in ms :: x.hashv == hashFcn(x.key)
      requires forall x :: x in ms' <==> x in ms && x != del
      modifies this`chains, chains[bkt]`hhPrev, chains[bkt]`hhNext
      ensures BucketsValid(ms')
    {
      RemoveHolds(hashFcn, chains, ms, ms', bkt, t);
      UnlinkFromChain(del, chains, bkt, t, ms, ms');
      chains := chains[bkt := Without(chains[bkt], t)];
    }

    method TakeFromBucket(del: Handle<V>, bkt: nat, ghost c: seq<Handle<V>>, ghost t: nat)
      requires bkt < buckets.Length && t < |c| && c[t] == del && Distinct(c) && HhLinks(c)
      requires buckets[bkt].hhHead == At(c, 0) && buckets[bkt].count == |c|
      modifies buckets
      ensures buckets[..] == old(buckets[..])[bkt := buckets[bkt]]
      ensures buckets[bkt].hhHead == At(Without(c, t), 0) && buckets[bkt].count == |Without(c, t)|
      ensures buckets[bkt].expandMult == old(buckets[bkt].expandMult)
    {
      assert c[t].hhNext == At(c, t + 1);
      WithoutAt(c, t, 0);
      buckets[bkt] := buckets[bkt].(count := buckets[bkt].count - 1);
      if buckets[bkt].hhHead == del {
        buckets[bkt] := buckets[bkt].(hhHead := del.hhNext);
      }
    }

    /** HASH_DELETE: removing the last item gives the table back. */
    method Delete(del: Handle<V>, ghost k: nat)
      requires Valid() && k < |items| && items[k] == del
      modifies this, buckets, items`prev, items`next, items`hhPrev, items`hhNext
      ensures Valid() && items == Without(old(items), k) && buckets == old(buckets)
      ensures |old(items)| > 1 ==> SameSizes()
    {
      assert del.prev == At(items, k - 1) && del.next == At(items, k + 1);
      if del.prev == null && del.next == null {
        head := null;
        items, chains := [], [];
      } else {
        DeleteOneOfMany(del, k);
      }
    }

    method DeleteOneOfMany(del: Handle<V>, ghost k: nat)
      requires AppValid() && |items| > 1 && k < |items| && items[k] == del && BucketsValid(items)
      modifies this`head, this`tail, this`numItems, this`items, this`chains
      modifies buckets, items`prev, items`next, items`hhPrev, items`hhNext
      ensures AppValid() && BucketsValid(items) && items == Without(old(items), k) && SameSizes()
    {
      hide ChainsHold, ChainsLinked, HeadsMatch;
      ghost var ms := items;
      WithoutMembers(ms, k);
      UnlinkFromList(del, k);
      assert BucketsValid(ms);
      DeleteInBucket(del, ms, items);
      assert AppLinks(items);
    }

    // -------------------------------------------------------------- sorting and self-check

    /** HASH_SRT: the items in sorted order; buckets and chains, and so every lookup, stay as they were. */
    method Sort(cmp: Cmp<Handle<V>>, ghost dom: set<Handle<V>>)
      requires Valid()
      modifies this`head, this`tail, this`items, items`prev, items`next
      ensures Valid()
      ensures SortOf(cmp, old(items), items, dom) && SameNodes(old(items), items)
    {
      if head != null {
        SortItems(cmp, dom);
      }
    }

    method SortItems(cmp: Cmp<Handle<V>>, ghost dom: set<Handle<V>>)
      requires AppValid() && items != [] && BucketsValid(items)
      modifies this`head, this`tail, this`items, items`prev, items`next
      ensures AppValid() && BucketsValid(items)
      ensures SortOf(cmp, old(items), items, dom) && SameNodes(old(items), items)
    {
      hide SortOf, SameNodes, ChainsHold, ChainsLinked, HeadsMatch;
      var list, last, r := RelinkSorted(cmp, dom);
      head, tail, items := list, last, r;
    }

    method RelinkSorted(cmp: Cmp<Handle<V>>, ghost dom: set<Handle<V>>)
      returns (list: Handle<V>, last: Handle<V>, ghost r: seq<Handle<V>>)
      requires AppValid() && items != [] && BucketsValid(items)
      modifies items`prev, items`next
      ensures AppLinks(r) && Distinct(r) && r != [] && list == r[0] && last == r[|r| - 1]
      ensures SortOf(cmp, items, r, dom) && SameNodes(items, r)
      ensures BucketsValid(r)
    {
      var l, t;
      l, t, r := SortList(head, cmp, items, dom);
      list, last := l, t;
      SameItemsValid(items, r);
    }

    lemma SameItemsValid(s: seq<Handle<V>>, r: seq<Handle<V>>)
      requires BucketsValid(s) && SameNodes(s, r)
      ensures BucketsValid(r)
    {
      SameItemsHold(hashFcn, chains, s, r);
    }

    /** Walks one chain, checking every `hhPrev`. */
    method FsckBucket(b: nat) returns (ok: bool, count: nat)
      requires BucketsValid(items) && b < numBuckets
      ensures ok && count == |chains[b]|
    {
      ghost var c := chains[b];
      var thh, prev: Handle?<V> := buckets[b].hhHead, null;
      ok, count := true, 0;
      assert HhLinks(c);
      while thh != null
        invariant ok && 0 <= count <= |c| && thh == At(c, count) && prev == At(c, count - 1)
        decreases |c| - count
      {
        assert c[count].hhPrev == At(c, count - 1);
        ok := ok && prev == thh.hhPrev;
        assert c[count].hhNext == At(c, count + 1);
        count := count + 1;
        prev := thh;
        thh := thh.hhNext;
      }
    }

    /** Walks the application-order list, checking every `prev`. */
    method FsckList() returns (ok: bool, count: nat)
      requires AppValid()
      ensures ok && count == |items|
    {
      var thh, prev: Handle?<V> := head, null;
      ok, count := true, 0;
      while thh != null
        invariant ok && 0 <= count <= |items| && thh == At(items, count) && prev == At(items, count - 1)
        decreases |items| - count
      {
        assert items[count].prev == At(items, count - 1);
        ok := ok && prev == thh.prev;
        assert items[count].next == At(items, count + 1);
        count := count + 1;
        prev := thh;
        thh := thh.next;
      }
    }

    /** HASH_FSCK: the integrity check of the source, which aborts where this returns false. */
    method Fsck() returns (ok: bool)
      requires Valid()
      ensures ok
    {
      hide ChainsHold, ChainsLinked;
      ok := true;
      if head != null {
        var count := 0;
        var i := 0;
        while i < numBuckets
          invariant ok && 0 <= i <= numBuckets && count == |Flat(chains, i)|
        {
          var linked, bktCount := FsckBucket(i);
          count := count + bktCount;
          ok := ok && linked && buckets[i].count == bktCount;
          i := i + 1;
        }
        ChainsCountItems(hashFcn, chains, items);
        ok := ok && count == numItems;
        var linked, listed := FsckList();
        ok := ok && linked && listed == numItems;
      }
    }
  }
}

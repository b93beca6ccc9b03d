/**
  What the bucket chains of a hash index hold, and how doubling the table redistributes them.
 */
module HashChains {
  import opened Bits
  import opened HashHandle
  import opened Seqs

  // ---------------------------------------------------------------- redistribution

  /** The bucket of a key among `n`. */
  function BucketOf(hash: Key -> Hash, key: Key, n: nat): (b: nat)
    requires n > 0
    ensures b < n
  {
    BitAnd(hash(key), n - 1)
  }

  /** The chains hold exactly `ms`, each item in the bucket its key selects. */
  ghost predicate ChainsHold<V>(hash: Key -> Hash, chains: seq<seq<Handle<V>>>, ms: seq<Handle<V>>) {
    && |chains| > 0
    && (forall b | 0 <= b < |chains| :: Distinct(chains[b]))
    && (forall b, i | 0 <= b < |chains| && 0 <= i < |chains[b]| ::
          chains[b][i] in ms && BucketOf(hash, chains[b][i].key, |chains|) == b)
    && (forall x {:trigger x in ms} | x in ms :: x in chains[BucketOf(hash, x.key, |chains|)])
  }

  /** What pushing the nodes of `c` one by one leaves in bucket `k` of `m`: those that belong, last first. */
  ghost function RevFilter<V>(hash: Key -> Hash, c: seq<Handle<V>>, k: nat, m: nat): seq<Handle<V>>
    requires m > 0
  {
    if c == [] then []
    else
      var h, rest := c[|c| - 1], RevFilter(hash, c[..|c| - 1], k, m);
      if BucketOf(hash, h.key, m) == k then [h] + rest else rest
  }

  lemma {:induction false} RevFilterMembers<V>(hash: Key -> Hash, c: seq<Handle<V>>, k: nat, m: nat)
    requires m > 0
    ensures forall x :: x in RevFilter(hash, c, k, m) <==> x in c && BucketOf(hash, x.key, m) == k
    ensures Distinct(c) ==> Distinct(RevFilter(hash, c, k, m))
  {
    if c == [] {
    } else {
      var d, h := c[..|c| - 1], c[|c| - 1];
      RevFilterMembers(hash, d, k, m);
      assert c == d + [h];
    }
  }

  lemma RevFilterPush<V>(hash: Key -> Hash, c: seq<Handle<V>>, j: nat, k: nat, m: nat)
    requires m > 0 && j < |c|
    ensures RevFilter(hash, c[..j + 1], k, m) ==
            if BucketOf(hash, c[j].key, m) == k then [c[j]] + RevFilter(hash, c[..j], k, m)
            else RevFilter(hash, c[..j], k, m)
  {
    assert c[..j + 1][..j] == c[..j];
  }

  /** The bucket of the half-size table that bucket `k` is filled from. */
  function Low(k: nat, n: nat): nat {
    if k < n then k else k - n
  }

  /** The nodes offered to bucket `k` once old buckets below `i` and `j` nodes of bucket `i` are done. */
  ghost function Moved<V>(c: seq<seq<Handle<V>>>, i: nat, j: nat, k: nat): seq<Handle<V>>
    requires i <= |c| && (i < |c| ==> j <= |c[i]|) && k < 2 * |c|
  {
    var b := Low(k, |c|);
    if b < i then c[b] else if b == i then c[i][..j] else []
  }

  /** `expand_mult` after an expansion. */
  function Multiplier(count: nat, ideal: nat): nat
    requires ideal > 0
  {
    if count > ideal then count / ideal else 0
  }

  /** As often as the ideal length goes into the chain, if the chain is longer than that. */
  lemma MultiplierMeans(count: nat, ideal: nat)
    requires ideal > 0
    ensures var m := Multiplier(count, ideal);
            if count <= ideal then m == 0 else m >= 1 && m * ideal <= count < (m + 1) * ideal
  {
    if count > ideal {
      var m := count / ideal;
      assert count == ideal * m + count % ideal;
      assert m >= 1 by { MulAtLeast(ideal, m); }
    }
  }

  ghost predicate MultipliersSet<V>(nb: seq<Bucket<V>>, nw: seq<seq<Handle<V>>>, ideal: nat)
    requires ideal > 0
  {
    && |nb| == |nw|
    && forall k {:trigger nb[k].expandMult} | 0 <= k < |nb| :: nb[k].expandMult == Multiplier(|nw[k]|, ideal)
  }

  /** The new table while the old chains `c` are being moved into it. */
  ghost predicate Expanding<V>(hash: Key -> Hash, nb: seq<Bucket<V>>, nw: seq<seq<Handle<V>>>,
                               c: seq<seq<Handle<V>>>, i: nat, j: nat, ideal: nat)
  {
    && |nb| == |nw| == 2 * |c| && i <= |c| && (i < |c| ==> j <= |c[i]|) && ideal > 0
    && HeadsMatch(nb, nw)
    && MultipliersSet(nb, nw, ideal)
    && (forall k {:trigger RevFilter(hash, Moved(c, i, j, k), k, |nw|)} | 0 <= k < |nw| ::
          nw[k] == RevFilter(hash, Moved(c, i, j, k), k, |nw|))
  }

  lemma ExpandingSizes<V>(hash: Key -> Hash, nb: seq<Bucket<V>>, nw: seq<seq<Handle<V>>>,
                          c: seq<seq<Handle<V>>>, i: nat, j: nat, ideal: nat)
    requires Expanding(hash, nb, nw, c, i, j, ideal)
    ensures |nb| == |nw| == 2 * |c|
  {
  }

  /** The nodes still to be moved are linked by `hhNext` as before. */
  ghost predicate Remaining<V>(c: seq<seq<Handle<V>>>, ms: seq<Handle<V>>, i: nat, j: nat)
    reads ms`hhNext
  {
    forall b, t {:trigger c[b][t].hhNext} | i <= b < |c| && 0 <= t < |c[b]| && (b == i ==> j <= t) ::
      c[b][t] in ms && c[b][t].hhNext == At(c[b], t + 1)
  }

  /** Bucket `k` of the doubled table holds what belongs there of old bucket `Low(k)`, last first. */
  ghost predicate Redistributed<V>(hash: Key -> Hash, c: seq<seq<Handle<V>>>, nw: seq<seq<Handle<V>>>) {
    && |nw| == 2 * |c| && |c| > 0
    && forall k {:trigger RevFilter(hash, c[Low(k, |c|)], k, |nw|)} | 0 <= k < |nw| ::
         nw[k] == RevFilter(hash, c[Low(k, |c|)], k, |nw|)
  }

  lemma ExpandingStart<V>(hash: Key -> Hash, nb: seq<Bucket<V>>, nw: seq<seq<Handle<V>>>,
                          c: seq<seq<Handle<V>>>, ideal: nat)
    requires |nb| == |nw| == 2 * |c| && |c| > 0 && ideal > 0
    requires forall k | 0 <= k < |nb| :: nb[k] == Bucket(null, 0, 0) && nw[k] == []
    ensures Expanding(hash, nb, nw, c, 0, 0, ideal)
  {
    forall k | 0 <= k < |nw| ensures nw[k] == RevFilter(hash, Moved(c, 0, 0, k), k, |nw|) {
      assert Moved(c, 0, 0, k) == [];
    }
  }

  lemma NextBucket<V>(hash: Key -> Hash, nb: seq<Bucket<V>>, nw: seq<seq<Handle<V>>>,
                      c: seq<seq<Handle<V>>>, i: nat, ideal: nat)
    requires i < |c| && Expanding(hash, nb, nw, c, i, |c[i]|, ideal)
    ensures Expanding(hash, nb, nw, c, i + 1, 0, ideal)
  {
    forall k | 0 <= k < |nw| ensures nw[k] == RevFilter(hash, Moved(c, i + 1, 0, k), k, |nw|) {
      assert c[i][..|c[i]|] == c[i];
      assert Moved(c, i, |c[i]|, k) == Moved(c, i + 1, 0, k);
    }
  }

  /** Where node `j` of old bucket `i` goes, and why nothing already moved is in the way. */
  lemma MoveTarget<V>(hash: Key -> Hash, nb: seq<Bucket<V>>, nw: seq<seq<Handle<V>>>, ms: seq<Handle<V>>,
                      c: seq<seq<Handle<V>>>, lg: nat, i: nat, j: nat, ideal: nat)
    requires i < |c| && j < |c[i]| && Expanding(hash, nb, nw, c, i, j, ideal)
    requires |c| == Pow2(lg) && ChainsHold(hash, c, ms)
    ensures var b := BucketOf(hash, c[i][j].key, 2 * |c|);
            b < |nw| && Low(b, |c|) == i && Apart(nw, b, c[i][j]) && Distinct(nw[b])
    ensures forall b, t | i <= b < |c| && 0 <= t < |c[b]| && (b == i ==> j < t) :: c[b][t] != c[i][j]
  {
    var h := c[i][j];
    LowBucket(hash, h.key, lg);
    forall k | 0 <= k < |nw|
      ensures forall x | x in nw[k] :: x in Moved(c, i, j, k) && BucketOf(hash, x.key, |nw|) == k
    {
      RevFilterMembers(hash, Moved(c, i, j, k), k, |nw|);
    }
    var b := BucketOf(hash, h.key, |nw|);
    assert nw[b] == RevFilter(hash, Moved(c, i, j, b), b, |nw|);
    RevFilterMembers(hash, Moved(c, i, j, b), b, |nw|);
    forall k, t | 0 <= k < |nw| && k != b && 0 <= t < |nw[k]| ensures nw[k][t] != h && nw[k][t] !in nw[b] {
      assert nw[k][t] in nw[k];
    }
  }

  lemma MoveOne<V>(hash: Key -> Hash, nb: seq<Bucket<V>>, nb': seq<Bucket<V>>, nw: seq<seq<Handle<V>>>,
                   c: seq<seq<Handle<V>>>, i: nat, j: nat, ideal: nat, b: nat)
    requires i < |c| && j < |c[i]| && Expanding(hash, nb, nw, c, i, j, ideal)
    requires b == BucketOf(hash, c[i][j].key, 2 * |c|) && Low(b, |c|) == i
    requires nb' == nb[b := Bucket(c[i][j], |nw[b]| + 1, Multiplier(|nw[b]| + 1, ideal))]
    ensures Expanding(hash, nb', Push(nw, b, c[i][j]), c, i, j + 1, ideal)
  {
    var nw' := Push(nw, b, c[i][j]);
    forall k | 0 <= k < |nw'| ensures nw'[k] == RevFilter(hash, Moved(c, i, j + 1, k), k, |nw'|) {
      assert nw[k] == RevFilter(hash, Moved(c, i, j, k), k, |nw|);
      RevFilterPush(hash, c[i], j, k, |nw'|);
    }
  }

  /** Every item stays in its bucket `b` or moves to bucket `b + n` when `n` buckets are doubled. */
  lemma LowBucket(hash: Key -> Hash, key: Key, lg: nat)
    ensures Low(BucketOf(hash, key, 2 * Pow2(lg)), Pow2(lg)) == BucketOf(hash, key, Pow2(lg))
  {
    MaskGrows(hash(key), lg);
  }

  /** Once every old bucket is done, the new chains hold what the old ones held. */
  lemma ExpandedHolds<V>(hash: Key -> Hash, nb: seq<Bucket<V>>, nw: seq<seq<Handle<V>>>, ms: seq<Handle<V>>,
                         c: seq<seq<Handle<V>>>, lg: nat, ideal: nat)
    requires Expanding(hash, nb, nw, c, |c|, 0, ideal)
    requires |c| == Pow2(lg) && ChainsHold(hash, c, ms)
    ensures ChainsHold(hash, nw, ms)
    ensures Redistributed(hash, c, nw)
  {
    forall k | 0 <= k < |nw|
      ensures forall x :: x in nw[k] <==> x in c[Low(k, |c|)] && BucketOf(hash, x.key, |nw|) == k
      ensures Distinct(nw[k])
    {
      assert nw[k] == RevFilter(hash, Moved(c, |c|, 0, k), k, |nw|);
      RevFilterMembers(hash, c[Low(k, |c|)], k, |nw|);
    }
    forall k | 0 <= k < |nw| ensures nw[k] == RevFilter(hash, c[Low(k, |c|)], k, |nw|) {
      assert nw[k] == RevFilter(hash, Moved(c, |c|, 0, k), k, |nw|);
    }
    forall x | x in ms ensures x in nw[BucketOf(hash, x.key, |nw|)] {
      LowBucket(hash, x.key, lg);
      assert x in c[BucketOf(hash, x.key, |c|)];
    }
    forall k, t | 0 <= k < |nw| && 0 <= t < |nw[k]|
      ensures nw[k][t] in ms && BucketOf(hash, nw[k][t].key, |nw|) == k
    {
      assert nw[k][t] in nw[k];
      var b := Low(k, |c|);
      assert nw[k][t] in c[b];
      var u :| 0 <= u < |c[b]| && c[b][u] == nw[k][t];
    }
  }

  function Excess(count: nat, ideal: nat): nat {
    if count > ideal then count - ideal else 0
  }

  /** The number of items whose chain position exceeds the ideal chain length. */
  ghost function Nonideal<V>(chains: seq<seq<Handle<V>>>, ideal: nat): nat {
    if chains == [] then 0
    else Nonideal(chains[..|chains| - 1], ideal) + Excess(|chains[|chains| - 1]|, ideal)
  }

  lemma {:induction false} NonidealPush<V>(chains: seq<seq<Handle<V>>>, k: nat, h: Handle<V>, ideal: nat)
    requires k < |chains|
    ensures Nonideal(Push(chains, k, h), ideal) ==
            Nonideal(chains, ideal) + (if |chains[k]| + 1 > ideal then 1 else 0)
  {
    var l := |chains| - 1;
    var chains' := Push(chains, k, h);
    if k == l {
      assert chains'[..l] == chains[..l];
    } else {
      NonidealPush(chains[..l], k, h, ideal);
      assert chains'[..l] == Push(chains[..l], k, h);
    }
  }

  lemma {:induction false} NonidealEmpty<V>(chains: seq<seq<Handle<V>>>, ideal: nat)
    requires forall k | 0 <= k < |chains| :: chains[k] == []
    ensures Nonideal(chains, ideal) == 0
  {
    if chains == [] {
    } else {
      NonidealEmpty(chains[..|chains| - 1], ideal);
    }
  }

  /** How many buckets' worth of items: the length of the longest chain if all were filled evenly. */
  function Ceiling(items: nat, buckets: nat): nat
    requires buckets > 0
  {
    if items == 0 then 0 else if items <= buckets then 1 else 1 + Ceiling(items - buckets, buckets)
  }

  lemma {:induction false} CeilingIsLeast(items: nat, buckets: nat)
    requires buckets > 0
    ensures Ceiling(items, buckets) * buckets >= items
    ensures items > 0 ==> Ceiling(items, buckets) >= 1 && (Ceiling(items, buckets) - 1) * buckets < items
  {
    if items <= buckets {
    } else {
      CeilingIsLeast(items - buckets, buckets);
      var c := Ceiling(items - buckets, buckets);
      assert (1 + c) * buckets == c * buckets + buckets;
      assert c * buckets == (c - 1) * buckets + buckets;
    }
  }

  lemma {:induction false} CeilingOfDivision(q: nat, m: nat, r: nat)
    requires r < m
    ensures Ceiling(m * q + r, m) == q + (if r != 0 then 1 else 0)
  {
    if q > 0 {
      assert m * q == m * (q - 1) + m;
      assert m * (q - 1) >= 0;
      CeilingOfDivision(q - 1, m, r);
    } else {
      assert m * q == 0;
    }
  }

  /** The shift and the mask of the source compute the ceiling of the division. */
  lemma CeilingOfShift(items: nat, lg: nat)
    ensures Ceiling(items, Pow2(lg)) == ShiftRight(items, lg) + (if BitAnd(items, Pow2(lg) - 1) != 0 then 1 else 0)
    ensures items > 0 ==> Ceiling(items, Pow2(lg)) >= 1
  {
    ShiftAndMask(items, lg);
    CeilingOfDivision(ShiftRight(items, lg), Pow2(lg), BitAnd(items, Pow2(lg) - 1));
  }

  lemma ChainsApart<V>(hash: Key -> Hash, chains: seq<seq<Handle<V>>>, ms: seq<Handle<V>>, h: Handle<V>)
    requires ChainsHold(hash, chains, ms) && h !in ms
    ensures Apart(chains, BucketOf(hash, h.key, |chains|), h)
  {
  }

  lemma PushHolds<V>(hash: Key -> Hash, chains: seq<seq<Handle<V>>>, ms: seq<Handle<V>>, b: nat, h: Handle<V>)
    requires ChainsHold(hash, chains, ms)
    requires b == BucketOf(hash, h.key, |chains|) && h !in ms
    ensures ChainsHold(hash, Push(chains, b, h), ms + [h])
  {
    var chains', ms' := Push(chains, b, h), ms + [h];
    forall x | x in ms' ensures x in chains'[BucketOf(hash, x.key, |chains|)] {
      if x in ms {
        assert x in chains[BucketOf(hash, x.key, |chains|)];
      }
    }
  }

  /** Takes node `t` out of chain `b`; the other chains are left as they were. */
  method UnlinkFromChain<V>(del: Handle<V>, ghost chains: seq<seq<Handle<V>>>, ghost b: nat, ghost t: nat,
                            ghost ms: seq<Handle<V>>, ghost ms': seq<Handle<V>>)
    requires b < |chains| && t < |chains[b]| && chains[b][t] == del && Distinct(chains[b])
    requires ChainsLinked(chains, ms)
    requires forall x :: x in ms' <==> x in ms && x != del
    requires forall c, i | 0 <= c < |chains| && c != b && 0 <= i < |chains[c]| :: chains[c][i] !in chains[b]
    modifies chains[b]`hhPrev, chains[b]`hhNext
    ensures ChainsLinked(chains[b := Without(chains[b], t)], ms')
  {
    assert HhLinks(chains[b]);
    UnlinkHh(del, chains[b], t);
    ghost var chains' := chains[b := Without(chains[b], t)];
    forall c, i | 0 <= c < |chains'| && 0 <= i < |chains'[c]|
      ensures chains'[c][i] in ms'
      ensures chains'[c][i].hhPrev == At(chains'[c], i - 1) && chains'[c][i].hhNext == At(chains'[c], i + 1)
    {
      if c == b {
        assert chains'[c][i] == chains[c][if i < t then i else i + 1];
      } else {
        assert chains'[c][i] == chains[c][i] && chains[c][i] !in chains[b];
        assert old(chains[c][i].hhPrev) == At(chains[c], i - 1) && old(chains[c][i].hhNext) == At(chains[c], i + 1);
      }
    }
  }

  lemma RemoveHolds<V>(hash: Key -> Hash, chains: seq<seq<Handle<V>>>, ms: seq<Handle<V>>, ms': seq<Handle<V>>,
                       b: nat, t: nat)
    requires ChainsHold(hash, chains, ms) && b < |chains| && t < |chains[b]|
    requires forall x :: x in ms' <==> x in ms && x != chains[b][t]
    ensures ChainsHold(hash, chains[b := Without(chains[b], t)], ms')
    ensures forall c, i | 0 <= c < |chains| && c != b && 0 <= i < |chains[c]| :: chains[c][i] !in chains[b]
  {
    var c := chains[b];
    var chains' := chains[b := Without(c, t)];
    WithoutMembers(c, t);
    WithoutDistinct(c, t);
    forall k, i | 0 <= k < |chains'| && 0 <= i < |chains'[k]|
      ensures chains'[k][i] in ms' && BucketOf(hash, chains'[k][i].key, |chains|) == k
    {
      if k == b {
        assert chains'[k][i] == c[if i < t then i else i + 1];
      } else {
        assert chains'[k][i] == chains[k][i];
        assert BucketOf(hash, c[t].key, |chains|) == b;
      }
    }
    forall x | x in ms' ensures x in chains'[BucketOf(hash, x.key, |chains|)] {
      assert x in ms;
    }
  }

  // ---------------------------------------------------------------- counting

  /** The nodes of the first `n` chains, one chain after the other. */
  ghost function Flat<V>(chains: seq<seq<Handle<V>>>, n: nat): seq<Handle<V>>
    requires n <= |chains|
  {
    if n == 0 then [] else Flat(chains, n - 1) + chains[n - 1]
  }

  lemma {:induction false} FlatHas<V>(chains: seq<seq<Handle<V>>>, n: nat, b: nat, i: nat)
    requires n <= |chains| && b < n && i < |chains[b]|
    ensures chains[b][i] in Flat(chains, n)
  {
    if b == n - 1 {
      assert chains[b][i] in chains[b];
    } else {
      FlatHas(chains, n - 1, b, i);
    }
  }

  /** Another chain behind `before`: its nodes are new. */
  lemma ChainIsNew<V>(hash: Key -> Hash, chains: seq<seq<Handle<V>>>, ms: seq<Handle<V>>, n: nat,
                      before: seq<Handle<V>>)
    requires ChainsHold(hash, chains, ms) && n < |chains| && Distinct(before)
    requires forall x | x in before :: x in ms && BucketOf(hash, x.key, |chains|) < n
    ensures Distinct(before + chains[n])
    ensures forall x | x in before + chains[n] :: x in ms && BucketOf(hash, x.key, |chains|) < n + 1
  {
    var c := chains[n];
    forall i | 0 <= i < |c| ensures c[i] in ms && c[i] !in before && BucketOf(hash, c[i].key, |chains|) == n {
      assert BucketOf(hash, chains[n][i].key, |chains|) == n;
    }
  }

  lemma {:induction false} FlatMembers<V>(hash: Key -> Hash, chains: seq<seq<Handle<V>>>, ms: seq<Handle<V>>, n: nat)
    requires ChainsHold(hash, chains, ms) && n <= |chains|
    ensures forall x | x in Flat(chains, n) :: x in ms && BucketOf(hash, x.key, |chains|) < n
    ensures Distinct(Flat(chains, n))
  {
    hide ChainsHold, BucketOf, Distinct;
    if n == 0 {
      NothingDistinct<Handle<V>>();
    } else {
      FlatMembers(hash, chains, ms, n - 1);
      ChainIsNew(hash, chains, ms, n - 1, Flat(chains, n - 1));
    }
  }

  lemma NothingDistinct<T>()
    ensures Distinct<T>([])
  {
  }

  /** The chains together have as many nodes as there are items. */
  lemma ChainsCountItems<V>(hash: Key -> Hash, chains: seq<seq<Handle<V>>>, ms: seq<Handle<V>>)
    requires ChainsHold(hash, chains, ms) && Distinct(ms)
    ensures |Flat(chains, |chains|)| == |ms|
  {
    var f := Flat(chains, |chains|);
    FlatMembers(hash, chains, ms, |chains|);
    forall x | x in ms ensures x in f {
      var b := BucketOf(hash, x.key, |chains|);
      assert x in chains[b];
      var i :| 0 <= i < |chains[b]| && chains[b][i] == x;
      FlatHas(chains, |chains|, b, i);
    }
    SameElementsSameLength(f, ms);
  }

  lemma SameItemsHold<V>(hash: Key -> Hash, chains: seq<seq<Handle<V>>>, ms: seq<Handle<V>>, r: seq<Handle<V>>)
    requires ChainsHold(hash, chains, ms)
    requires (forall x | x in ms :: x in r) && (forall x | x in r :: x in ms)
    ensures ChainsHold(hash, chains, r)
  {
  }
}

/**
  HASH_SRT of uthash.h: a bottom-up merge sort of the application-order list, by relinking
  `next` and `prev` only. A node's `next` is read before the node is emitted and may be stale
  afterwards, until the node that follows it is emitted.

  The comparator looks at the key and the data of an item, which the sort does not change, so
  it is a function of the item.
 */
module HashSort {
  import opened BottomUpSort
  import opened HashHandle
  import opened Seqs
  import opened StableOrder

  /** `h` starts a NULL-terminated `next` chain of exactly `s`; `prev` may be anything. */
  ghost predicate Forward<V>(h: Handle?<V>, s: seq<Handle<V>>)
    reads s`next
  {
    && h == At(s, 0)
    && forall i {:trigger s[i].next} | 0 <= i < |s| :: s[i].next == At(s, i + 1)
  }

  /** The nodes `s` follow each other by `next`; where the last one points is irrelevant. */
  ghost predicate RunLinked<V>(p: Handle?<V>, s: seq<Handle<V>>)
    reads s`next
  {
    && (s != [] ==> p == s[0])
    && forall i {:trigger s[i].next} | 0 <= i < |s| - 1 :: s[i].next == s[i + 1]
  }

  /** The nodes emitted so far; only the `next` of the last one is not yet set. */
  ghost predicate Emitted<V>(list: Handle?<V>, tail: Handle?<V>, o: seq<Handle<V>>)
    reads o`prev, o`next
  {
    && list == At(o, 0) && tail == At(o, |o| - 1)
    && (forall i {:trigger o[i].prev} | 0 <= i < |o| :: o[i].prev == At(o, i - 1))
    && (forall i {:trigger o[i].next} | 0 <= i < |o| - 1 :: o[i].next == o[i + 1])
  }

  ghost predicate Separate<T>(o: seq<T>, p: seq<T>, q: seq<T>) {
    && Distinct(o) && Distinct(p) && Distinct(q)
    && (forall i | 0 <= i < |p| :: p[i] !in o)
    && (forall i | 0 <= i < |q| :: q[i] !in o && q[i] !in p)
  }

  lemma SeparateTakesP<T>(o: seq<T>, p: seq<T>, q: seq<T>)
    requires Separate(o, p, q) && p != []
    ensures Separate(o + [p[0]], p[1..], q)
  {
  }

  lemma SeparateTakesQ<T>(o: seq<T>, p: seq<T>, q: seq<T>)
    requires Separate(o, p, q) && q != []
    ensures Separate(o + [q[0]], p, q[1..])
  {
  }

  /** Appends `e` to the output list. */
  method Emit<V>(list: Handle?<V>, tail: Handle?<V>, e: Handle<V>, ghost o: seq<Handle<V>>)
    returns (list': Handle?<V>, tail': Handle?<V>)
    requires Emitted(list, tail, o) && e !in o && Distinct(o)
    modifies e`prev, o`next
    ensures Emitted(list', tail', o + [e])
    ensures forall x | x in o && x != tail :: x.next == old(x.next)
  {
    list' := list;
    if tail != null {
      assert tail == o[|o| - 1];
      tail.next := e;
    } else {
      list' := e;
    }
    e.prev := tail;
    tail' := e;
    ghost var r := o + [e];
    forall i | 0 <= i < |r| ensures r[i].prev == At(r, i - 1) && (i < |r| - 1 ==> r[i].next == r[i + 1]) {
      if i < |o| {
        assert r[i] == o[i] && old(o[i].prev) == At(o, i - 1) && (i < |o| - 1 ==> old(o[i].next) == o[i + 1]);
      }
    }
  }

  /** Walks at most `insize` nodes from `p`: the length of the first run and where the second starts. */
  method SplitRun<V>(p: Handle<V>, insize: nat, ghost s: seq<Handle<V>>) returns (psize: nat, q: Handle?<V>)
    requires Forward(p, s) && insize > 0
    ensures psize == |Take(s, insize)| && q == At(Drop(s, insize), 0)
    ensures RunLinked(p, Take(s, insize)) && Forward(q, Drop(s, insize))
  {
    q := p;
    psize := 0;
    for i := 0 to insize
      invariant i <= |s| && psize == i && q == At(s, i) && q != null
    {
      psize := psize + 1;
      assert s[i] == q;
      q := q.next;
      if q == null {
        break;
      }
    }
    ghost var t, d := Take(s, insize), Drop(s, insize);
    forall i | 0 <= i < |d| ensures d[i].next == At(d, i + 1) {
      assert d[i] == s[insize + i];
    }
    forall i | 0 <= i < |t| - 1 ensures t[i].next == t[i + 1] {
      assert t[i] == s[i];
    }
  }

  ghost predicate Within<T>(s: seq<T>, ms: seq<T>) {
    forall i | 0 <= i < |s| :: s[i] in ms
  }

  /** Where a merge of two runs has got to: `o` is out, `p` and `q` are still to come. */
  ghost predicate Merging<V>(list: Handle?<V>, tail: Handle?<V>, ph: Handle?<V>, qh: Handle?<V>,
                             o: seq<Handle<V>>, p: seq<Handle<V>>, q: seq<Handle<V>>, ms: seq<Handle<V>>)
    reads o`prev, o`next, p`next, q`next
  {
    && Emitted(list, tail, o) && RunLinked(ph, p) && Forward(qh, q)
    && Separate(o, p, q) && Within(o, ms) && Within(p, ms) && Within(q, ms)
  }

  /** Emits the first node of the first run. */
  method TakeP<V>(list: Handle?<V>, tail: Handle?<V>, ph: Handle<V>, qh: Handle?<V>,
                  ghost o: seq<Handle<V>>, ghost p: seq<Handle<V>>, ghost q: seq<Handle<V>>, ghost ms: seq<Handle<V>>)
    returns (list': Handle?<V>, tail': Handle?<V>, ph': Handle?<V>)
    requires Merging(list, tail, ph, qh, o, p, q, ms) && p != []
    modifies ms`prev, ms`next
    ensures Merging(list', tail', ph', qh, o + [p[0]], p[1..], q, ms)
  {
    ph' := ph.next;
    SeparateTakesP(o, p, q);
    list', tail' := Emit(list, tail, ph, o);
    ghost var p' := p[1..];
    assert forall i | 0 <= i < |q| :: q[i] !in o;
    assert forall i | 0 <= i < |p'| :: p'[i] == p[i + 1] && p'[i] !in o;
    assert Forward(qh, q);
    forall i | 0 <= i < |p'| - 1 ensures p'[i].next == p'[i + 1] {
      assert old(p[i + 1].next) == p[i + 2];
    }
  }

  /** Emits the first node of the second run. */
  method TakeQ<V>(list: Handle?<V>, tail: Handle?<V>, ph: Handle?<V>, qh: Handle<V>,
                  ghost o: seq<Handle<V>>, ghost p: seq<Handle<V>>, ghost q: seq<Handle<V>>, ghost ms: seq<Handle<V>>)
    returns (list': Handle?<V>, tail': Handle?<V>, qh': Handle?<V>)
    requires Merging(list, tail, ph, qh, o, p, q, ms) && q != []
    modifies ms`prev, ms`next
    ensures Merging(list', tail', ph, qh', o + [q[0]], p, q[1..], ms)
  {
    qh' := qh.next;
    SeparateTakesQ(o, p, q);
    list', tail' := Emit(list, tail, qh, o);
    ghost var q' := q[1..];
    assert forall i | 0 <= i < |p| :: p[i] !in o;
    assert forall i | 0 <= i < |q'| :: q'[i] == q[i + 1] && q'[i] !in o;
    assert RunLinked(ph, p);
    forall i | 0 <= i < |q'| ensures q'[i].next == At(q', i + 1) {
      assert old(q[i + 1].next) == At(q, i + 2);
    }
  }

  lemma MergeTakesP<T>(cmp: Cmp<T>, o: seq<T>, p: seq<T>, q: seq<T>)
    requires p != [] && (q == [] || Le(cmp, p[0], q[0]))
    ensures o + Merge(cmp, p, q) == (o + [p[0]]) + Merge(cmp, p[1..], q)
  {
    assert q == [] ==> p == [p[0]] + p[1..] && Merge(cmp, p[1..], q) == p[1..];
    ConcatAssociates(o, [p[0]], Merge(cmp, p[1..], q));
  }

  lemma MergeTakesQ<T>(cmp: Cmp<T>, o: seq<T>, p: seq<T>, q: seq<T>, k: nat)
    requires q != [] && k > 0 && (p == [] || !Le(cmp, p[0], q[0]))
    ensures o + Merge(cmp, p, Take(q, k)) == (o + [q[0]]) + Merge(cmp, p, Take(q[1..], k - 1))
    ensures Drop(q, k) == Drop(q[1..], k - 1)
  {
    var t := Take(q, k);
    assert t[0] == q[0] && t[1..] == Take(q[1..], k - 1);
    assert p == [] ==> t == [t[0]] + t[1..] && Merge(cmp, p, t[1..]) == t[1..];
    ConcatAssociates(o, [q[0]], Merge(cmp, p, t[1..]));
  }

  /** Merges the run `p` with the next `insize` nodes of `q` behind the output so far. */
  method MergeRuns<V>(list0: Handle?<V>, tail0: Handle?<V>, p0: Handle?<V>, psize0: nat, q0: Handle?<V>, insize: nat,
                      cmp: Cmp<Handle<V>>, ghost o0: seq<Handle<V>>, ghost ps: seq<Handle<V>>, ghost qs: seq<Handle<V>>,
                      ghost ms: seq<Handle<V>>)
    returns (list: Handle?<V>, tail: Handle?<V>, qh: Handle?<V>)
    requires Merging(list0, tail0, p0, q0, o0, ps, qs, ms) && psize0 == |ps|
    modifies ms`prev, ms`next
    ensures Merging(list, tail, null, qh, o0 + Merge(cmp, ps, Take(qs, insize)), [], Drop(qs, insize), ms)
  {
    list, tail, qh := list0, tail0, q0;
    var ph, psize, qsize := p0, psize0, insize;
    ghost var o, p, q := o0, ps, qs;
    while psize > 0 || (qsize > 0 && qh != null)
      invariant Merging(list, tail, ph, qh, o, p, q, ms) && psize == |p|
      invariant o + Merge(cmp, p, Take(q, qsize)) == o0 + Merge(cmp, ps, Take(qs, insize))
      invariant Drop(q, qsize) == Drop(qs, insize)
      decreases psize + |q|
    {
      if psize == 0 {
        MergeTakesQ(cmp, o, p, q, qsize);
        list, tail, qh := TakeQ(list, tail, ph, qh, o, p, q, ms);
        o, q := o + [q[0]], q[1..];
        qsize := qsize - 1;
      } else if qsize == 0 || qh == null {
        MergeTakesP(cmp, o, p, Take(q, qsize));
        list, tail, ph := TakeP(list, tail, ph, qh, o, p, q, ms);
        o, p := o + [p[0]], p[1..];
        psize := psize - 1;
      } else if cmp(ph, qh) <= 0 {
        MergeTakesP(cmp, o, p, Take(q, qsize));
        list, tail, ph := TakeP(list, tail, ph, qh, o, p, q, ms);
        o, p := o + [p[0]], p[1..];
        psize := psize - 1;
      } else {
        MergeTakesQ(cmp, o, p, q, qsize);
        list, tail, qh := TakeQ(list, tail, ph, qh, o, p, q, ms);
        o, q := o + [q[0]], q[1..];
        qsize := qsize - 1;
      }
    }
    assert Take(q, qsize) == [] && o + [] == o;
    assert p == [] && Drop(q, qsize) == q;
  }

  /** How many pairs of runs have been merged, as far as the caller cares: none, one, or more. */
  ghost predicate Merges(n: nat, done: nat, left: nat, k: nat) {
    && (n == 0 ==> done == 0)
    && (n == 1 ==> done <= 2 * k && (left > 0 ==> done == 2 * k))
    && (n >= 2 ==> done + left > 2 * k)
  }

  lemma SplitSeparate<V>(o: seq<Handle<V>>, rest: seq<Handle<V>>, k: nat, ms: seq<Handle<V>>)
    requires Separate(o, [], rest) && Within(o, ms) && Within(rest, ms)
    ensures Separate(o, Take(rest, k), Drop(rest, k))
    ensures Within(Take(rest, k), ms) && Within(Drop(rest, k), ms)
  {
  }

  /** Ends a finished output list. */
  method Terminate<V>(list: Handle?<V>, tail: Handle?<V>, ghost o: seq<Handle<V>>, ghost ms: seq<Handle<V>>)
    requires Emitted(list, tail, o) && Distinct(o)
    requires Within(o, ms)
    modifies ms`next
    ensures AppLinks(o)
  {
    if tail != null {
      tail.next := null;
    }
  }

  /** Splits off the next two runs and merges them. */
  method MergePair<V>(list0: Handle?<V>, tail0: Handle?<V>, p: Handle<V>, insize: nat, cmp: Cmp<Handle<V>>,
                      ghost o: seq<Handle<V>>, ghost rest: seq<Handle<V>>, ghost ms: seq<Handle<V>>)
    returns (list: Handle?<V>, tail: Handle?<V>, q: Handle?<V>)
    requires Merging(list0, tail0, null, p, o, [], rest, ms) && rest != [] && insize > 0
    modifies ms`prev, ms`next
    ensures Merging(list, tail, null, q, o + PairMerge(cmp, rest, insize), [], Drop(Drop(rest, insize), insize), ms)
  {
    var psize, r := SplitRun(p, insize, rest);
    SplitSeparate(o, rest, insize, ms);
    list, tail, q := MergeRuns(list0, tail0, p, psize, r, insize, cmp, o, Take(rest, insize), Drop(rest, insize), ms);
  }

  ghost function PairMerge<T>(cmp: Cmp<T>, s: seq<T>, k: nat): seq<T> {
    Merge(cmp, Take(s, k), Take(Drop(s, k), k))
  }

  lemma PassStep<T>(cmp: Cmp<T>, o: seq<T>, s: seq<T>, k: nat)
    requires k > 0 && s != []
    ensures o + Pass(cmp, s, k) == (o + PairMerge(cmp, s, k)) + Pass(cmp, Drop(Drop(s, k), k), k)
    ensures |PairMerge(cmp, s, k)| + |Drop(Drop(s, k), k)| == |s| && |PairMerge(cmp, s, k)| > 0
    ensures |PairMerge(cmp, s, k)| <= 2 * k
    ensures Drop(Drop(s, k), k) != [] ==> |PairMerge(cmp, s, k)| == 2 * k
  {
    TakeDrop(s, k);
    TakeDrop(Drop(s, k), k);
    MergePermutes(cmp, Take(s, k), Take(Drop(s, k), k));
    ConcatAssociates(o, PairMerge(cmp, s, k), Pass(cmp, Drop(Drop(s, k), k), k));
  }

  /** One pass over the whole list: merges the runs of length `insize` two by two. */
  method EmitPass<V>(head: Handle<V>, insize: nat, cmp: Cmp<Handle<V>>,
                     ghost s: seq<Handle<V>>, ghost ms: seq<Handle<V>>)
    returns (list: Handle?<V>, tail: Handle?<V>, nmerges: nat, ghost o: seq<Handle<V>>)
    requires Forward(head, s) && Distinct(s) && Within(s, ms) && insize > 0
    modifies ms`prev, ms`next
    ensures Emitted(list, tail, o) && Distinct(o) && Within(o, ms)
    ensures o == Pass(cmp, s, insize)
    ensures nmerges <= 1 <==> |s| <= 2 * insize
  {
    var p: Handle?<V> := head;
    list, tail, nmerges := null, null, 0;
    o := [];
    ghost var rest := s;
    while p != null
      invariant Merging(list, tail, null, p, o, [], rest, ms)
      invariant o + Pass(cmp, rest, insize) == Pass(cmp, s, insize)
      invariant |o| + |rest| == |s| && Merges(nmerges, |o|, |rest|, insize)
      decreases |rest|
    {
      nmerges := nmerges + 1;
      PassStep(cmp, o, rest, insize);
      list, tail, p := MergePair(list, tail, p, insize, cmp, o, rest, ms);
      o, rest := o + PairMerge(cmp, rest, insize), Drop(Drop(rest, insize), insize);
    }
    assert rest == [] && o + [] == o;
  }

  /** A pass, and the end of its output list. */
  method MergePass<V>(head: Handle<V>, insize: nat, cmp: Cmp<Handle<V>>,
                      ghost s: seq<Handle<V>>, ghost ms: seq<Handle<V>>)
    returns (list: Handle?<V>, tail: Handle?<V>, nmerges: nat, ghost o: seq<Handle<V>>)
    requires AppLinks(s) && s != [] && head == s[0] && Distinct(s) && Within(s, ms) && insize > 0
    modifies ms`prev, ms`next
    ensures AppLinks(o) && Distinct(o) && Within(o, ms)
    ensures list == At(o, 0) && tail == At(o, |o| - 1)
    ensures o == Pass(cmp, s, insize)
    ensures nmerges <= 1 <==> |s| <= 2 * insize
  {
    list, tail, nmerges, o := EmitPass(head, insize, cmp, s, ms);
    Terminate(list, tail, o, ms);
  }

  /** What the sort has achieved so far: the runs of length `k` are sorted stably. */
  ghost predicate SortedSoFar<V>(cmp: Cmp<Handle<V>>, s: seq<Handle<V>>, r: seq<Handle<V>>, k: nat, dom: set<Handle<V>>)
    requires k > 0
  {
    && multiset(r) == multiset(s)
    && (Preorder(cmp, dom) && Over(s, dom) ==> Runs(cmp, r, k) && StablePermutation(cmp, s, r, dom))
  }

  lemma PassSortsMore<V>(cmp: Cmp<Handle<V>>, s: seq<Handle<V>>, r: seq<Handle<V>>, k: nat, dom: set<Handle<V>>)
    requires k > 0 && SortedSoFar(cmp, s, r, k, dom)
    ensures SortedSoFar(cmp, s, Pass(cmp, r, k), 2 * k, dom)
    ensures |Pass(cmp, r, k)| == |r|
  {
    PassPermutes(cmp, r, k);
    if Preorder(cmp, dom) && Over(s, dom) {
      OverMultiset(s, r, dom);
      PassDoubles(cmp, r, k, dom);
      StableTransitive(cmp, s, r, Pass(cmp, r, k), dom);
    }
  }

  /** `s` and `r` hold the same nodes. */
  ghost predicate SameNodes<T>(s: seq<T>, r: seq<T>) {
    |s| == |r| && (forall x | x in s :: x in r) && (forall x | x in r :: x in s)
  }

  lemma SameNodesOf<T>(s: seq<T>, r: seq<T>)
    requires multiset(s) == multiset(r)
    ensures SameNodes(s, r)
  {
    assert |multiset(s)| == |s| && |multiset(r)| == |r|;
    forall x ensures x in s <==> x in r {
      assert x in s <==> x in multiset(s);
      assert x in r <==> x in multiset(r);
    }
  }

  /** One round of the outer loop: a pass, after which runs of twice the length are sorted. */
  method SortStep<V>(list: Handle<V>, insize: nat, cmp: Cmp<Handle<V>>, ghost r: seq<Handle<V>>,
                     ghost s: seq<Handle<V>>, ghost dom: set<Handle<V>>)
    returns (list': Handle?<V>, tail': Handle?<V>, done: bool, ghost r': seq<Handle<V>>)
    requires insize > 0 && AppLinks(r) && Distinct(r) && r != [] && list == r[0] && Within(r, s)
    requires SortedSoFar(cmp, s, r, insize, dom)
    modifies s`prev, s`next
    ensures AppLinks(r') && Distinct(r') && Within(r', s) && |r'| == |r|
    ensures list' == At(r', 0) && tail' == At(r', |r'| - 1)
    ensures SortedSoFar(cmp, s, r', 2 * insize, dom)
    ensures done <==> |r| <= 2 * insize
  {
    var nmerges;
    list', tail', nmerges, r' := MergePass(list, insize, cmp, r, s);
    done := nmerges <= 1;
    PassSortsMore(cmp, s, r, insize, dom);
  }

  lemma SortFinished<V>(cmp: Cmp<Handle<V>>, s: seq<Handle<V>>, r: seq<Handle<V>>, k: nat, dom: set<Handle<V>>)
    requires k > 0 && |r| <= k && SortedSoFar(cmp, s, r, k, dom)
    ensures SortOf(cmp, s, r, dom) && SameNodes(s, r)
  {
    if Preorder(cmp, dom) && Over(s, dom) {
      WholeRun(cmp, r, k);
    }
    SameNodesOf(s, r);
  }

  /**
    HASH_SRT: doubles the run length until one merge covers the list. The list then holds the
    same items, sorted, equal ones in their old order, with `prev` mirroring `next`.
   */
  method SortList<V>(head: Handle<V>, cmp: Cmp<Handle<V>>, ghost s: seq<Handle<V>>, ghost dom: set<Handle<V>>)
    returns (list: Handle?<V>, tail: Handle?<V>, ghost r: seq<Handle<V>>)
    requires AppLinks(s) && Distinct(s) && s != [] && head == s[0]
    modifies s`prev, s`next
    ensures AppLinks(r) && Distinct(r) && r != [] && list == r[0] && tail == r[|r| - 1]
    ensures SortOf(cmp, s, r, dom) && SameNodes(s, r)
  {
    var insize, looping := 1, true;
    list, tail := head, null;
    r := s;
    SinglesSorted(cmp, s);
    while looping
      invariant insize > 0 && AppLinks(r) && Distinct(r) && list == At(r, 0) && |r| == |s| && Within(r, s)
      invariant SortedSoFar(cmp, s, r, insize, dom)
      invariant !looping ==> tail == At(r, |r| - 1) && |r| <= insize
      decreases looping, if looping then |s| - insize else 0
    {
      var done;
      list, tail, done, r := SortStep(list, insize, cmp, r, s, dom);
      looping := !done;
      insize := insize * 2;
    }
    SortFinished(cmp, s, r, insize, dom);
  }
}

/**
  The arithmetic of a bottom-up merge sort: one pass merges adjacent runs of length `k`,
  after which runs of length `2k` are sorted.
 */
module BottomUpSort {
  import opened Seqs
  import opened StableOrder

  ghost function Take<T>(s: seq<T>, k: nat): seq<T> {
    if k <= |s| then s[..k] else s
  }

  ghost function Drop<T>(s: seq<T>, k: nat): seq<T> {
    if k <= |s| then s[k..] else []
  }

  lemma TakeDrop<T>(s: seq<T>, k: nat)
    ensures Take(s, k) + Drop(s, k) == s
    ensures Drop(s, k) != [] ==> |Take(s, k)| == k
  {
  }

  /** Every aligned run of length `k` is sorted. */
  ghost predicate Runs<T>(cmp: Cmp<T>, s: seq<T>, k: nat)
    requires k > 0
    decreases |s|
  {
    s == [] || (Sorted(cmp, Take(s, k)) && Runs(cmp, Drop(s, k), k))
  }

  /** One pass: the runs of length `k` merged two by two. */
  ghost function Pass<T>(cmp: Cmp<T>, s: seq<T>, k: nat): seq<T>
    requires k > 0
    decreases |s|
  {
    if s == [] then []
    else Merge(cmp, Take(s, k), Take(Drop(s, k), k)) + Pass(cmp, Drop(Drop(s, k), k), k)
  }

  lemma {:induction false} SinglesSorted<T>(cmp: Cmp<T>, s: seq<T>)
    ensures Runs(cmp, s, 1)
    decreases |s|
  {
    if s == [] {
    } else {
      SinglesSorted(cmp, Drop(s, 1));
    }
  }

  lemma WholeRun<T>(cmp: Cmp<T>, s: seq<T>, k: nat)
    requires k > 0 && |s| <= k && Runs(cmp, s, k)
    ensures Sorted(cmp, s)
  {
    assert s != [] ==> Take(s, k) == s;
  }

  lemma {:induction false} PassPermutes<T>(cmp: Cmp<T>, s: seq<T>, k: nat)
    requires k > 0
    ensures multiset(Pass(cmp, s, k)) == multiset(s)
    ensures |Pass(cmp, s, k)| == |s|
    decreases |s|
  {
    if s == [] {
    } else {
      var p, r := Take(s, k), Drop(s, k);
      var q, t := Take(r, k), Drop(r, k);
      TakeDrop(s, k);
      TakeDrop(r, k);
      MergePermutes(cmp, p, q);
      PassPermutes(cmp, t, k);
      assert multiset(s) == multiset(p) + multiset(r);
      assert multiset(r) == multiset(q) + multiset(t);
    }
  }

  lemma StableConcat<T>(cmp: Cmp<T>, a: seq<T>, a': seq<T>, b: seq<T>, b': seq<T>, dom: set<T>)
    requires StablePermutation(cmp, a, a', dom) && StablePermutation(cmp, b, b', dom)
    ensures StablePermutation(cmp, a + b, a' + b', dom)
  {
    forall x | x in dom ensures Class(cmp, a + b, x) == Class(cmp, a' + b', x) {
      ClassConcat(cmp, a, b, x);
      ClassConcat(cmp, a', b', x);
    }
    assert multiset(a + b) == multiset(a) + multiset(b);
    assert multiset(a' + b') == multiset(a') + multiset(b');
  }

  lemma OverParts<T>(s: seq<T>, k: nat, dom: set<T>)
    requires Over(s, dom)
    ensures Over(Take(s, k), dom) && Over(Drop(s, k), dom)
  {
  }

  lemma RunsConcat<T>(cmp: Cmp<T>, m: seq<T>, rest: seq<T>, k: nat)
    requires k > 0 && Sorted(cmp, m) && Runs(cmp, rest, k)
    requires |m| == k || (|m| <= k && rest == [])
    ensures Runs(cmp, m + rest, k)
  {
    assert Take(m + rest, k) == m;
    assert Drop(m + rest, k) == rest;
  }

  /** A pass over sorted runs doubles the run length and keeps equal elements in order. */
  lemma {:induction false} PassDoubles<T>(cmp: Cmp<T>, s: seq<T>, k: nat, dom: set<T>)
    requires k > 0 && Preorder(cmp, dom) && Over(s, dom) && Runs(cmp, s, k)
    ensures Runs(cmp, Pass(cmp, s, k), 2 * k)
    ensures StablePermutation(cmp, s, Pass(cmp, s, k), dom)
    decreases |s|
  {
    if s == [] {
    } else {
      var p, r := Take(s, k), Drop(s, k);
      var q, t := Take(r, k), Drop(r, k);
      TakeDrop(s, k);
      TakeDrop(r, k);
      OverParts(s, k, dom);
      OverParts(r, k, dom);
      if r != [] {
        assert Sorted(cmp, q) && Runs(cmp, t, k);
      }
      PassDoubles(cmp, t, k, dom);
      MergeIsStableSort(cmp, p, q, p, q, dom);
      MergePermutes(cmp, p, q);
      PassPermutes(cmp, t, k);
      var m := Merge(cmp, p, q);
      StableConcat(cmp, p + q, m, t, Pass(cmp, t, k), dom);
      assert s == (p + q) + t by { ConcatAssociates(p, q, t); }
      RunsConcat(cmp, m, Pass(cmp, t, k), 2 * k);
    }
  }

  lemma StableTransitive<T>(cmp: Cmp<T>, a: seq<T>, b: seq<T>, c: seq<T>, dom: set<T>)
    requires StablePermutation(cmp, a, b, dom) && StablePermutation(cmp, b, c, dom)
    ensures StablePermutation(cmp, a, c, dom)
  {
  }
}

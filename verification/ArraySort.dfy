/**
  msort_r.c, qsort_r.c and sort_common.h: the sorts of a run of array elements. Elements are moved as
  wholes; the comparator's extra argument is part of the comparator.
 */
module ArraySort {
  import opened Seqs
  import opened StableOrder

  /** MINIMUM_INSERT_SORT */
  const FEW := 10

  /** `x` let down from the end past everything that does not compare at most it. */
  ghost function InsertInto<T>(cmp: Cmp<T>, s: seq<T>, x: T): (r: seq<T>)
    ensures |r| == |s| + 1
  {
    if s == [] || Le(cmp, s[|s| - 1], x) then s + [x] else InsertInto(cmp, s[..|s| - 1], x) + [s[|s| - 1]]
  }

  ghost function Inserted<T>(cmp: Cmp<T>, s: seq<T>): (r: seq<T>)
    ensures |r| == |s|
  {
    if s == [] then [] else InsertInto(cmp, Inserted(cmp, s[..|s| - 1]), s[|s| - 1])
  }

  ghost function MergeSorted<T>(cmp: Cmp<T>, s: seq<T>): seq<T>
    decreases |s|
  {
    if |s| < FEW then Inserted(cmp, s)
    else Merge(cmp, MergeSorted(cmp, s[..|s| / 2]), MergeSorted(cmp, s[|s| / 2..]))
  }

  lemma {:induction false} InsertPermutes<T>(cmp: Cmp<T>, s: seq<T>, x: T)
    ensures multiset(InsertInto(cmp, s, x)) == multiset(s + [x])
  {
    if s == [] {
    } else if !Le(cmp, s[|s| - 1], x) {
      var init, last := s[..|s| - 1], s[|s| - 1];
      InsertPermutes(cmp, init, x);
      assert s == init + [last];
    }
  }

  /** In sorted order, letting `x` down is merging it in from the right. */
  lemma {:induction false} InsertIsMerge<T>(cmp: Cmp<T>, s: seq<T>, x: T, dom: set<T>)
    requires Preorder(cmp, dom) && Over(s, dom) && x in dom && Sorted(cmp, s)
    ensures InsertInto(cmp, s, x) == Merge(cmp, s, [x])
  {
    if s == [] {
    } else {
      var init, last := s[..|s| - 1], s[|s| - 1];
      if Le(cmp, last, x) {
        forall i | 0 <= i < |s| ensures Le(cmp, s[i], x) {
          assert i == |s| - 1 || Le(cmp, s[i], last);
        }
        MergeAllLow(cmp, s, x);
      } else {
        InsertIsMerge(cmp, init, x, dom);
        MergeHighLast(cmp, init, last, x);
        assert s == init + [last];
      }
    }
  }

  lemma {:induction false} MergeAllLow<T>(cmp: Cmp<T>, s: seq<T>, x: T)
    requires forall i | 0 <= i < |s| :: Le(cmp, s[i], x)
    ensures Merge(cmp, s, [x]) == s + [x]
  {
    if s == [] {
    } else {
      MergeAllLow(cmp, s[1..], x);
    }
  }

  lemma {:induction false} MergeHighLast<T>(cmp: Cmp<T>, s: seq<T>, last: T, x: T)
    requires !Le(cmp, last, x)
    ensures Merge(cmp, s + [last], [x]) == Merge(cmp, s, [x]) + [last]
  {
    if s == [] {
      assert s + [last] == [last] && [x][1..] == [];
      assert Merge(cmp, [last], [x]) == [x] + Merge(cmp, [last], []);
    } else {
      assert (s + [last])[1..] == s[1..] + [last] && [x][1..] == [];
      if Le(cmp, s[0], x) {
        MergeHighLast(cmp, s[1..], last, x);
      }
    }
  }

  lemma ShortIsSorted<T>(cmp: Cmp<T>, x: T, dom: set<T>)
    ensures Sorted(cmp, [x]) && StablePermutation(cmp, [x], [x], dom)
  {
  }

  /** Insertion sort: a permutation whatever the comparator, and the stable sort if it orders. */
  lemma {:induction false} InsertedSorts<T>(cmp: Cmp<T>, s: seq<T>, dom: set<T>)
    ensures SortOf(cmp, s, Inserted(cmp, s), dom)
  {
    if s == [] {
    } else {
      var init, last := s[..|s| - 1], s[|s| - 1];
      var a := Inserted(cmp, init);
      InsertedSorts(cmp, init, dom);
      InsertPermutes(cmp, a, last);
      assert s == init + [last];
      if Preorder(cmp, dom) && Over(s, dom) {
        OverMultiset(init, a, dom);
        InsertIsMerge(cmp, a, last, dom);
        ShortIsSorted(cmp, last, dom);
        MergeIsStableSort(cmp, init, [last], a, [last], dom);
      }
    }
  }

  /** The merge sort: likewise. */
  lemma {:induction false} MergeSortedSorts<T>(cmp: Cmp<T>, s: seq<T>, dom: set<T>)
    ensures SortOf(cmp, s, MergeSorted(cmp, s), dom)
    decreases |s|
  {
    if |s| < FEW {
      InsertedSorts(cmp, s, dom);
    } else {
      var p, q := s[..|s| / 2], s[|s| / 2..];
      MergeSortedSorts(cmp, p, dom);
      MergeSortedSorts(cmp, q, dom);
      MergedHalves(cmp, p, q, MergeSorted(cmp, p), MergeSorted(cmp, q), dom);
      assert s == p + q;
    }
  }

  /** Every stable sort gives this result, the sorts of the list and of the hash items among them. */
  lemma AnyStableSort<T>(cmp: Cmp<T>, s: seq<T>, r: seq<T>)
    requires Preorder(cmp, Elements(s)) && StableSorted(cmp, s, r)
    ensures r == MergeSorted(cmp, s)
  {
    MergeSortedSorts(cmp, s, Elements(s));
    assert Over(s, Elements(s));
    StableSortsAgree(cmp, s, r, MergeSorted(cmp, s));
  }

  lemma MergedHalves<T>(cmp: Cmp<T>, p: seq<T>, q: seq<T>, a: seq<T>, b: seq<T>, dom: set<T>)
    requires SortOf(cmp, p, a, dom) && SortOf(cmp, q, b, dom)
    ensures SortOf(cmp, p + q, Merge(cmp, a, b), dom)
  {
    MergePermutes(cmp, a, b);
    if Preorder(cmp, dom) && Over(p + q, dom) {
      assert Over(p, dom) && Over(q, dom) by {
        forall i | 0 <= i < |p| ensures p[i] in dom {
          assert p[i] == (p + q)[i];
        }
        forall i | 0 <= i < |q| ensures q[i] in dom {
          assert q[i] == (p + q)[|p| + i];
        }
      }
      MergeIsStableSort(cmp, p, q, a, b, dom);
    }
  }

  // The algorithms in place.

  /** swap, on values */
  function Swapped<T>(s: seq<T>, i: nat, j: nat): (r: seq<T>)
    requires i < |s| && j < |s|
    ensures |r| == |s|
  {
    s[i := s[j]][j := s[i]]
  }

  /** swap */
  method Swap<T>(a: array<T>, i: nat, j: nat)
    requires i < a.Length && j < a.Length
    modifies a
    ensures a[..] == Swapped(old(a[..]), i, j)
  {
    if i == j {
      return;
    }
    var c := a[i];
    a[i] := a[j];
    a[j] := c;
  }

  /**
    insertion_sort of the `n` elements from `base` on. The array is `left`, then those elements, then
    `right`; likewise below.
   */
  method InsertionSort<T>(a: array<T>, base: nat, n: nat, cmp: Cmp<T>,
                          ghost left: seq<T>, ghost s: seq<T>, ghost right: seq<T>)
    requires |left| == base && |s| == n && a[..] == left + s + right
    modifies a
    ensures a[..] == left + Inserted(cmp, s) + right
  {
    hide Inserted;
    var i := 0;
    Begin(cmp, left, s, right);
    while i < n
      invariant 0 <= i <= n
      invariant a[..] == left + Inserted(cmp, s[..i]) + s[i..] + right
    {
      Turn(cmp, left, s, right, i);
      InsertOne(a, base, i, cmp, left, Inserted(cmp, s[..i]), s[i], s[i + 1..] + right);
      i := i + 1;
    }
    assert s[..n] == s && left + Inserted(cmp, s) + s[n..] == left + Inserted(cmp, s);
  }

  lemma Begin<T>(cmp: Cmp<T>, left: seq<T>, s: seq<T>, right: seq<T>)
    ensures left + s + right == left + Inserted(cmp, s[..0]) + s[0..] + right
  {
    assert s[..0] == [] && s[0..] == s && left + Inserted(cmp, []) == left;
  }

  lemma Turn<T>(cmp: Cmp<T>, left: seq<T>, s: seq<T>, right: seq<T>, i: nat)
    requires i < |s|
    ensures left + Inserted(cmp, s[..i]) + s[i..] + right
            == left + Inserted(cmp, s[..i]) + [s[i]] + (s[i + 1..] + right)
    ensures left + InsertInto(cmp, Inserted(cmp, s[..i]), s[i]) + (s[i + 1..] + right)
            == left + Inserted(cmp, s[..i + 1]) + s[i + 1..] + right
  {
    hide InsertInto;
    assert s[..i + 1][..i] == s[..i] && s[..i + 1] != [];
    assert s[i..] == [s[i]] + s[i + 1..];
    Regroup(left + Inserted(cmp, s[..i]), [s[i]], s[i + 1..], right);
    ConcatAssociates(left + Inserted(cmp, s[..i + 1]), s[i + 1..], right);
  }

  lemma Regroup<T>(a: seq<T>, b: seq<T>, c: seq<T>, d: seq<T>)
    ensures a + (b + c) + d == a + b + (c + d)
  {
  }

  /** The inner loop: the element behind `p` is let down into it. */
  method InsertOne<T>(a: array<T>, base: nat, i: nat, cmp: Cmp<T>,
                      ghost left: seq<T>, ghost p: seq<T>, ghost x: T, ghost right: seq<T>)
    requires |left| == base && |p| == i && a[..] == left + p + [x] + right
    modifies a
    ensures a[..] == left + InsertInto(cmp, p, x) + right
  {
    var j := i;
    ghost var low, behind := p, right;
    while j > 0
      invariant 0 <= j == |low| <= i
      invariant a[..] == left + low + [x] + behind
      invariant left + InsertInto(cmp, low, x) + behind == left + InsertInto(cmp, p, x) + right
    {
      j := j - 1;
      ghost var last := low[j];
      Adjacent(a[..], left, low, x, behind);
      if cmp(a[base + j], a[base + j + 1]) <= 0 {
        break;
      }
      Regroup(left, InsertInto(cmp, low[..j], x), [last], behind);
      Swap(a, base + j, base + j + 1);
      low, behind := low[..j], [last] + behind;
    }
    assert left + low + [x] == left + (low + [x]);
  }

  lemma Adjacent<T>(a: seq<T>, left: seq<T>, low: seq<T>, x: T, behind: seq<T>)
    requires low != [] && a == left + low + [x] + behind
    ensures var i := |left| + |low| - 1;
            a[i] == low[|low| - 1] && a[i + 1] == x
            && a[i := a[i + 1]][i + 1 := a[i]] == left + low[..|low| - 1] + [x] + ([low[|low| - 1]] + behind)
  {
  }

  /** memcpy of `n` elements */
  method Copy<T>(dst: array<T>, to: nat, src: array<T>, from: nat, n: nat)
    requires dst != src && to + n <= dst.Length && from + n <= src.Length
    modifies dst
    ensures dst[..] == old(dst[..to]) + src[from..from + n] + old(dst[to + n..])
  {
    forall i | 0 <= i < n {
      dst[to + i] := src[from + i];
    }
  }

  /** With `p` and `q` elements taken and `done` written, the rest of the merge is still to come. */
  ghost predicate MergedSoFar<T>(cmp: Cmp<T>, done: seq<T>, x: seq<T>, y: seq<T>, p: nat, q: nat) {
    p <= |x| && q <= |y| && done + Merge(cmp, x[p..], y[q..]) == Merge(cmp, x, y)
  }

  lemma MergeBegins<T>(cmp: Cmp<T>, x: seq<T>, y: seq<T>)
    ensures MergedSoFar(cmp, [], x, y, 0, 0)
  {
    assert x[0..] == x && y[0..] == y;
    EmptyIsUnit(Merge(cmp, x, y));
  }

  lemma MergeTurn<T>(cmp: Cmp<T>, done: seq<T>, x: seq<T>, y: seq<T>, p: nat, q: nat)
    requires MergedSoFar(cmp, done, x, y, p, q) && p < |x| && q < |y|
    ensures if Le(cmp, x[p], y[q]) then MergedSoFar(cmp, done + [x[p]], x, y, p + 1, q)
            else MergedSoFar(cmp, done + [y[q]], x, y, p, q + 1)
  {
    MergeStep(cmp, done, x[p..], y[q..]);
    assert x[p..][1..] == x[p + 1..] && y[q..][1..] == y[q + 1..];
  }

  /**
    The merging loop of fcitx_msort_r_with_tmp: the sorted halves are `x` and `y`, and `i` and `j` elements
    of them remain.
   */
  method MergeLoop<T>(a: array<T>, base: nat, n: nat, nA: nat, cmp: Cmp<T>, t: array<T>,
                      ghost left: seq<T>, ghost x: seq<T>, ghost y: seq<T>, ghost right: seq<T>)
    returns (i: nat, j: nat)
    requires a != t && t.Length >= n
    requires |left| == base && |x| == nA && nA + |y| == n && a[..] == left + x + y + right
    modifies t
    ensures i <= nA && j <= n - nA && (i == 0 || j == 0)
    ensures MergedSoFar(cmp, t[..n - i - j], x, y, nA - i, n - nA - j)
  {
    hide Merge, MergedSoFar;
    i, j := nA, n - nA;
    var tmp := 0;
    MergeBegins(cmp, x, y);
    assert t[..0] == [];
    while i > 0 && j > 0
      invariant 0 <= i <= nA && 0 <= j <= n - nA && tmp == n - i - j
      invariant MergedSoFar(cmp, t[..tmp], x, y, nA - i, n - nA - j)
    {
      ghost var done := t[..tmp];
      Fronts(a[..], left, x, y, right, nA - i, n - nA - j);
      MergeTurn(cmp, done, x, y, nA - i, n - nA - j);
      if cmp(a[base + nA - i], a[base + n - j]) <= 0 {
        t[tmp] := a[base + nA - i];
        i := i - 1;
      } else {
        t[tmp] := a[base + n - j];
        j := j - 1;
      }
      assert t[..tmp + 1] == done + [t[tmp]];
      tmp := tmp + 1;
    }
  }

  /** The copying that ends fcitx_msort_r_with_tmp: what remains of the second half is in place already. */
  method CopyBack<T>(a: array<T>, base: nat, n: nat, nA: nat, t: array<T>, i: nat, j: nat,
                     ghost left: seq<T>, ghost x: seq<T>, ghost y: seq<T>, ghost right: seq<T>)
    requires a != t && t.Length >= n
    requires |left| == base && |x| == nA && nA + |y| == n && a[..] == left + x + y + right
    requires i <= nA && j <= n - nA
    modifies a, t
    ensures a[..] == left + (old(t[..n - i - j]) + x[nA - i..] + y[n - nA - j..]) + right
  {
    ghost var done, u, v := t[..n - i - j], x[nA - i..], y[n - nA - j..];
    Pieces(a[..], left, x, y, right, nA - i, n - nA - j);
    if i > 0 {
      Copy(t, n - i - j, a, base + nA - i, i);
    }
    assert t[..n - j] == done + u;
    Copy(a, base, t, 0, n - j);
    Whole(left, done, u, v, right);
  }

  /** The merge of fcitx_msort_r_with_tmp. */
  method MergeHalves<T>(a: array<T>, base: nat, n: nat, nA: nat, cmp: Cmp<T>, t: array<T>,
                        ghost left: seq<T>, ghost x: seq<T>, ghost y: seq<T>, ghost right: seq<T>)
    requires a != t && t.Length >= n
    requires |left| == base && |x| == nA && nA + |y| == n && a[..] == left + x + y + right
    modifies a, t
    ensures a[..] == left + Merge(cmp, x, y) + right
  {
    var i, j := MergeLoop(a, base, n, nA, cmp, t, left, x, y, right);
    MergeEnd(cmp, x[nA - i..], y[n - nA - j..]);
    ConcatAssociates(t[..n - i - j], x[nA - i..], y[n - nA - j..]);
    CopyBack(a, base, n, nA, t, i, j, left, x, y, right);
  }

  lemma Fronts<T>(a: seq<T>, left: seq<T>, x: seq<T>, y: seq<T>, right: seq<T>, i: nat, j: nat)
    requires a == left + x + y + right && i < |x| && j < |y|
    ensures a[|left| + i] == x[i] && a[|left| + |x| + j] == y[j]
  {
  }

  lemma Pieces<T>(a: seq<T>, left: seq<T>, x: seq<T>, y: seq<T>, right: seq<T>, i: nat, j: nat)
    requires a == left + x + y + right && i <= |x| && j <= |y|
    ensures a[..|left|] == left && a[|left| + i..|left| + |x|] == x[i..]
    ensures a[|left| + |x| + j..] == y[j..] + right
  {
  }

  lemma MergeStep<T>(cmp: Cmp<T>, done: seq<T>, u: seq<T>, v: seq<T>)
    requires u != [] && v != []
    ensures done + Merge(cmp, u, v)
            == if Le(cmp, u[0], v[0]) then done + [u[0]] + Merge(cmp, u[1..], v)
               else done + [v[0]] + Merge(cmp, u, v[1..])
  {
    ConcatAssociates(done, [u[0]], Merge(cmp, u[1..], v));
    ConcatAssociates(done, [v[0]], Merge(cmp, u, v[1..]));
  }

  lemma MergeEnd<T>(cmp: Cmp<T>, u: seq<T>, v: seq<T>)
    requires u == [] || v == []
    ensures Merge(cmp, u, v) == u + v
  {
  }

  lemma Whole<T>(left: seq<T>, done: seq<T>, u: seq<T>, v: seq<T>, right: seq<T>)
    ensures left + (done + u) + (v + right) == left + (done + u + v) + right
  {
  }

  /** fcitx_msort_r_with_tmp: one scratch buffer serves the whole recursion. */
  method MsortWithTmp<T>(a: array<T>, base: nat, n: nat, cmp: Cmp<T>, t: array<T>,
                         ghost left: seq<T>, ghost s: seq<T>, ghost right: seq<T>)
    requires a != t && t.Length >= n
    requires |left| == base && |s| == n && a[..] == left + s + right
    modifies a, t
    ensures a[..] == left + MergeSorted(cmp, s) + right
    decreases n
  {
    if n < FEW {
      InsertionSort(a, base, n, cmp, left, s, right);
      return;
    }
    var nA := n / 2;
    ghost var p, q := s[..nA], s[nA..];
    ghost var x, y := MergeSorted(cmp, p), MergeSorted(cmp, q);
    MergeSortedLength(cmp, p);
    MergeSortedLength(cmp, q);
    assert s == p + q;
    Regroup(left, p, q, right);
    MsortWithTmp(a, base, nA, cmp, t, left, p, q + right);
    Regroup(left, x, q, right);
    ConcatAssociates(left + x, q, right);
    MsortWithTmp(a, base + nA, n - nA, cmp, t, left + x, q, right);
    MergeHalves(a, base, n, nA, cmp, t, left, x, y, right);
  }

  lemma {:induction false} MergeSortedLength<T>(cmp: Cmp<T>, s: seq<T>)
    ensures |MergeSorted(cmp, s)| == |s|
    decreases |s|
  {
    if |s| < FEW {
    } else {
      MergeSortedLength(cmp, s[..|s| / 2]);
      MergeSortedLength(cmp, s[|s| / 2..]);
      MergePermutes(cmp, MergeSorted(cmp, s[..|s| / 2]), MergeSorted(cmp, s[|s| / 2..]));
    }
  }

  // qsort_r

  /** A sorted permutation of `s`, if the comparator orders `dom`. */
  ghost predicate UnstableSortOf<T>(cmp: Cmp<T>, s: seq<T>, r: seq<T>, dom: set<T>) {
    multiset(r) == multiset(s) && (Preorder(cmp, dom) && Over(s, dom) ==> Sorted(cmp, r))
  }

  ghost predicate AllLe<T>(cmp: Cmp<T>, s: seq<T>, x: T) {
    forall i | 0 <= i < |s| :: Le(cmp, s[i], x)
  }

  ghost predicate NoneLe<T>(cmp: Cmp<T>, s: seq<T>, x: T) {
    forall i | 0 <= i < |s| :: !Le(cmp, s[i], x)
  }

  lemma AllLePermuted<T>(cmp: Cmp<T>, s: seq<T>, r: seq<T>, x: T)
    requires multiset(s) == multiset(r)
    ensures AllLe(cmp, s, x) ==> AllLe(cmp, r, x)
    ensures NoneLe(cmp, s, x) ==> NoneLe(cmp, r, x)
  {
    forall i | 0 <= i < |r| ensures r[i] in s {
      assert r[i] in multiset(s);
    }
  }

  /** Sorted parts on the two sides of the pivot make a sorted whole. */
  lemma Partitioned<T>(cmp: Cmp<T>, low: seq<T>, x: T, high: seq<T>, low': seq<T>, high': seq<T>, dom: set<T>)
    requires AllLe(cmp, low, x) && NoneLe(cmp, high, x)
    requires UnstableSortOf(cmp, low, low', dom) && UnstableSortOf(cmp, high, high', dom)
    ensures UnstableSortOf(cmp, low + [x] + high, low' + [x] + high', dom)
  {
    AllLePermuted(cmp, low, low', x);
    AllLePermuted(cmp, high, high', x);
    var s := low + [x] + high;
    if Preorder(cmp, dom) && Over(s, dom) {
      OverParts(low, x, high, dom);
      OverMultiset(low, low', dom);
      OverMultiset(high, high', dom);
      PivotSorts(cmp, low', x, high', dom);
    }
  }

  lemma OverParts<T>(low: seq<T>, x: T, high: seq<T>, dom: set<T>)
    requires Over(low + [x] + high, dom)
    ensures Over(low, dom) && x in dom && Over(high, dom)
  {
    var s := low + [x] + high;
    assert s[|low|] == x;
    assert forall i | 0 <= i < |low| :: s[i] == low[i];
    assert forall i | 0 <= i < |high| :: s[|low| + 1 + i] == high[i];
  }

  lemma PivotSorts<T>(cmp: Cmp<T>, low: seq<T>, x: T, high: seq<T>, dom: set<T>)
    requires Preorder(cmp, dom) && Over(low, dom) && x in dom && Over(high, dom)
    requires Sorted(cmp, low) && Sorted(cmp, high) && AllLe(cmp, low, x) && NoneLe(cmp, high, x)
    ensures Sorted(cmp, low + [x] + high)
  {
    forall i | 0 <= i < |high| ensures Le(cmp, x, high[i]) {
      assert !Le(cmp, high[i], x);
    }
    forall i, j | 0 <= i < |low| && 0 <= j < |high| ensures Le(cmp, low[i], high[j]) {
      assert Le(cmp, low[i], x) && Le(cmp, x, high[j]);
    }
  }

  /** The median of the first, the middle and the last element. */
  function Pivot<T>(cmp: Cmp<T>, a: T, b: T, c: T, n: nat): (p: nat)
    requires n > 0
    ensures p < n
  {
    if cmp(a, b) < 0 then
      if cmp(b, c) < 0 then n / 2 else if cmp(a, c) < 0 then n - 1 else 0
    else
      if cmp(a, c) < 0 then 0 else if cmp(b, c) < 0 then n - 1 else n / 2
  }

  lemma SwapPermutes<T>(s: seq<T>, i: nat, j: nat)
    requires i < |s| && j < |s|
    ensures multiset(s[i := s[j]][j := s[i]]) == multiset(s)
  {
  }

  /** Only the `n` elements from `base` on have moved, among themselves. */
  ghost predicate Rearranged<T>(was: seq<T>, now: seq<T>, base: nat, n: nat) {
    && base + n <= |was| == |now|
    && now[..base] == was[..base] && now[base + n..] == was[base + n..]
    && multiset(now[base..base + n]) == multiset(was[base..base + n])
  }

  lemma RearrangedTwice<T>(a: seq<T>, b: seq<T>, c: seq<T>, base: nat, n: nat)
    requires Rearranged(a, b, base, n) && Rearranged(b, c, base, n)
    ensures Rearranged(a, c, base, n)
  {
  }

  lemma SwappedRearranges<T>(a: seq<T>, base: nat, n: nat, i: nat, j: nat)
    requires base + n <= |a| && i < n && j < n
    ensures Rearranged(a, Swapped(a, base + i, base + j), base, n)
  {
    var r, s := Swapped(a, base + i, base + j), a[base..base + n];
    assert r[base..base + n] == s[i := s[j]][j := s[i]];
    SwapPermutes(s, i, j);
  }

  /**
    The partition loop, with the pivot `x` at the end: what compares at most `x`, what does not, and
    what is to come.
   */
  ghost predicate Parting<T>(cmp: Cmp<T>, a: seq<T>, base: nat, n: nat, npart: nat, i: nat, x: T) {
    && npart <= i < n && base + n <= |a| && a[base + n - 1] == x
    && (forall k | base <= k < base + npart :: Le(cmp, a[k], x))
    && (forall k | base + npart <= k < base + i :: !Le(cmp, a[k], x))
  }

  lemma PartingBegins<T>(cmp: Cmp<T>, a: seq<T>, base: nat, n: nat)
    requires n > 0 && base + n <= |a|
    ensures Parting(cmp, a, base, n, 0, 0, a[base + n - 1]) && Rearranged(a, a, base, n)
  {
  }

  lemma PartingTurn<T>(cmp: Cmp<T>, a: seq<T>, base: nat, n: nat, npart: nat, i: nat, x: T)
    requires Parting(cmp, a, base, n, npart, i, x) && i < n - 1
    ensures base + n <= |a| && npart <= i && a[base + n - 1] == x
    ensures if Le(cmp, a[base + i], x)
            then Parting(cmp, Swapped(a, base + i, base + npart), base, n, npart + 1, i + 1, x)
            else Parting(cmp, a, base, n, npart, i + 1, x)
  {
  }

  ghost predicate Parted<T>(cmp: Cmp<T>, a: seq<T>, base: nat, n: nat, p: nat) {
    && p < n && base + n <= |a|
    && AllLe(cmp, a[base..base + p], a[base + p]) && NoneLe(cmp, a[base + p + 1..base + n], a[base + p])
  }

  lemma PivotPlaced<T>(cmp: Cmp<T>, a: seq<T>, base: nat, n: nat, npart: nat, x: T)
    requires n > 0 && Parting(cmp, a, base, n, npart, n - 1, x)
    ensures base + n <= |a| && npart < n && Parted(cmp, Swapped(a, base + npart, base + n - 1), base, n, npart)
  {
  }

  /** The partition of fcitx_qsort_r: the pivot ends between what compares at most it and what does not. */
  method Partition<T>(a: array<T>, base: nat, n: nat, cmp: Cmp<T>) returns (npart: nat)
    requires n >= FEW && base + n <= a.Length
    modifies a
    ensures npart < n && Rearranged(old(a[..]), a[..], base, n) && Parted(cmp, a[..], base, n, npart)
  {
    hide Rearranged, Swapped, Parted, Parting;
    ghost var was := a[..];
    var pivot := Pivot(cmp, a[base], a[base + n / 2], a[base + n - 1], n);
    SwappedRearranges(was, base, n, pivot, n - 1);
    Swap(a, base + pivot, base + n - 1);
    ghost var picked := a[..];
    npart := PartitionLoop(a, base, n, cmp);
    ghost var looped := a[..];
    PivotPlaced(cmp, looped, base, n, npart, picked[base + n - 1]);
    SwappedRearranges(looped, base, n, npart, n - 1);
    Swap(a, base + npart, base + n - 1);
    RearrangedTwice(was, picked, looped, base, n);
    RearrangedTwice(was, looped, a[..], base, n);
  }

  /** The loop of the partition; the pivot is the last element. */
  method PartitionLoop<T>(a: array<T>, base: nat, n: nat, cmp: Cmp<T>) returns (npart: nat)
    requires n > 0 && base + n <= a.Length
    modifies a
    ensures npart < n && Rearranged(old(a[..]), a[..], base, n)
    ensures Parting(cmp, a[..], base, n, npart, n - 1, old(a[base + n - 1]))
  {
    hide Rearranged, Swapped, Parting;
    ghost var was, x := a[..], a[base + n - 1];
    npart := 0;
    var i := 0;
    PartingBegins(cmp, was, base, n);
    while i < n - 1
      invariant 0 <= npart <= i <= n - 1 && Rearranged(was, a[..], base, n)
      invariant Parting(cmp, a[..], base, n, npart, i, x)
    {
      ghost var now := a[..];
      PartingTurn(cmp, now, base, n, npart, i, x);
      if cmp(a[base + i], a[base + n - 1]) <= 0 {
        SwappedRearranges(now, base, n, i, npart);
        Swap(a, base + i, base + npart);
        RearrangedTwice(was, now, a[..], base, n);
        npart := npart + 1;
      }
      i := i + 1;
    }
  }

  /** What fcitx_qsort_r achieves on the `n` elements from `base` on. */
  ghost predicate Qsorted<T>(cmp: Cmp<T>, was: seq<T>, now: seq<T>, base: nat, n: nat, dom: set<T>) {
    Rearranged(was, now, base, n) && UnstableSortOf(cmp, was[base..base + n], now[base..base + n], dom)
  }

  /** fcitx_qsort_r of the `n` elements from `base` on */
  method Qsort<T>(a: array<T>, base: nat, n: nat, cmp: Cmp<T>, ghost dom: set<T>)
    requires base + n <= a.Length
    modifies a
    ensures Qsorted(cmp, old(a[..]), a[..], base, n, dom)
    decreases n
  {
    hide Qsorted, Rearranged, UnstableSortOf, Parted;
    ghost var was := a[..];
    if n < FEW {
      ghost var left, s, right := a[..base], a[base..base + n], a[base + n..];
      assert a[..] == left + s + right;
      InsertionSort(a, base, n, cmp, left, s, right);
      FewSorted(cmp, left, s, right, dom);
      return;
    }
    var npart := Partition(a, base, n, cmp);
    ghost var parted := a[..];
    Qsort(a, base, npart, cmp, dom);
    ghost var half := a[..];
    Qsort(a, base + npart + 1, n - npart - 1, cmp, dom);
    PartsSorted(cmp, was, parted, half, a[..], base, n, npart, dom);
  }

  lemma FewSorted<T>(cmp: Cmp<T>, left: seq<T>, s: seq<T>, right: seq<T>, dom: set<T>)
    ensures Qsorted(cmp, left + s + right, left + Inserted(cmp, s) + right, |left|, |s|, dom)
  {
    var was, now, base, n := left + s + right, left + Inserted(cmp, s) + right, |left|, |s|;
    InsertedUnstable(cmp, s, dom);
    Slices(left, s, right);
    Slices(left, Inserted(cmp, s), right);
  }

  lemma Slices<T>(left: seq<T>, s: seq<T>, right: seq<T>)
    ensures var a := left + s + right;
            a[..|left|] == left && a[|left|..|left| + |s|] == s && a[|left| + |s|..] == right
  {
  }

  lemma AroundPivot<T>(a: seq<T>, base: nat, p: nat, n: nat)
    requires p < n && base + n <= |a|
    ensures a[base..base + n] == a[base..base + p] + [a[base + p]] + a[base + p + 1..base + n]
  {
  }

  /** Partitioning, then sorting the two parts, sorts the whole. */
  lemma PartsSorted<T>(cmp: Cmp<T>, was: seq<T>, parted: seq<T>, half: seq<T>, now: seq<T>,
                       base: nat, n: nat, p: nat, dom: set<T>)
    requires p < n && Rearranged(was, parted, base, n)
    requires Parted(cmp, parted, base, n, p)
    requires Qsorted(cmp, parted, half, base, p, dom)
    requires Qsorted(cmp, half, now, base + p + 1, n - p - 1, dom)
    ensures Qsorted(cmp, was, now, base, n, dom)
  {
    hide UnstableSortOf, AllLe, NoneLe;
    var low, x, high := parted[base..base + p], parted[base + p], parted[base + p + 1..base + n];
    var low', high' := half[base..base + p], now[base + p + 1..base + n];
    AroundPivot(parted, base, p, n);
    AroundPivot(now, base, p, n);
    UntouchedAbove(parted, half, base, p, n);
    UntouchedBelow(half, now, base, p, n);
    Partitioned(cmp, low, x, high, low', high', dom);
    SamePermutation(cmp, was[base..base + n], low + [x] + high, low' + [x] + high', dom);
    UnstablePermutes(cmp, was[base..base + n], now[base..base + n], dom);
  }

  lemma UnstablePermutes<T>(cmp: Cmp<T>, s: seq<T>, r: seq<T>, dom: set<T>)
    requires UnstableSortOf(cmp, s, r, dom)
    ensures multiset(s) == multiset(r)
  {
  }

  lemma UntouchedAbove<T>(a: seq<T>, b: seq<T>, base: nat, p: nat, n: nat)
    requires p < n && base + n <= |a| == |b| && b[..base] == a[..base] && b[base + p..] == a[base + p..]
    ensures b[base + p] == a[base + p] && b[base + p + 1..base + n] == a[base + p + 1..base + n]
    ensures b[base + n..] == a[base + n..]
  {
    assert forall k | base + p <= k < |a| :: b[k] == b[base + p..][k - base - p] && a[k] == a[base + p..][k - base - p];
  }

  lemma UntouchedBelow<T>(a: seq<T>, b: seq<T>, base: nat, p: nat, n: nat)
    requires p < n && base + n <= |a| == |b| && b[..base + p + 1] == a[..base + p + 1]
    ensures b[base + p] == a[base + p] && b[base..base + p] == a[base..base + p] && b[..base] == a[..base]
  {
    assert forall k | 0 <= k < base + p + 1 :: b[k] == b[..base + p + 1][k] && a[k] == a[..base + p + 1][k];
  }

  lemma SamePermutation<T>(cmp: Cmp<T>, s: seq<T>, m: seq<T>, r: seq<T>, dom: set<T>)
    requires multiset(s) == multiset(m) && UnstableSortOf(cmp, m, r, dom)
    ensures UnstableSortOf(cmp, s, r, dom)
  {
    if Over(s, dom) {
      OverMultiset(s, m, dom);
    }
  }

  lemma InsertedUnstable<T>(cmp: Cmp<T>, s: seq<T>, dom: set<T>)
    ensures UnstableSortOf(cmp, s, Inserted(cmp, s), dom)
  {
    InsertedSorts(cmp, s, dom);
  }

  /** fcitx_msort_r: the stable sort where the scratch buffer can be had, a sorted permutation at any rate. */
  method Msort<T(0)>(b: array<T>, cmp: Cmp<T>, haveMemory: bool, ghost dom: set<T>)
    modifies b
    ensures UnstableSortOf(cmp, old(b[..]), b[..], dom)
    ensures haveMemory || b.Length < FEW ==> SortOf(cmp, old(b[..]), b[..], dom)
  {
    hide SortOf, UnstableSortOf, Inserted, MergeSorted;
    ghost var s := b[..];
    var n := b.Length;
    assert s == [] + s + [] && b[0..0 + n] == s;
    if n < FEW {
      InsertionSort(b, 0, n, cmp, [], s, []);
      InsertedSorts(cmp, s, dom);
      StableIsSort(cmp, s, Inserted(cmp, s), dom);
      assert b[..] == Inserted(cmp, s);
    } else if !haveMemory {
      Qsort(b, 0, n, cmp, dom);
      assert b[0..0 + n] == b[..];
    } else {
      var tmp := new T[n];
      MsortWithTmp(b, 0, n, cmp, tmp, [], s, []);
      MergeSortedSorts(cmp, s, dom);
      StableIsSort(cmp, s, MergeSorted(cmp, s), dom);
      assert b[..] == MergeSorted(cmp, s);
    }
  }

  lemma StableIsSort<T>(cmp: Cmp<T>, s: seq<T>, r: seq<T>, dom: set<T>)
    requires SortOf(cmp, s, r, dom)
    ensures UnstableSortOf(cmp, s, r, dom)
  {
  }
}

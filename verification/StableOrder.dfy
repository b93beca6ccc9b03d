/**
  What it means for one sequence to be the stable sort of another, and the stable merge that
  the list sort, the hash sort and the array merge sort all perform.

  A comparator is a C comparison function: only the sign of its result matters, and every
  sort in the library asks just one question of it, `cmp(x, y) <= 0`.
 */
module StableOrder {
  import opened Seqs

  type Cmp<!T> = (T, T) -> int

  predicate Le<T>(cmp: Cmp<T>, x: T, y: T) {
    cmp(x, y) <= 0
  }

  /** `cmp` totally preorders the elements of `dom`. */
  ghost predicate Preorder<T>(cmp: Cmp<T>, dom: set<T>) {
    && (forall x, y | x in dom && y in dom :: Le(cmp, x, y) || Le(cmp, y, x))
    && (forall x, y, z | x in dom && y in dom && z in dom && Le(cmp, x, y) && Le(cmp, y, z) :: Le(cmp, x, z))
  }

  ghost predicate Over<T>(s: seq<T>, dom: set<T>) {
    forall i | 0 <= i < |s| :: s[i] in dom
  }

  ghost predicate Sorted<T>(cmp: Cmp<T>, s: seq<T>) {
    forall i, j | 0 <= i < j < |s| :: Le(cmp, s[i], s[j])
  }

  /** The elements of `s` that compare equal to `x`, in the order in which `s` has them. */
  ghost function Class<T>(cmp: Cmp<T>, s: seq<T>, x: T): seq<T> {
    if s == [] then []
    else if Le(cmp, s[0], x) && Le(cmp, x, s[0]) then [s[0]] + Class(cmp, s[1..], x)
    else Class(cmp, s[1..], x)
  }

  /** `r` has the elements of `s`, and those that compare equal in the same order. */
  ghost predicate StablePermutation<T>(cmp: Cmp<T>, s: seq<T>, r: seq<T>, dom: set<T>) {
    && multiset(s) == multiset(r)
    && forall x | x in dom :: Class(cmp, s, x) == Class(cmp, r, x)
  }

  ghost predicate StableSorted<T>(cmp: Cmp<T>, s: seq<T>, r: seq<T>) {
    Sorted(cmp, r) && StablePermutation(cmp, s, r, Elements(s))
  }

  /** What a sort of `s` that produced `r` has achieved, for a comparator that preorders `dom`. */
  ghost predicate SortOf<T>(cmp: Cmp<T>, s: seq<T>, r: seq<T>, dom: set<T>) {
    && multiset(r) == multiset(s)
    && (Preorder(cmp, dom) && Over(s, dom) ==> Sorted(cmp, r) && StablePermutation(cmp, s, r, dom))
  }

  /** The merge that takes from `a` on ties. */
  ghost function Merge<T>(cmp: Cmp<T>, a: seq<T>, b: seq<T>): seq<T> {
    if a == [] then b
    else if b == [] then a
    else if Le(cmp, a[0], b[0]) then [a[0]] + Merge(cmp, a[1..], b)
    else [b[0]] + Merge(cmp, a, b[1..])
  }

  // ---------------------------------------------------------------- lemmas

  lemma {:induction false} ClassConcat<T>(cmp: Cmp<T>, a: seq<T>, b: seq<T>, x: T)
    ensures Class(cmp, a + b, x) == Class(cmp, a, x) + Class(cmp, b, x)
  {
    if a == [] {
      assert a + b == b;
    } else {
      assert (a + b)[1..] == a[1..] + b;
      ClassConcat(cmp, a[1..], b, x);
    }
  }

  lemma {:induction false} ClassEmpty<T>(cmp: Cmp<T>, s: seq<T>, x: T)
    requires forall i | 0 <= i < |s| :: !(Le(cmp, s[i], x) && Le(cmp, x, s[i]))
    ensures Class(cmp, s, x) == []
  {
    if s == [] {
    } else {
      ClassEmpty(cmp, s[1..], x);
    }
  }

  lemma ClassStep<T>(cmp: Cmp<T>, h: T, t: seq<T>, x: T)
    ensures Class(cmp, [h] + t, x) ==
            if Le(cmp, h, x) && Le(cmp, x, h) then [h] + Class(cmp, t, x) else Class(cmp, t, x)
  {
    assert ([h] + t)[1..] == t;
  }

  /** Nothing in a sorted sequence that starts above `low` is equal to what `low` is equal to. */
  lemma AllAboveHead<T>(cmp: Cmp<T>, a: seq<T>, low: T, dom: set<T>, x: T)
    requires Preorder(cmp, dom) && Over(a, dom) && low in dom && x in dom && Sorted(cmp, a)
    requires a != [] && !Le(cmp, a[0], low) && Le(cmp, x, low)
    ensures Class(cmp, a, x) == []
  {
    assert forall i | 0 <= i < |a| :: Le(cmp, a[0], a[i]);
    ClassEmpty(cmp, a, x);
  }

  /** Merging never loses, duplicates or invents an element, whatever the comparator says. */
  lemma {:induction false} MergePermutes<T>(cmp: Cmp<T>, a: seq<T>, b: seq<T>)
    ensures multiset(Merge(cmp, a, b)) == multiset(a) + multiset(b)
    ensures |Merge(cmp, a, b)| == |a| + |b|
  {
    if a == [] || b == [] {
    } else {
      if Le(cmp, a[0], b[0]) {
        MergePermutes(cmp, a[1..], b);
        assert a == [a[0]] + a[1..];
      } else {
        MergePermutes(cmp, a, b[1..]);
        assert b == [b[0]] + b[1..];
      }
    }
  }

  lemma OverMultiset<T>(s: seq<T>, r: seq<T>, dom: set<T>)
    requires Over(s, dom) && multiset(s) == multiset(r)
    ensures Over(r, dom)
  {
    forall i | 0 <= i < |r| ensures r[i] in dom {
      assert r[i] in multiset(s);
    }
  }

  lemma SortedCons<T>(cmp: Cmp<T>, h: T, t: seq<T>)
    requires Sorted(cmp, t)
    requires forall x | x in t :: Le(cmp, h, x)
    ensures Sorted(cmp, [h] + t)
  {
  }

  lemma MergeElements<T>(cmp: Cmp<T>, a: seq<T>, b: seq<T>)
    ensures forall x | x in Merge(cmp, a, b) :: x in a || x in b
  {
    MergePermutes(cmp, a, b);
    forall x | x in Merge(cmp, a, b) ensures x in a || x in b {
      assert x in multiset(Merge(cmp, a, b));
    }
  }

  lemma HeadIsLeast<T>(cmp: Cmp<T>, low: T, s: seq<T>, dom: set<T>)
    requires Preorder(cmp, dom) && Over(s, dom) && low in dom && Sorted(cmp, s)
    requires s != [] && Le(cmp, low, s[0])
    ensures forall x | x in s :: Le(cmp, low, x)
  {
    forall i | 0 <= i < |s| ensures Le(cmp, low, s[i]) {
      assert i == 0 || Le(cmp, s[0], s[i]);
    }
  }

  lemma {:induction false} MergeSorted<T>(cmp: Cmp<T>, a: seq<T>, b: seq<T>, dom: set<T>)
    requires Preorder(cmp, dom) && Over(a, dom) && Over(b, dom)
    requires Sorted(cmp, a) && Sorted(cmp, b)
    ensures Sorted(cmp, Merge(cmp, a, b))
  {
    if a == [] || b == [] {
    } else {
      if Le(cmp, a[0], b[0]) {
        MergeSorted(cmp, a[1..], b, dom);
        MergeElements(cmp, a[1..], b);
        HeadIsLeast(cmp, a[0], b, dom);
        SortedCons(cmp, a[0], Merge(cmp, a[1..], b));
      } else {
        MergeSorted(cmp, a, b[1..], dom);
        MergeElements(cmp, a, b[1..]);
        HeadIsLeast(cmp, b[0], a, dom);
        SortedCons(cmp, b[0], Merge(cmp, a, b[1..]));
      }
    }
  }

  lemma TakeLeft<T>(cmp: Cmp<T>, h: T, a: seq<T>, b: seq<T>, m: seq<T>, x: T)
    requires Class(cmp, m, x) == Class(cmp, a, x) + Class(cmp, b, x)
    ensures Class(cmp, [h] + m, x) == Class(cmp, [h] + a, x) + Class(cmp, b, x)
  {
    ClassStep(cmp, h, m, x);
    ClassStep(cmp, h, a, x);
    ConcatAssociates([h], Class(cmp, a, x), Class(cmp, b, x));
  }

  lemma TakeRight<T>(cmp: Cmp<T>, a: seq<T>, h: T, b: seq<T>, m: seq<T>, x: T)
    requires Class(cmp, m, x) == Class(cmp, a, x) + Class(cmp, b, x)
    requires Le(cmp, h, x) && Le(cmp, x, h) ==> Class(cmp, a, x) == []
    ensures Class(cmp, [h] + m, x) == Class(cmp, a, x) + Class(cmp, [h] + b, x)
  {
    ClassStep(cmp, h, m, x);
    ClassStep(cmp, h, b, x);
    if Class(cmp, a, x) == [] {
      EmptyIsUnit(Class(cmp, b, x));
      EmptyIsUnit([h] + Class(cmp, b, x));
    }
  }

  /** Within each class of equal elements, the merge has all of `a` before all of `b`. */
  lemma {:induction false} MergeClass<T>(cmp: Cmp<T>, a: seq<T>, b: seq<T>, dom: set<T>, x: T)
    requires Preorder(cmp, dom) && Over(a, dom) && Over(b, dom) && x in dom
    requires Sorted(cmp, a) && Sorted(cmp, b)
    ensures Class(cmp, Merge(cmp, a, b), x) == Class(cmp, a, x) + Class(cmp, b, x)
  {
    if a == [] || b == [] {
    } else {
      if Le(cmp, a[0], b[0]) {
        MergeClass(cmp, a[1..], b, dom, x);
        TakeLeft(cmp, a[0], a[1..], b, Merge(cmp, a[1..], b), x);
        assert a == [a[0]] + a[1..];
      } else {
        MergeClass(cmp, a, b[1..], dom, x);
        if Le(cmp, b[0], x) && Le(cmp, x, b[0]) {
          AllAboveHead(cmp, a, b[0], dom, x);
        }
        TakeRight(cmp, a, b[0], b[1..], Merge(cmp, a, b[1..]), x);
        assert b == [b[0]] + b[1..];
      }
    }
  }

  /** Merging the stable sorts of two adjacent pieces stably sorts their concatenation. */
  lemma MergeIsStableSort<T>(cmp: Cmp<T>, s: seq<T>, t: seq<T>, a: seq<T>, b: seq<T>, dom: set<T>)
    requires Preorder(cmp, dom) && Over(s, dom) && Over(t, dom)
    requires Sorted(cmp, a) && StablePermutation(cmp, s, a, dom)
    requires Sorted(cmp, b) && StablePermutation(cmp, t, b, dom)
    ensures Sorted(cmp, Merge(cmp, a, b))
    ensures StablePermutation(cmp, s + t, Merge(cmp, a, b), dom)
  {
    OverMultiset(s, a, dom);
    OverMultiset(t, b, dom);
    MergeSorted(cmp, a, b, dom);
    MergePermutes(cmp, a, b);
    forall x | x in dom ensures Class(cmp, s + t, x) == Class(cmp, Merge(cmp, a, b), x) {
      MergeClass(cmp, a, b, dom, x);
      ClassConcat(cmp, s, t, x);
    }
  }

  /** Two sorted sequences with the same classes start alike, and so do what follows. */
  lemma SameHead<T>(cmp: Cmp<T>, r: seq<T>, q: seq<T>, dom: set<T>)
    requires Preorder(cmp, dom) && Over(r, dom) && Over(q, dom) && r != [] && q != []
    requires Sorted(cmp, r) && Sorted(cmp, q) && StablePermutation(cmp, r, q, dom)
    ensures r[0] == q[0]
  {
    assert r[0] in multiset(q) && q[0] in multiset(r);
    assert Le(cmp, r[0], r[0]);
    assert forall i | 0 <= i < |q| :: i == 0 || Le(cmp, q[0], q[i]);
    assert forall i | 0 <= i < |r| :: i == 0 || Le(cmp, r[0], r[i]);
    assert Le(cmp, q[0], r[0]) && Le(cmp, r[0], q[0]);
    assert Class(cmp, r, r[0]) == [r[0]] + Class(cmp, r[1..], r[0]);
    assert Class(cmp, q, r[0]) == [q[0]] + Class(cmp, q[1..], r[0]);
  }

  lemma SameTail<T>(cmp: Cmp<T>, h: T, r: seq<T>, q: seq<T>, x: T)
    requires Class(cmp, [h] + r, x) == Class(cmp, [h] + q, x)
    ensures Class(cmp, r, x) == Class(cmp, q, x)
  {
    ClassStep(cmp, h, r, x);
    ClassStep(cmp, h, q, x);
    assert ([h] + Class(cmp, r, x))[1..] == Class(cmp, r, x);
    assert ([h] + Class(cmp, q, x))[1..] == Class(cmp, q, x);
  }

  lemma SameTails<T>(cmp: Cmp<T>, h: T, r: seq<T>, q: seq<T>, dom: set<T>)
    requires StablePermutation(cmp, [h] + r, [h] + q, dom)
    ensures StablePermutation(cmp, r, q, dom)
  {
    forall x | x in dom ensures Class(cmp, r, x) == Class(cmp, q, x) {
      SameTail(cmp, h, r, q, x);
    }
    assert multiset([h] + r) == multiset{h} + multiset(r);
    assert multiset([h] + q) == multiset{h} + multiset(q);
    assert multiset(r) == (multiset{h} + multiset(r)) - multiset{h};
    assert multiset(q) == (multiset{h} + multiset(q)) - multiset{h};
  }

  /** There is only one stable sort of a sequence, so stability and sortedness say everything. */
  lemma {:induction false} StableSortUnique<T>(cmp: Cmp<T>, r: seq<T>, q: seq<T>, dom: set<T>)
    requires Preorder(cmp, dom) && Over(r, dom)
    requires Sorted(cmp, r) && Sorted(cmp, q) && StablePermutation(cmp, r, q, dom)
    ensures r == q
  {
    OverMultiset(r, q, dom);
    assert |multiset(q)| == |q| && |multiset(r)| == |r|;
    if r == [] {
    } else {
      SameHead(cmp, r, q, dom);
      var r', q' := r[1..], q[1..];
      assert r == [r[0]] + r' && q == [r[0]] + q';
      SameTails(cmp, r[0], r', q', dom);
      StableSortUnique(cmp, r', q', dom);
    }
  }

  lemma StableSortsAgree<T>(cmp: Cmp<T>, s: seq<T>, r: seq<T>, q: seq<T>)
    requires Preorder(cmp, Elements(s))
    requires StableSorted(cmp, s, r) && StableSorted(cmp, s, q)
    ensures r == q
  {
    OverMultiset(s, r, Elements(s));
    StableSortUnique(cmp, r, q, Elements(s));
  }
}

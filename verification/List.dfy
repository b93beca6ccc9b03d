/**
  The intrusive circular list of list.h and its merge sort (list.c), on the heap.

  A list is a head and the nodes hanging off it; the head itself carries no element. The
  comparator looks at the object a node is embedded in, never at the links, so it is a
  function of the node.
 */
module List {
  import opened Seqs
  import opened StableOrder

  class ListHead {
    var prev: ListHead?
    var next: ListHead?

    constructor ()
      ensures prev == null && next == null
    {
      prev, next := null, null;
    }
  }

  // ---------------------------------------------------------------- circular lists

  /** Consecutive nodes point at each other. */
  ghost predicate Linked(s: seq<ListHead>)
    reads s
  {
    && (forall i {:trigger s[i].next} | 0 <= i < |s| - 1 :: s[i].next == s[i + 1])
    && (forall i {:trigger s[i].prev} | 0 < i < |s| :: s[i].prev == s[i - 1])
  }

  /** Going round from `head` by `next` meets exactly the nodes `s`; by `prev`, in reverse. */
  ghost predicate Ring(head: ListHead, s: seq<ListHead>)
    reads head, s
  {
    && head !in s
    && Distinct(s)
    && Linked([head] + s + [head])
  }

  method Init(pos: ListHead)
    modifies pos
    ensures Ring(pos, [])
  {
    pos.next := pos;
    pos.prev := pos;
  }

  method IsEmpty(pos: ListHead, ghost s: seq<ListHead>) returns (empty: bool)
    requires Ring(pos, s)
    ensures empty <==> s == []
  {
    ghost var r := [pos] + s + [pos];
    assert r[0].next == r[1];
    return pos.next == pos;
  }

  /** `__fcitx_list_insert_between`, at position `k` of the list. */
  method InsertBetween(add: ListHead, prev: ListHead, next: ListHead,
                       ghost head: ListHead, ghost s: seq<ListHead>, ghost k: nat)
    requires Ring(head, s) && add != head && add !in s && k <= |s|
    requires prev == ([head] + s + [head])[k] && next == ([head] + s + [head])[k + 1]
    modifies add, prev, next
    ensures Ring(head, s[..k] + [add] + s[k..])
  {
    next.prev := add;
    prev.next := add;
    add.next := next;
    add.prev := prev;
    ghost var r, r' := [head] + s + [head], [head] + (s[..k] + [add] + s[k..]) + [head];
    assert forall i | 0 <= i <= k :: r'[i] == r[i];
    assert forall i | k + 1 < i < |r'| :: r'[i] == r[i - 1];
    forall i | 0 <= i < |r'| - 1 ensures r'[i].next == r'[i + 1] && r'[i + 1].prev == r'[i] {
      if i < k {
        assert r[i].next == r[i + 1] && r[i + 1].prev == r[i];
      } else if i > k + 1 {
        assert r[i - 1].next == r[i] && r[i].prev == r[i - 1];
      }
    }
  }

  method Prepend(add: ListHead, pos: ListHead, ghost s: seq<ListHead>)
    requires Ring(pos, s) && add != pos && add !in s
    modifies add, pos, s
    ensures Ring(pos, [add] + s)
  {
    ghost var r := [pos] + s + [pos];
    assert r[0].next == r[1];
    InsertBetween(add, pos, pos.next, pos, s, 0);
    assert s[..0] + [add] + s[0..] == [add] + s;
  }

  method Append(add: ListHead, pos: ListHead, ghost s: seq<ListHead>)
    requires Ring(pos, s) && add != pos && add !in s
    modifies add, pos, s
    ensures Ring(pos, s + [add])
  {
    ghost var r := [pos] + s + [pos];
    assert r[|s|].next == r[|s| + 1] && r[|s| + 1].prev == r[|s|];
    InsertBetween(add, pos.prev, pos, pos, s, |s|);
    assert s[..|s|] + [add] + s[|s|..] == s + [add];
  }

  method Remove(pos: ListHead, ghost head: ListHead, ghost s: seq<ListHead>, ghost k: nat)
    requires Ring(head, s) && k < |s| && s[k] == pos
    modifies head, s
    ensures Ring(head, s[..k] + s[k + 1..])
    ensures pos.next == null && pos.prev == null
  {
    ghost var r, r' := [head] + s + [head], [head] + (s[..k] + s[k + 1..]) + [head];
    assert r[k].next == r[k + 1] && r[k + 1].prev == r[k];
    assert r[k + 1].next == r[k + 2] && r[k + 2].prev == r[k + 1];
    var next := pos.next;
    var prev := pos.prev;
    prev.next := next;
    next.prev := prev;
    pos.next := null;
    pos.prev := null;
    assert forall i | 0 <= i <= k :: r'[i] == r[i];
    assert forall i | k < i < |r'| :: r'[i] == r[i + 1];
    forall i | 0 <= i < |r'| - 1 ensures r'[i].next == r'[i + 1] && r'[i + 1].prev == r'[i] {
      if i < k {
        assert r[i].next == r[i + 1] && r[i + 1].prev == r[i];
      } else if i > k {
        assert r[i + 1].next == r[i + 2] && r[i + 2].prev == r[i + 1];
      }
    }
  }

  // ---------------------------------------------------------------- the merge

  /** `h` starts a NULL-terminated chain of exactly the nodes `s`. */
  ghost predicate Chain(h: ListHead?, s: seq<ListHead>)
    reads s
  {
    && Distinct(s)
    && h == First(s)
    && Linked(s)
    && (s != [] ==> s[|s| - 1].next == null)
  }

  ghost function First(s: seq<ListHead>): ListHead? {
    if s == [] then null else s[0]
  }

  ghost function Last(s: seq<ListHead>): ListHead? {
    if s == [] then null else s[|s| - 1]
  }

  ghost predicate Disjoint<T>(a: seq<T>, b: seq<T>) {
    forall x | x in a :: x !in b
  }

  lemma ChainTail(h: ListHead, s: seq<ListHead>)
    requires Chain(h, s)
    ensures s[0] == h && h !in s[1..] && Chain(h.next, s[1..])
  {
    var t := s[1..];
    forall i | 0 <= i < |t| - 1 ensures t[i].next == t[i + 1] && t[i + 1].prev == t[i] {
      assert s[i + 1].next == s[i + 2] && s[i + 2].prev == s[i + 1];
    }
    if t != [] {
      assert s[0].next == s[1];
    }
  }

  /** Puts `h` in front of the merged rest; `end` is set when nothing follows. */
  method LinkFront(h: ListHead, next: ListHead?, e: ListHead?, ghost rest: seq<ListHead>) returns (end: ListHead?)
    requires Chain(next, rest) && h !in rest
    requires rest != [] ==> e == Last(rest)
    modifies h, next
    ensures Chain(h, [h] + rest)
    ensures end == Last([h] + rest)
  {
    end := e;
    h.next := next;
    if h.next != null {
      h.next.prev := h;
    } else {
      end := h;
    }
    ghost var r := [h] + rest;
    forall i | 0 <= i < |r| - 1 ensures r[i].next == r[i + 1] && r[i + 1].prev == r[i] {
      if i > 0 {
        assert rest[i - 1].next == rest[i] && rest[i].prev == rest[i - 1];
      }
    }
    assert Last(r) == (if rest == [] then h else Last(rest));
  }

  /**
    Relinks two NULL-terminated chains into their merge, recursively as the source does.
    `prev` of the very first node is left for the caller to set.
   */
  method SortedMerge(heada: ListHead?, enda: ListHead?, headb: ListHead?, endb: ListHead?,
                     cmp: Cmp<ListHead>, ghost a: seq<ListHead>, ghost b: seq<ListHead>)
    returns (result: ListHead?, end: ListHead?)
    requires Chain(heada, a) && Chain(headb, b) && Disjoint(a, b)
    requires (a != [] ==> enda == Last(a)) && (b != [] ==> endb == Last(b))
    modifies a, b
    ensures Chain(result, Merge(cmp, a, b))
    ensures a + b != [] ==> end == Last(Merge(cmp, a, b))
    decreases |a| + |b|
  {
    if heada == null {
      return headb, endb;
    } else if headb == null {
      return heada, enda;
    }
    if cmp(heada, headb) <= 0 {
      ChainTail(heada, a);
      var next, e := SortedMerge(heada.next, enda, headb, endb, cmp, a[1..], b);
      ghost var rest := Merge(cmp, a[1..], b);
      MergeElements(cmp, a[1..], b);
      assert rest != [] ==> rest[0] in a || rest[0] in b;
      result := heada;
      end := LinkFront(heada, next, e, rest);
      assert Merge(cmp, a, b) == [heada] + rest;
    } else {
      ChainTail(headb, b);
      var next, e := SortedMerge(heada, enda, headb.next, endb, cmp, a, b[1..]);
      ghost var rest := Merge(cmp, a, b[1..]);
      MergeElements(cmp, a, b[1..]);
      assert rest != [] ==> rest[0] in a || rest[0] in b;
      result := headb;
      end := LinkFront(headb, next, e, rest);
      assert Merge(cmp, a, b) == [headb] + rest;
    }
  }

  // ---------------------------------------------------------------- the sort

  lemma SortOfParts(cmp: Cmp<ListHead>, s: seq<ListHead>, p: nat,
                    a: seq<ListHead>, b: seq<ListHead>, dom: set<ListHead>)
    requires p <= |s|
    requires SortOf(cmp, s[..p], a, dom) && SortOf(cmp, s[p..], b, dom)
    ensures SortOf(cmp, s, Merge(cmp, a, b), dom)
  {
    assert s == s[..p] + s[p..];
    MergePermutes(cmp, a, b);
    if Preorder(cmp, dom) && Over(s, dom) {
      MergeIsStableSort(cmp, s[..p], s[p..], a, b, dom);
    }
  }

  lemma SortOfShort(cmp: Cmp<ListHead>, s: seq<ListHead>, dom: set<ListHead>)
    requires |s| <= 1
    ensures SortOf(cmp, s, s, dom)
  {
  }

  /** Cutting a ring at both ends of its element sequence leaves a NULL-terminated chain. */
  method OpenRing(list: ListHead, ghost s: seq<ListHead>) returns (head: ListHead, end: ListHead)
    requires Ring(list, s) && s != []
    modifies s[0], s[|s| - 1]
    ensures head == s[0] && end == s[|s| - 1]
    ensures Chain(head, s)
    ensures unchanged(list)
  {
    ghost var r := [list] + s + [list];
    assert r[0].next == r[1] && r[|s|].next == r[|s| + 1] && r[|s| + 1].prev == r[|s|];
    head := list.next;
    head.prev := null;
    end := list.prev;
    end.next := null;
    forall i | 0 <= i < |s| - 1 ensures s[i].next == s[i + 1] && s[i + 1].prev == s[i] {
      assert r[i + 1].next == r[i + 2] && r[i + 2].prev == r[i + 1];
    }
  }

  /** Closing a chain round the head makes it a ring again. */
  method CloseRing(list: ListHead, head: ListHead, end: ListHead, ghost s: seq<ListHead>)
    requires s != [] && list !in s && Distinct(s) && Linked(s)
    requires head == s[0] && end == s[|s| - 1]
    modifies list, head, end
    ensures Ring(list, s)
  {
    list.next := head;
    head.prev := list;
    list.prev := end;
    end.next := list;
    ghost var r := [list] + s + [list];
    forall i | 0 <= i < |r| - 1 ensures r[i].next == r[i + 1] && r[i + 1].prev == r[i] {
      if 0 < i < |s| {
        assert s[i - 1].next == s[i] && s[i].prev == s[i - 1];
      }
    }
  }

  lemma RingAt(list: ListHead, s: seq<ListHead>, k: nat)
    requires Ring(list, s) && 0 < k < |s|
    ensures s[k - 1].next == s[k] && s[k].prev == s[k - 1]
  {
    var r := [list] + s + [list];
    assert r[k].next == r[k + 1] && r[k + 1].prev == r[k];
  }

  lemma RingEnds(list: ListHead, s: seq<ListHead>)
    requires Ring(list, s) && s != []
    ensures list.next == s[0] && list.prev == s[|s| - 1]
  {
    var r := [list] + s + [list];
    assert r[0].next == r[1] && r[|s| + 1].prev == r[|s|];
  }

  /** The slow pointer stops at the last node of the first half. */
  method Middle(list: ListHead, ghost s: seq<ListHead>) returns (slow: ListHead, ghost p: nat)
    requires Ring(list, s) && |s| >= 2
    ensures 1 <= p < |s| && slow == s[p - 1]
    ensures 2 * p == |s| || 2 * p == |s| + 1
  {
    ghost var r := [list] + s + [list];
    assert r[0].next == r[1] && r[1].next == r[2];
    slow := list.next;
    var fast := list.next.next;
    p := 1;
    ghost var f := 2;
    while fast != list
      invariant 1 <= p < |s| && 2 <= f <= |s| + 1
      invariant slow == r[p] && fast == r[f]
      invariant f == 2 * p || (f == 2 * p + 1 && fast == list)
      decreases |s| - f
    {
      assert r[f].next == r[f + 1];
      fast := fast.next;
      f := f + 1;
      if fast != list {
        assert r[p].next == r[p + 1] && r[f].next == r[f + 1];
        slow := slow.next;
        fast := fast.next;
        p, f := p + 1, f + 1;
      }
    }
  }

  /** Closes the first half round the head; the second half stays linked but unreachable from it. */
  method KeepFirstHalf(list: ListHead, slow: ListHead, ghost s: seq<ListHead>, ghost p: nat)
    requires Ring(list, s) && 1 <= p < |s| && slow == s[p - 1]
    modifies list, slow
    ensures Ring(list, s[..p])
    ensures Linked(s[p..]) && Distinct(s[p..])
  {
    ghost var r, r', t := [list] + s + [list], [list] + s[..p] + [list], s[p..];
    list.prev := slow;
    slow.next := list;
    forall i | 0 <= i < |r'| - 1 ensures r'[i].next == r'[i + 1] && r'[i + 1].prev == r'[i] {
      if i < p {
        assert old(r[i].next == r[i + 1] && r[i + 1].prev == r[i]);
      }
    }
    forall i | 0 <= i < |t| - 1 ensures t[i].next == t[i + 1] && t[i + 1].prev == t[i] {
      assert old(r[p + i + 1].next == r[p + i + 2] && r[p + i + 2].prev == r[p + i + 1]);
    }
  }

  /**
    fcitx_list_sort_r: splits at the slow pointer, sorts each half round the same head, merges.
    Afterwards the ring holds the same nodes, in order, equal ones in their old order, and its
    `prev` links mirror its `next` links all the way round.
   */
  method Sort(list: ListHead, cmp: Cmp<ListHead>, ghost s: seq<ListHead>, ghost dom: set<ListHead>)
    returns (ghost r: seq<ListHead>)
    requires Ring(list, s)
    modifies list, s
    ensures Ring(list, r)
    ensures SortOf(cmp, s, r, dom)
    decreases |s|, 2
  {
    var empty := IsEmpty(list, s);
    if empty {
      SortOfShort(cmp, s, dom);
      return s;
    }
    RingEnds(list, s);
    if list.prev == list.next {
      SortOfShort(cmp, s, dom);
      return s;
    }
    var slow, p := Middle(list, s);
    RingAt(list, s, p);
    var headb := slow.next;
    var endb := list.prev;
    KeepFirstHalf(list, slow, s, p);
    r := SortHalves(list, headb, endb, cmp, s, p, dom);
  }

  method SortHalves(list: ListHead, headb: ListHead, endb: ListHead, cmp: Cmp<ListHead>,
                    ghost s: seq<ListHead>, ghost p: nat, ghost dom: set<ListHead>)
    returns (ghost r: seq<ListHead>)
    requires 1 <= p < |s| && Distinct(s)
    requires Ring(list, s[..p]) && Linked(s[p..]) && list !in s
    requires headb == s[p] && endb == s[|s| - 1]
    modifies list, s
    ensures Ring(list, r)
    ensures SortOf(cmp, s, r, dom)
    decreases |s|, 1
  {
    hide SortOf;
    ghost var sa, sb := s[..p], s[p..];
    HalvesApart(s, p);
    assert s[0..p] == sa && s[p..|s|] == sb;
    var heada, enda, a := SortAndOpen(list, cmp, sa, dom);
    PartOf(a, s, 0, p);
    assert forall i | 0 <= i < |a| :: a[i] != list && a[i] !in sb;
    var headb', endb', b := SortDetached(list, headb, endb, cmp, sb, dom);
    assert Chain(heada, a);
    PartOf(b, s, p, |s|);
    MergeAndClose(list, heada, enda, headb', endb', cmp, a, b);
    r := Merge(cmp, a, b);
    SortOfParts(cmp, s, p, a, b, dom);
  }

  method MergeAndClose(list: ListHead, heada: ListHead, enda: ListHead, headb: ListHead, endb: ListHead,
                       cmp: Cmp<ListHead>, ghost a: seq<ListHead>, ghost b: seq<ListHead>)
    requires Chain(heada, a) && Chain(headb, b) && Disjoint(a, b)
    requires enda == Last(a) && endb == Last(b)
    requires list !in a && list !in b
    modifies list, a, b
    ensures Ring(list, Merge(cmp, a, b))
  {
    var head, end := SortedMerge(heada, enda, headb, endb, cmp, a, b);
    MergeElements(cmp, a, b);
    MergePermutes(cmp, a, b);
    ghost var r := Merge(cmp, a, b);
    assert head == r[0] && end == r[|r| - 1];
    assert r[0] in r && r[|r| - 1] in r && list !in r;
    CloseRing(list, head, end, r);
  }

  lemma HalvesApart(s: seq<ListHead>, p: nat)
    requires Distinct(s) && p <= |s|
    ensures forall i | 0 <= i < p :: s[i] !in s[p..]
    ensures forall i | p <= i < |s| :: s[i] !in s[..p]
  {
  }

  lemma PartOf(a: seq<ListHead>, s: seq<ListHead>, lo: nat, hi: nat)
    requires lo <= hi <= |s| && multiset(a) == multiset(s[lo..hi])
    ensures |a| == hi - lo
    ensures forall i | 0 <= i < |a| :: a[i] in s && exists k | lo <= k < hi :: a[i] == s[k]
    ensures forall x | x in a :: x in s
  {
    assert |multiset(a)| == |a| && |multiset(s[lo..hi])| == hi - lo;
    forall i | 0 <= i < |a| ensures a[i] in s && exists k | lo <= k < hi :: a[i] == s[k] {
      assert a[i] in multiset(s[lo..hi]);
      var j :| 0 <= j < hi - lo && s[lo..hi][j] == a[i];
      assert s[lo + j] == a[i];
    }
  }

  method SortDetached(list: ListHead, head: ListHead, end: ListHead, cmp: Cmp<ListHead>,
                      ghost s: seq<ListHead>, ghost dom: set<ListHead>)
    returns (head': ListHead, end': ListHead, ghost r: seq<ListHead>)
    requires s != [] && list !in s && Distinct(s) && Linked(s)
    requires head == s[0] && end == s[|s| - 1]
    modifies list, s
    ensures Chain(head', r) && end' == Last(r)
    ensures SortOf(cmp, s, r, dom)
    decreases |s|, 4
  {
    CloseRing(list, head, end, s);
    head', end', r := SortAndOpen(list, cmp, s, dom);
  }

  method SortAndOpen(list: ListHead, cmp: Cmp<ListHead>, ghost s: seq<ListHead>, ghost dom: set<ListHead>)
    returns (head: ListHead, end: ListHead, ghost r: seq<ListHead>)
    requires Ring(list, s) && s != []
    modifies list, s
    ensures Chain(head, r) && end == Last(r)
    ensures SortOf(cmp, s, r, dom)
    decreases |s|, 3
  {
    r := Sort(list, cmp, s, dom);
    assert s[0..|s|] == s;
    PartOf(r, s, 0, |s|);
    head, end := OpenRing(list, r);
  }
}

/** Sequences without repetition, and taking one element out of them. */
module Seqs {

  ghost predicate Distinct<T>(s: seq<T>) {
    forall i, j | 0 <= i < j < |s| :: s[i] != s[j]
  }

  ghost function Without<T>(s: seq<T>, k: nat): seq<T>
    requires k < |s|
  {
    s[..k] + s[k + 1..]
  }

  lemma WithoutMembers<T>(s: seq<T>, k: nat)
    requires k < |s| && Distinct(s)
    ensures forall x :: x in Without(s, k) <==> x in s && x != s[k]
  {
    assert s == s[..k] + [s[k]] + s[k + 1..];
  }

  lemma WithoutFrom<T>(s: seq<T>, k: nat)
    requires k < |s|
    ensures forall j | 0 <= j < |s| - 1 :: Without(s, k)[j] == s[if j < k then j else j + 1]
  {
  }

  lemma WithoutDistinct<T>(s: seq<T>, k: nat)
    requires k < |s| && Distinct(s)
    ensures Distinct(Without(s, k))
  {
  }

  ghost function Elements<T>(s: seq<T>): set<T> {
    set x | x in s
  }

  lemma {:induction false} DistinctSize<T>(s: seq<T>)
    requires Distinct(s)
    ensures |Elements(s)| == |s|
  {
    if s == [] {
    } else {
      DistinctSize(s[1..]);
      assert Elements(s) == Elements(s[1..]) + {s[0]};
    }
  }

  /** Two repetition-free sequences with the same elements are equally long. */
  lemma SameElementsSameLength<T>(s: seq<T>, r: seq<T>)
    requires Distinct(s) && Distinct(r)
    requires (forall x | x in s :: x in r) && (forall x | x in r :: x in s)
    ensures |s| == |r|
  {
    DistinctSize(s);
    DistinctSize(r);
    assert Elements(s) == Elements(r);
  }

  lemma ConcatAssociates<T>(u: seq<T>, v: seq<T>, w: seq<T>)
    ensures u + (v + w) == (u + v) + w
  {
  }

  lemma EmptyIsUnit<T>(s: seq<T>)
    ensures [] + s == s
  {
  }

  /** The parts put one behind the other. */
  function Concat<T>(parts: seq<seq<T>>): seq<T> {
    if parts == [] then [] else parts[0] + Concat(parts[1..])
  }

  lemma ConcatCons<T>(part: seq<T>, parts: seq<seq<T>>)
    ensures Concat([part] + parts) == part + Concat(parts)
  {
    assert ([part] + parts)[1..] == parts;
  }
}

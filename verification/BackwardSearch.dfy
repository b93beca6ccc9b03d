/**
  stringutils.c: fcitx_utils_backward_search, a search for the last occurrence with a rolling hash.
  A char is its value after integer promotion, so either signedness is covered; the hashes are
  unsigned 32-bit words.
 */
module BackwardSearch {
  import opened Bits

  const WORD := 0x1_0000_0000

  /** An unsigned 32-bit word. */
  function U(x: int): (r: int)
    ensures 0 <= r < WORD
  {
    x % WORD
  }

  lemma UAdd(a: int, b: int)
    ensures U(U(a) + b) == U(a + b)
  {
  }

  lemma USub(a: int, b: int)
    ensures U(U(a) - b) == U(a - b)
  {
  }

  lemma UTwice(a: int)
    ensures U(2 * U(a)) == U(2 * a)
  {
    var q, u := a / WORD, U(a);
    assert a == WORD * q + u;
    assert 2 * u == WORD * (2 * u / WORD) + U(2 * u);
    ModUnique(2 * a, WORD, 2 * q + 2 * u / WORD, U(2 * u));
  }

  /** The hash the code keeps modulo 2^32: the sum of w[j] * 2^j. */
  function Hash(w: seq<int>): int {
    if w == [] then 0 else w[0] + 2 * Hash(w[1..])
  }

  lemma {:induction false} HashSnoc(w: seq<int>, z: int)
    ensures Hash(w + [z]) == Hash(w) + z * Pow2(|w|)
  {
    if w == [] {
      assert [z][1..] == [];
    } else {
      HashSnoc(w[1..], z);
      assert (w + [z])[1..] == w[1..] + [z];
      Distribute(z, Pow2(|w| - 1));
    }
  }

  lemma Distribute(z: int, p: int)
    ensures 2 * (z * p) == z * (2 * p)
  {
  }

  /** Taking the last character off the hash; from 33 characters on it has no bits left in it. */
  function Rehash(h: int, a: int, olMinus1: nat): int {
    U(2 * if olMinus1 < 32 then U(h - a * Pow2(olMinus1)) else h)
  }

  lemma {:induction false} HighPower(k: nat)
    requires k >= 32
    ensures exists m: nat :: Pow2(k) == m * WORD
  {
    if k == 32 {
      assert Pow2(4) == 16;
      PowAdds(4, 4);
      PowAdds(8, 8);
      PowAdds(16, 16);
      assert Pow2(32) == 1 * WORD;
    } else {
      HighPower(k - 1);
      var m: nat :| Pow2(k - 1) == m * WORD;
      assert Pow2(k) == (2 * m) * WORD;
    }
  }

  lemma {:induction false} PowAdds(a: nat, b: nat)
    ensures Pow2(a + b) == Pow2(a) * Pow2(b)
  {
    if a == 0 {
    } else {
      PowAdds(a - 1, b);
      assert 2 * (Pow2(a - 1) * Pow2(b)) == (2 * Pow2(a - 1)) * Pow2(b);
    }
  }

  lemma DropMultiple(x: int, a: int, m: nat)
    ensures U(x - a * (m * WORD)) == U(x)
  {
    var q := a * m;
    assert a * (m * WORD) == q * WORD;
    assert x - q * WORD == (x / WORD - q) * WORD + x % WORD;
  }

  /** Moving the window one to the left, before the new first character is added. */
  lemma Roll(w: seq<int>, z: int)
    ensures Rehash(U(Hash(w + [z])), z, |w|) == U(2 * Hash(w))
  {
    hide U, Hash, Pow2;
    HashSnoc(w, z);
    if |w| < 32 {
      RollLow(Hash(w), z * Pow2(|w|));
    } else {
      HighPower(|w|);
      var m: nat :| Pow2(|w|) == m * WORD;
      RollHigh(Hash(w), z, m);
    }
  }

  lemma RollLow(x: int, y: int)
    ensures U(2 * U(U(x + y) - y)) == U(2 * x)
  {
    USub(x + y, y);
    UTwice(x);
  }

  lemma RollHigh(x: int, z: int, m: nat)
    ensures U(2 * U(x + z * (m * WORD))) == U(2 * x)
  {
    DropMultiple(x + z * (m * WORD), z, m);
    UTwice(x + z * (m * WORD));
    UTwice(x);
  }

  predicate Occurs(hay: seq<int>, needle: seq<int>, at: nat) {
    at + |needle| <= |hay| && hay[at..at + |needle|] == needle
  }

  /** The hash of the last `n` characters of `w`, as the first loop builds it. */
  lemma HashStep(w: seq<int>, n: nat)
    requires n < |w|
    ensures U(2 * U(Hash(w[|w| - n..])) + w[|w| - n - 1]) == U(Hash(w[|w| - n - 1..]))
  {
    var s := w[|w| - n - 1..];
    assert s[1..] == w[|w| - n..];
    var h := Hash(s[1..]);
    UTwice(h);
    UAdd(2 * U(h), s[0]);
    UAdd(2 * h, s[0]);
  }

  /**
    fcitx_utils_backward_search, for a needle with a first character: the last occurrence not behind
    `from`, and none (-1) exactly when there is none or the arguments are out of range.
   */
  method BackwardSearch(haystack: seq<int>, needle: seq<int>, from: nat) returns (r: int)
    requires 1 <= |needle| <= WORD
    ensures -1 <= r
    ensures r >= 0 ==> r <= from <= |haystack| && Occurs(haystack, needle, r)
                       && forall p | r < p <= from :: !Occurs(haystack, needle, p)
    ensures r == -1 <==> from > |haystack| || forall p | 0 <= p <= from :: !Occurs(haystack, needle, p)
  {
    hide U, Hash, Rehash;
    var l, ol := |haystack|, |needle|;
    if ol > l {
      return -1;
    }
    var delta := l - ol;
    if from > l {
      return -1;
    }
    var at := if from > delta then delta else from;
    var hashNeedle, hashHaystack := HashBoth(needle, haystack[at..at + ol]);
    hashHaystack := U(hashHaystack - haystack[at]);
    Head(haystack, at, ol);
    while at >= 0
      invariant -1 <= at <= delta && at <= from
      invariant at >= 0 ==> hashHaystack == U(2 * Hash(haystack[at + 1..at + ol]))
      invariant forall p | at < p <= from :: !Occurs(haystack, needle, p)
      decreases at
    {
      hashHaystack := U(hashHaystack + haystack[at]);
      AddHead(haystack, at, ol);
      if hashHaystack == hashNeedle && needle == haystack[at..at + ol] {
        return at;
      }
      if at > 0 {
        RollBack(haystack, at, ol);
      }
      hashHaystack := Rehash(hashHaystack, haystack[at - 1 + ol], ol - 1);
      at := at - 1;
    }
    return -1;
  }

  /** The first loop: both hashes, from the last character to the first. */
  method HashBoth(needle: seq<int>, window: seq<int>) returns (hashNeedle: int, hashHaystack: int)
    requires |needle| == |window|
    ensures hashNeedle == U(Hash(needle)) && hashHaystack == U(Hash(window))
  {
    hashNeedle, hashHaystack := 0, 0;
    var ol := |needle|;
    var idx := 0;
    while idx < ol
      invariant 0 <= idx <= ol
      invariant hashNeedle == U(Hash(needle[ol - idx..])) && hashHaystack == U(Hash(window[ol - idx..]))
    {
      HashStep(needle, idx);
      HashStep(window, idx);
      hashNeedle := U(2 * hashNeedle + needle[ol - 1 - idx]);
      hashHaystack := U(2 * hashHaystack + window[ol - 1 - idx]);
      idx := idx + 1;
    }
    assert needle[0..] == needle && window[0..] == window;
  }

  lemma Head(hay: seq<int>, at: nat, ol: nat)
    requires ol >= 1 && at + ol <= |hay|
    ensures U(U(Hash(hay[at..at + ol])) - hay[at]) == U(2 * Hash(hay[at + 1..at + ol]))
  {
    assert hay[at..at + ol][1..] == hay[at + 1..at + ol];
    USub(Hash(hay[at..at + ol]), hay[at]);
  }

  lemma AddHead(hay: seq<int>, at: nat, ol: nat)
    requires ol >= 1 && at + ol <= |hay|
    ensures U(U(2 * Hash(hay[at + 1..at + ol])) + hay[at]) == U(Hash(hay[at..at + ol]))
  {
    assert hay[at..at + ol][1..] == hay[at + 1..at + ol];
    UAdd(2 * Hash(hay[at + 1..at + ol]), hay[at]);
  }

  lemma RollBack(hay: seq<int>, at: nat, ol: nat)
    requires ol >= 1 && 0 < at && at + ol <= |hay|
    ensures Rehash(U(Hash(hay[at..at + ol])), hay[at - 1 + ol], ol - 1) == U(2 * Hash(hay[at..at + ol - 1]))
  {
    assert hay[at..at + ol] == hay[at..at + ol - 1] + [hay[at + ol - 1]];
    Roll(hay[at..at + ol - 1], hay[at + ol - 1]);
  }
}

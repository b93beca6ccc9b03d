/** Bitwise AND and powers of two on unbounded naturals, as the hash index uses them. */
module Bits {

  function Pow2(k: nat): (r: nat)
    ensures r >= 1
  {
    if k == 0 then 1 else 2 * Pow2(k - 1)
  }

  function BitAnd(x: nat, y: nat): (r: nat)
    ensures r <= y
    decreases x
  {
    if x == 0 || y == 0 then 0
    else 2 * BitAnd(x / 2, y / 2) + (if x % 2 == 1 && y % 2 == 1 then 1 else 0)
  }

  function ShiftRight(x: nat, k: nat): nat {
    if k == 0 then x else ShiftRight(x / 2, k - 1)
  }

  /** Shifting right by `k` and masking with `2^k - 1` split `x` into quotient and remainder. */
  lemma {:induction false} ShiftAndMask(x: nat, k: nat)
    ensures x == Pow2(k) * ShiftRight(x, k) + BitAnd(x, Pow2(k) - 1)
    ensures BitAnd(x, Pow2(k) - 1) < Pow2(k)
  {
    hide BitAnd;
    if k == 0 {
      MaskNone(x);
    } else {
      var m, q, r := Pow2(k - 1), ShiftRight(x / 2, k - 1), BitAnd(x / 2, Pow2(k - 1) - 1);
      ShiftAndMask(x / 2, k - 1);
      MaskStep(x, m);
      Recombine(x, m, q, r);
    }
  }

  lemma MaskNone(x: nat)
    ensures BitAnd(x, 0) == 0
  {
  }

  lemma Recombine(x: nat, m: nat, q: nat, r: nat)
    requires x / 2 == m * q + r
    ensures x == (2 * m) * q + (2 * r + x % 2)
  {
    assert (2 * m) * q == 2 * (m * q);
  }

  lemma MaskStep(x: nat, m: nat)
    requires m > 0
    ensures BitAnd(x, 2 * m - 1) == 2 * BitAnd(x / 2, m - 1) + x % 2
  {
    assert (2 * m - 1) / 2 == m - 1;
    if x / 2 == 0 {
      assert BitAnd(0, m - 1) == 0;
    }
  }

  lemma ModUnique(x: int, m: nat, q: int, r: nat)
    requires m > 0 && x == m * q + r && r < m
    ensures x % m == r && x / m == q
  {
    var q', r' := x / m, x % m;
    assert x == m * q' + r';
    MulAtLeast(m, q - q');
    assert m * (q - q') == r' - r;
  }

  lemma MulAtLeast(m: nat, d: int)
    ensures d >= 1 ==> m * d >= m
    ensures d <= -1 ==> m * d + m <= 0
  {
    if d >= 1 {
      assert m * d == m * (d - 1) + m;
    } else if d <= -1 {
      assert m * d == m * (d + 1) - m;
      assert m * (d + 1) <= 0;
    }
  }

  /** Masking with `2^k - 1` is the remainder modulo `2^k`. */
  lemma MaskIsMod(x: nat, k: nat)
    ensures BitAnd(x, Pow2(k) - 1) == x % Pow2(k)
  {
    ShiftAndMask(x, k);
    ModUnique(x, Pow2(k), ShiftRight(x, k), BitAnd(x, Pow2(k) - 1));
  }

  /** One more mask bit either keeps the masked value or adds the old mask's successor to it. */
  lemma MaskGrows(x: nat, k: nat)
    ensures BitAnd(x, Pow2(k + 1) - 1) == BitAnd(x, Pow2(k) - 1) ||
            BitAnd(x, Pow2(k + 1) - 1) == BitAnd(x, Pow2(k) - 1) + Pow2(k)
  {
    ShiftStep(x, k);
    ShiftAndMask(x, k);
    ShiftAndMask(x, k + 1);
    Carry(Pow2(k), ShiftRight(x, k + 1), ShiftRight(x, k));
  }

  lemma {:induction false} ShiftStep(x: nat, k: nat)
    ensures ShiftRight(x, k + 1) == ShiftRight(x, k) / 2
  {
    if k == 0 {
    } else {
      ShiftStep(x / 2, k - 1);
    }
  }

  lemma Carry(m: nat, q2: nat, q: nat)
    requires q2 == q / 2
    ensures (2 * m) * q2 == m * q || (2 * m) * q2 + m == m * q
  {
    assert (2 * m) * q2 == m * (2 * q2);
    assert q == 2 * q2 || q == 2 * q2 + 1;
  }
}

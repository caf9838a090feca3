/** Small facts about multiplication and division by positive numbers. */
module Arith {
  /** Slot `j` of `n` slots of width `w` ends inside the `n` slots. */
  lemma SlotFits(w: nat, j: nat, n: nat)
    requires j < n
    ensures w * j + w <= w * n
  {
    var k: nat := n - j - 1;
    assert w * n == w * j + w + w * k;
    MulNonnegative(w, k);
  }

  lemma MulNonnegative(a: nat, b: nat)
    ensures a * b >= 0
  {
  }

  /** A nonzero multiple of `m` is at least `m` away from zero. */
  lemma MulAwayFromZero(m: nat, d: int)
    ensures d >= 1 ==> m * d >= m
    ensures d <= -1 ==> m * d <= 0 - m
  {
    assert m * d - m == m * (d - 1);
    assert m * d + m == m * (d + 1);
  }

  /** Integer division keeps the order of its dividends. */
  lemma DivMonotone(x: nat, y: nat, d: nat)
    requires x <= y && d > 0
    ensures x / d <= y / d
  {
    var q1, q2 := x / d, y / d;
    assert d * (q1 - q2) == (x - x % d) - (y - y % d);
    MulAwayFromZero(d, q1 - q2);
  }

  /** Division and remainder undo a digit placement in base `m`. */
  lemma DigitSplit(a: nat, q: nat, m: nat)
    requires a < m
    ensures (a + m * q) / m == q && (a + m * q) % m == a
  {
    var x := a + m * q;
    var q', r' := x / m, x % m;
    assert m * (q' - q) == a - r';
    MulAwayFromZero(m, q' - q);
  }
}

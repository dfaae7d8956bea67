/** Go's integer arithmetic where it differs from Dafny's. */
module GoArith {

  function Abs(n: int): nat
  {
    if n < 0 then -n else n
  }

  /** Go's quotient `n / d` for a positive divisor: it truncates toward zero,
      whereas Dafny's `/` is Euclidean (rounds down for negative `n`). */
  function Quo(n: int, d: int): (q: int)
    requires d > 0
    ensures n >= 0 ==> 0 <= q <= n
    ensures n <= 0 ==> n <= q <= 0
  {
    var m := if n >= 0 then n else -n;
    MulMonotone(m, 1, d);
    DivAtMost(m, d, m);
    DivAtLeast(m, d, 0);
    if n >= 0 then m / d else -(m / d)
  }

  /** The quotient keeps the sign of `n` and is the largest multiple of `d`
      not above `n` in absolute value. */
  lemma QuoBounds(n: int, d: int)
    requires d > 0
    ensures Abs(n) - d < Abs(Quo(n, d)) * d <= Abs(n)
    ensures n >= 0 ==> Quo(n, d) >= 0
    ensures n <= 0 ==> Quo(n, d) <= 0
  {
  }

  lemma MulMonotone(d: int, x: int, y: int)
    requires d >= 0 && x <= y
    ensures d * x <= d * y
  {
    assert d * y - d * x == d * (y - x);
  }

  /** `a / d` is at least `m` when `a` is at least `d * m`. */
  lemma DivAtLeast(a: int, d: int, m: int)
    requires d > 0 && a >= d * m
    ensures a / d >= m
  {
    if a / d < m {
      MulMonotone(d, a / d, m - 1);
    }
  }

  /** `a / d` is below `m` when `a` is below `d * m`. */
  lemma DivBelow(a: int, d: int, m: int)
    requires d > 0 && a < d * m
    ensures a / d < m
  {
    if a / d >= m {
      MulMonotone(d, m, a / d);
    }
  }

  /** `a / d` is at most `m` when `a` is at most `d * m`. */
  lemma DivAtMost(a: int, d: int, m: int)
    requires d > 0 && a <= d * m
    ensures a / d <= m
  {
    DivBelow(a, d, m + 1);
  }

  /** Euclidean division leaves a remainder in `[0, d)`. */
  lemma DivBounds(a: int, d: int)
    requires d > 0
    ensures d * (a / d) <= a < d * (a / d) + d
  {
  }
}

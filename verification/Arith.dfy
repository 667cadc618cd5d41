/**
 * Division of non-negative integers, with the non-linear facts the amount
 * proofs rest on. JavaScript bigint division agrees with it on these operands.
 */
module Arith {

  function Div(n: nat, m: nat): (q: nat)
    requires m > 0
  {
    n / m
  }

  function Mod(n: nat, m: nat): (r: nat)
    requires m > 0
    ensures r < m
  {
    n % m
  }

  function Mul(a: nat, b: nat): (p: nat) { a * b }

  lemma Divide(n: nat, m: nat)
    requires m > 0
    ensures n == m * Div(n, m) + Mod(n, m)
  {}

  lemma MulAtLeast(m: int, x: int)
    requires m > 0 && x >= 1
    ensures m * x >= m
  {}

  lemma DivisionUnique(m: int, q: int, r: int, q': int, r': int)
    requires m > 0 && m * q + r == m * q' + r' && 0 <= r < m && 0 <= r' < m
    ensures q == q' && r == r'
  {
    assert m * (q - q') == m * q - m * q';
    if q > q' {
      MulAtLeast(m, q - q');
    } else if q < q' {
      MulAtLeast(m, q' - q);
    }
  }

  /** Quotient and remainder are determined by the division equation. */
  lemma DivModAre(n: nat, m: nat, q: nat, r: nat)
    requires n == m * q + r && r < m
    ensures Div(n, m) == q && Mod(n, m) == r
  {
    Divide(n, m);
    DivisionUnique(m, q, r, Div(n, m), Mod(n, m));
  }

  lemma MulMonotone(a: int, b: int, p: int)
    requires a <= b && p > 0
    ensures a * p <= b * p && (a < b ==> a * p < b * p)
  {}

  /** Scaling dividend and divisor by p keeps the quotient and scales the remainder. */
  lemma DivScaled(x: nat, d: nat, p: nat)
    requires d > 0 && p > 0
    ensures d * p > 0 && Div(Mul(x, p), d * p) == Div(x, d) && Mod(Mul(x, p), d * p) == Mul(Mod(x, d), p)
  {
    var q, r := Div(x, d), Mod(x, d);
    Divide(x, d);
    MulMonotone(r, d, p);
    MulMonotone(0, d, p);
    assert Mul(x, p) == (d * p) * q + Mul(r, p) by {
      assert (d * q + r) * p == d * q * p + r * p;
      assert d * q * p == (d * p) * q;
    }
    DivModAre(Mul(x, p), d * p, q, Mul(r, p));
  }

  /** A half-open interval of width 2d around 2a + d survives scaling by p. */
  lemma IntervalScaled(a: int, d: int, p: int, r: int)
    requires p > 0 && d * (2 * r) <= 2 * a + d < d * (2 * r) + 2 * d
    ensures (d * p) * (2 * r) <= 2 * (a * p) + d * p < (d * p) * (2 * r) + 2 * (d * p)
  {}
}

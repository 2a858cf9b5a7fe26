/**
 * Facts about multiplication, division and remainder that the solver does
 * not find on its own, each stated once and used by the digit arithmetic
 * of the sorting and formatting code.
 */
module Arith {

  /** A positive multiple of `m` is at least `m`. */
  lemma MulAtLeast(x: int, m: int)
    requires 1 <= x && 0 <= m
    ensures x * m >= m
  {
  }

  /** Multiplying by a non-negative `c` keeps `a <= b`. */
  lemma MulMono(a: int, b: int, c: int)
    requires a <= b && 0 <= c
    ensures a * c <= b * c
  {
    if c > 0 && a < b {
      MulAtLeast(b - a, c);
      assert (b - a) * c == b * c - a * c;
    }
  }

  /**
   * Division with remainder is unique: when `z` is `a` multiples of `m`
   * plus `b`, for `0 <= b < m`, the quotient is `a` and the remainder `b`.
   */
  lemma ModOfMultiple(z: int, a: int, m: int, b: int)
    requires 0 < m && 0 <= b < m && z == a * m + b
    ensures z / m == a && z % m == b
  {
    var k := z / m;
    var r := z % m;
    assert z == k * m + r && 0 <= r < m;
    assert (a - k) * m == r - b;
    if a - k >= 1 {
      MulAtLeast(a - k, m);
    } else if k - a >= 1 {
      MulAtLeast(k - a, m);
    }
  }

  /** Multiplication distributes over a sum and regroups. */
  lemma Distrib(a: int, y: int, r: int, x: int)
    ensures (a * y + r) * x == a * (x * y) + r * x
  {
  }

  /**
   * Two divisions in a row: when `p` is `q x + r1` and `q` is `a y + r2`,
   * with both remainders in range, `p` divided by `x y` is `a` with the
   * remainder `r2 x + r1`.
   */
  lemma TwoStep(p: int, x: int, y: int, q: int, r1: int, a: int, r2: int)
    requires 0 < x && 0 < y
    requires p == q * x + r1 && 0 <= r1 < x
    requires q == a * y + r2 && 0 <= r2 < y
    ensures p / (x * y) == a && p % (x * y) == r2 * x + r1
  {
    Distrib(a, y, r2, x);
    MulMono(r2, y - 1, x);
    Distrib(1, y, -1, x);
    ModOfMultiple(p, a, x * y, r2 * x + r1);
  }

  /** Dividing by `x` and then by `y` is dividing by `x y`. */
  lemma DivDiv(p: nat, x: nat, y: nat)
    requires 0 < x && 0 < y
    ensures p / (x * y) == (p / x) / y
  {
    var q := p / x;
    TwoStep(p, x, y, q, p % x, q / y, q % y);
  }

  /** The remainder modulo `b x` from the remainder of `p / b` modulo `x` and that of `p` modulo `b`. */
  lemma ModMod(p: nat, b: nat, x: nat)
    requires 0 < b && 0 < x
    ensures p % (b * x) == ((p / b) % x) * b + p % b
  {
    var q := p / b;
    TwoStep(p, b, x, q, p % b, q / x, q % x);
  }
}

/** The few facts of nonlinear arithmetic the other modules need. */
module Arithmetic {

  lemma MulNonneg(x: int, y: int)
    requires x >= 0 && y >= 0
    ensures x * y >= 0
  {}

  lemma Distribute(x: int, y: int, a: int)
    ensures (x + y) * a == x * a + y * a
    ensures (x - y) * a == x * a - y * a
  {}

  lemma MulAtLeast(k: int, a: int)
    requires k >= 1 && a >= 0
    ensures k * a >= a
  {
    MulNonneg(k - 1, a);
    Distribute(k, 1, a);
  }

  lemma MulMono(i: int, j: int, a: int)
    requires i <= j && a >= 0
    ensures i * a <= j * a
  {
    MulNonneg(j - i, a);
    Distribute(j, i, a);
  }

  lemma MulAssoc(x: int, y: int, z: int)
    ensures x * y * z == x * (y * z)
  {}

  lemma MulDouble(x: int, y: int)
    ensures x * (2 * y) == 2 * (x * y)
  {}

  lemma DivideBack(x: int, a: int)
    requires x >= 0 && a > 0
    ensures x == x / a * a + x % a && 0 <= x % a < a && 0 <= x / a
  {
    DivNonneg(x, a);
  }

  lemma QuotientBelow(q: int, r: int, s: int, a: int)
    requires a > 0 && r >= 0 && q * a + r < s * a
    ensures q < s
  {
    if q >= s {
      MulMono(s, q, a);
    }
  }

  lemma DivNonneg(x: int, a: int)
    requires x >= 0 && a > 0
    ensures x / a >= 0
  {
    var q := x / a;
    assert x == q * a + x % a;
    if q <= -1 {
      MulMono(q, -1, a);
    }
  }

  /** Quotient and remainder are determined by their defining equation. */
  lemma DivisionIsUnique(x: int, q: int, r: int, a: int)
    requires a > 0 && x == q * a + r && 0 <= r < a
    ensures x / a == q && x % a == r
  {
    var d := x / a - q;
    Distribute(x / a, q, a);
    assert d * a == r - x % a;
    if d >= 1 {
      MulAtLeast(d, a);
    } else if d <= -1 {
      MulAtLeast(-d, a);
    }
  }

  /** Equal remainders: the two differ by a multiple of `m`. */
  lemma ModShift(a: int, k: int, m: int)
    requires m > 0
    ensures (a + k * m) % m == a % m
  {
    assert a + k * m == (a / m + k) * m + a % m by {
      Distribute(a / m, k, m);
    }
    DivisionIsUnique(a + k * m, a / m + k, a % m, m);
  }

  lemma ModAdd(a: int, b: int, m: int)
    requires m > 0
    ensures (a % m + b) % m == (a + b) % m
  {
    ModShift(a % m + b, a / m, m);
    assert a + b == a % m + b + a / m * m;
  }

  lemma ModMul(a: int, b: int, m: int)
    requires m > 0
    ensures a % m * b % m == a * b % m
  {
    var q, r := a / m, a % m;
    assert a == q * m + r;
    Distribute(q * m, r, b);
    assert q * m * b == q * b * m;
    ModShift(r * b, q * b, m);
  }
}

/** Rounding to nearest with ties to even (section 4.3.1 of IEEE 754-2019), for any format
    whose non-negative encodings 0, 1, .., top have increasing values `value(0) < value(1) < ..`.
    The encoding `top` stands for infinity and counts as the next value after the largest
    finite one, which is what that section's overflow rule amounts to. */
module Rounding {
  import opened Arithmetic
  import opened Words

  function Distance(a: int, b: int): nat {
    if a <= b then b - a else a - b
  }

  ghost predicate Increasing(value: nat -> nat, top: nat) {
    forall i: nat, j: nat :: i < j <= top ==> value(i) < value(j)
  }

  /** `r` beats every competing encoding: it is nearer to `x`, or as near and even. */
  ghost predicate NearestEven(x: nat, r: nat, value: nat -> nat, top: nat) {
    && r <= top
    && forall c: nat :: c <= top && c != r ==>
         Distance(x, value(r)) < Distance(x, value(c))
         || (Distance(x, value(r)) == Distance(x, value(c)) && r % 2 == 0)
  }

  lemma {:induction false} StepsIncrease(value: nat -> nat, top: nat, i: nat, j: nat)
    requires forall k: nat :: k < top ==> value(k) < value(k + 1)
    requires i < j <= top
    ensures value(i) < value(j)
    decreases j - i
  {
    assert value(j - 1) < value(j - 1 + 1);
    if i == j - 1 {
    } else {
      StepsIncrease(value, top, i, j - 1);
    }
  }

  /** Between two neighbours, the nearer one, or the even one of two equally near, beats all. */
  lemma BracketRounds(x: nat, lo: nat, r: nat, value: nat -> nat, top: nat)
    requires Increasing(value, top) && lo < top && lo <= r <= lo + 1
    requires value(lo) <= x <= value(lo + 1)
    requires r == lo ==> 2 * x < value(lo) + value(lo + 1) || (2 * x == value(lo) + value(lo + 1) && r % 2 == 0)
    requires r == lo + 1 ==> 2 * x > value(lo) + value(lo + 1) || (2 * x == value(lo) + value(lo + 1) && r % 2 == 0)
    ensures NearestEven(x, r, value, top)
  {
    forall c: nat | c <= top && c != r
      ensures Distance(x, value(r)) < Distance(x, value(c))
              || (Distance(x, value(r)) == Distance(x, value(c)) && r % 2 == 0)
    {
      if c < lo {
        assert value(c) < value(lo);
      } else if c > lo + 1 {
        assert value(lo + 1) < value(c);
      }
    }
  }

  /** From the top value on, rounding overflows. */
  lemma OverflowRounds(x: nat, value: nat -> nat, top: nat)
    requires Increasing(value, top) && value(top) <= x
    ensures NearestEven(x, top, value, top)
  {
    forall c: nat | c < top ensures value(c) < value(top) {
    }
  }

  /** Two even encodings equally near to a number have a nearer one between them. */
  lemma TiesAreApart(x: nat, r: nat, q: nat, value: nat -> nat, top: nat)
    requires Increasing(value, top) && r < q <= top
    requires Distance(x, value(r)) == Distance(x, value(q))
    requires r % 2 == 0 && q % 2 == 0
    ensures Distance(x, value(r + 1)) < Distance(x, value(r))
  {
    assert r + 1 < q;
    assert value(r) < value(r + 1) < value(q);
  }

  /** No number has two roundings. */
  lemma RoundingIsUnique(x: nat, r: nat, q: nat, value: nat -> nat, top: nat)
    requires Increasing(value, top)
    requires NearestEven(x, r, value, top) && NearestEven(x, q, value, top)
    ensures r == q
  {
    if r < q {
      TiesAreApart(x, r, q, value, top);
    } else if q < r {
      TiesAreApart(x, q, r, value, top);
    }
  }

  /** A larger number never rounds to a smaller one. */
  lemma RoundingIsMonotone(x: nat, y: nat, r: nat, q: nat, value: nat -> nat, top: nat)
    requires Increasing(value, top) && x <= y
    requires NearestEven(x, r, value, top) && NearestEven(y, q, value, top)
    ensures r <= q
  {
    if q < r {
      assert value(q) < value(r);
      assert Distance(x, value(r)) <= Distance(x, value(q));
      assert Distance(y, value(q)) <= Distance(y, value(r));
      assert x == y;
      RoundingIsUnique(x, r, q, value, top);
    }
  }

  /** Representable numbers round to themselves. */
  lemma RepresentableRounds(r: nat, value: nat -> nat, top: nat)
    requires Increasing(value, top) && r <= top
    ensures NearestEven(value(r), r, value, top)
  {
    forall c: nat | c <= top && c != r ensures value(c) != value(r) {
      if c < r {
        assert value(c) < value(r);
      } else {
        assert value(r) < value(c);
      }
    }
  }

  // ---------------------------------------------------------------- the bias trick

  /** Adding half a unit less one, plus the last bit kept, before dropping `s` bits. */
  function RoundShift(n: nat, s: nat): nat
    requires s > 0
  {
    DivNonneg(n + (Pow2(s - 1) - 1) + n / Pow2(s) % 2, Pow2(s));
    (n + (Pow2(s - 1) - 1) + n / Pow2(s) % 2) / Pow2(s)
  }

  /** The bias trick keeps the quotient or takes the next one, by half, ties to even. */
  lemma BiasRounds(n: nat, q: nat, rest: nat, p: nat, h: nat)
    requires p == 2 * h && h > 0 && n == q * p + rest && rest < p
    ensures n / p == q
    ensures (n + (h - 1) + q % 2) / p == if rest < h || (rest == h && q % 2 == 0) then q else q + 1
  {
    DivisionIsUnique(n, q, rest, p);
    var sum := n + (h - 1) + q % 2;
    if rest < h || (rest == h && q % 2 == 0) {
      DivisionIsUnique(sum, q, rest + (h - 1) + q % 2, p);
    } else {
      Distribute(q, 1, p);
      DivisionIsUnique(sum, q + 1, rest + (h - 1) + q % 2 - p, p);
    }
  }

  lemma RoundShiftRounds(n: nat, s: nat, q: nat, rest: nat)
    requires s > 0 && n == q * Pow2(s) + rest && rest < Pow2(s)
    ensures RoundShift(n, s) == if rest < Pow2(s - 1) || (rest == Pow2(s - 1) && q % 2 == 0) then q else q + 1
  {
    BiasRounds(n, q, rest, Pow2(s), Pow2(s - 1));
  }

  /** Rounding on a grid: `x` is `q * p + rest` units of some size, the encodings `lo` and
      `lo + 1` sit at `q * p` and `(q + 1) * p` units, and `lo` has the parity of `q`. */
  lemma GridRounds(x: nat, n: nat, s: nat, q: nat, rest: nat, unit: nat, lo: nat, r: nat, value: nat -> nat, top: nat)
    requires Increasing(value, top) && lo < top && s > 0
    requires n == q * Pow2(s) + rest && rest < Pow2(s)
    requires x == n * unit && unit > 0
    requires value(lo) == q * Pow2(s) * unit && value(lo + 1) == (q + 1) * Pow2(s) * unit
    requires lo % 2 == q % 2
    requires r == lo + (RoundShift(n, s) - q)
    ensures NearestEven(x, r, value, top)
  {
    hide NearestEven, Increasing, RoundShift, Pow2;
    Pow2Doubles(s);
    RoundShiftRounds(n, s, q, rest);
    GridUnits(q, rest, Pow2(s - 1), Pow2(s), unit);
    Distribute(q * Pow2(s), rest, unit);
    BracketRounds(x, lo, r, value, top);
  }

  /** The same distances measured in units. */
  lemma GridUnits(q: nat, rest: nat, h: nat, p: nat, unit: nat)
    requires unit > 0 && p == 2 * h && rest < p
    ensures (q + 1) * p * unit == q * p * unit + 2 * (h * unit)
    ensures 0 <= rest * unit <= 2 * (h * unit)
    ensures rest < h ==> rest * unit < h * unit
    ensures rest > h ==> rest * unit > h * unit
  {
    Distribute(q, 1, p);
    Distribute(q * p, p, unit);
    MulAssoc(2, h, unit);
    MulNonneg(rest, unit);
    MulMono(rest, p, unit);
    if rest < h {
      MulMono(rest + 1, h, unit);
      Distribute(rest, 1, unit);
    } else if rest > h {
      MulMono(h + 1, rest, unit);
      Distribute(h, 1, unit);
    }
  }
}

/** The two 16-bit float types of src/data_type.h.

    A float is its bit pattern.  The magnitude of a pattern is its exact value in units of
    2^-149, the smallest positive binary32 number, so that every binary16, bfloat16 and
    binary32 magnitude is a natural number; infinity gets the value its pattern would have
    if it were the next finite number. */
module ReducedFloat {
  import opened Arithmetic
  import opened Words
  import opened Rounding

  const INF32: nat := 0x7F80_0000
  const INF16: nat := 0x7C00
  const NAN16: nat := 0x7E00
  const INFB: nat := 0x7F80

  function Sign32(f: nat): nat { f / 0x8000_0000 }
  function Rest32(f: nat): nat { f % 0x8000_0000 }
  function Sign16(h: nat): nat { h / 0x8000 }
  function Rest16(h: nat): nat { h % 0x8000 }

  predicate IsNan32(f: nat) { Rest32(f) > INF32 }
  predicate IsNan16(h: nat) { Rest16(h) > INF16 }
  predicate IsNanB(b: nat) { Rest16(b) > INFB }

  /** Value of a pattern with `size` fractions a binade, in units of its smallest number:
      section 3.4 of IEEE 754-2019 for the bits below the sign. */
  function Units(m: nat, size: nat): nat
    requires size > 0
  {
    DivNonneg(m, size);
    var e, fraction := m / size, m % size;
    if e == 0 then fraction else (size + fraction) * Pow2(e - 1)
  }

  function Magnitude32(m: nat): nat {
    Units(m, 0x80_0000)
  }

  /** The smallest binary16 number is 2^-24. */
  function Magnitude16(h: nat): nat {
    Units(h, 0x400) * Pow2(125)
  }

  /** A bfloat16 pattern is the upper half of a binary32 pattern. */
  function MagnitudeB(b: nat): nat {
    Magnitude32(b * 0x1_0000)
  }

  // ---------------------------------------------------------------- values are increasing

  /** Within a binade, up to and including its end, values are multiples of one unit. */
  lemma UnitsLinear(e: nat, q: nat, size: nat)
    requires e >= 1 && size > 0 && q <= 2 * size && (e == 1 || q >= size)
    ensures Units((e - 1) * size + q, size) == q * Pow2(e - 1)
  {
    var m := (e - 1) * size + q;
    Distribute(e, 1, size);
    if q < size {
      DivisionIsUnique(m, 0, q, size);
      assert Pow2(0) == 1;
    } else if q < 2 * size {
      DivisionIsUnique(m, e, q - size, size);
    } else {
      Distribute(e, 1, size);
      DivisionIsUnique(m, e + 1, 0, size);
      assert size * Pow2(e) == q * Pow2(e - 1);
    }
  }

  /** Binade and position of a pattern; subnormals share the first normal binade's unit. */
  function Binade(m: nat, size: nat): nat
    requires size > 0
  {
    DivNonneg(m, size);
    if m / size == 0 then 1 else m / size
  }

  lemma Magnitude32Steps(m: nat, step: nat)
    requires 0 < step && 0x80_0000 % step == 0 && m % step == 0 && step <= 0x80_0000
    requires m % 0x80_0000 + step <= 0x80_0000
    ensures Magnitude32(m) < Magnitude32(m + step)
  {
    var e := Binade(m, 0x80_0000);
    var q := m - (e - 1) * 0x80_0000;
    UnitsLinear(e, q, 0x80_0000);
    UnitsLinear(e, q + step, 0x80_0000);
    Distribute(q, step, Pow2(e - 1));
    MulAtLeast(step, Pow2(e - 1));
  }

  lemma Magnitude16Increases()
    ensures Increasing(Magnitude16, INF16)
  {
    forall h: nat | h < INF16 ensures Magnitude16(h) < Magnitude16(h + 1) {
      var e := Binade(h, 0x400);
      var q := h - (e - 1) * 0x400;
      UnitsLinear(e, q, 0x400);
      UnitsLinear(e, q + 1, 0x400);
      Distribute(q, 1, Pow2(e - 1));
      Distribute(q * Pow2(e - 1), Pow2(e - 1), Pow2(125));
      MulAtLeast(Pow2(e - 1), Pow2(125));
    }
    forall i: nat, j: nat | i < j <= INF16 ensures Magnitude16(i) < Magnitude16(j) {
      StepsIncrease(Magnitude16, INF16, i, j);
    }
  }

  lemma Magnitude32Increases()
    ensures Increasing(Magnitude32, INF32)
  {
    forall m: nat | m < INF32 ensures Magnitude32(m) < Magnitude32(m + 1) {
      Magnitude32Steps(m, 1);
    }
    forall i: nat, j: nat | i < j <= INF32 ensures Magnitude32(i) < Magnitude32(j) {
      StepsIncrease(Magnitude32, INF32, i, j);
    }
  }

  lemma MagnitudeBIncreases()
    ensures Increasing(MagnitudeB, INFB)
  {
    Magnitude32Increases();
    forall i: nat, j: nat | i < j <= INFB ensures MagnitudeB(i) < MagnitudeB(j) {
      assert i * 0x1_0000 < j * 0x1_0000 <= INF32;
    }
  }

  // ---------------------------------------------------------------- binary32 to binary16

  /** `Float16::FromFloat` on the bits below the sign. */
  function NarrowRest(m: nat): nat {
    var exponent := m / 0x80_0000 - 127;
    var fraction := m % 0x80_0000;
    if exponent >= 16 then (if exponent == 128 && fraction != 0 then NAN16 else INF16)
    else if exponent >= -14 then (exponent + 15) * 0x400 + (fraction + 0x0FFF + fraction / 0x2000 % 2) / 0x2000
    else if exponent >= -25 then RoundShift(0x80_0000 + fraction, -exponent - 1)
    else 0
  }

  function Narrow(f: nat): nat {
    Sign32(f) * 0x8000 + NarrowRest(Rest32(f))
  }

  /** A normal binary32 number is its 24-bit significand times a power of two. */
  lemma NormalMagnitude(m: nat)
    requires m / 0x80_0000 >= 1
    ensures Magnitude32(m) == (0x80_0000 + m % 0x80_0000) * Pow2(m / 0x80_0000 - 1)
  {}

  lemma NarrowOverflows(m: nat)
    requires m / 0x80_0000 >= 143 && m <= INF32
    ensures NearestEven(Magnitude32(m), INF16, Magnitude16, INF16) && NarrowRest(m) == INF16
  {
    hide NearestEven, Increasing, Units, Pow2;
    var e := m / 0x80_0000;
    Magnitude16Increases();
    NormalMagnitude(m);
    UnitsLinear(31, 0x400, 0x400);
    Pow2Values();
    Pow2Adds(10, 30);
    Pow2Adds(40, 125);
    Pow2Adds(23, 142);
    Pow2Mono(142, e - 1);
    MulMono(Pow2(142), Pow2(e - 1), 0x80_0000);
    MulMono(0x80_0000, 0x80_0000 + m % 0x80_0000, Pow2(e - 1));
    OverflowRounds(Magnitude32(m), Magnitude16, INF16);
  }

  /** In the normal range the code rounds the fraction alone; with the implicit bit that is
      the bias trick on the whole significand, and a carry runs into the exponent. */
  lemma NarrowRestNormal(m: nat)
    requires 113 <= m / 0x80_0000 <= 142
    ensures var n := 0x80_0000 + m % 0x80_0000;
      && 0x400 <= n / 0x2000 < 0x800
      && NarrowRest(m) == (m / 0x80_0000 - 113) * 0x400 + RoundShift(n, 13)
  {
    Pow2Values();
    assert Pow2(12) == 0x1000;
  }

  lemma NarrowRoundsNormal(m: nat)
    requires 113 <= m / 0x80_0000 <= 142
    ensures NearestEven(Magnitude32(m), NarrowRest(m), Magnitude16, INF16)
  {
    hide Units, Magnitude16, Magnitude32, NarrowRest, RoundShift, NearestEven, Increasing, Pow2;
    var e := m / 0x80_0000;
    var n := 0x80_0000 + m % 0x80_0000;
    var q, rest := n / 0x2000, n % 0x2000;
    Magnitude16Increases();
    NormalMagnitude(m);
    Pow2Values();
    NarrowRestNormal(m);
    NormalGrid(e, q);
    GridRounds(Magnitude32(m), n, 13, q, rest, Pow2(e - 1), (e - 113) * 0x400 + q, NarrowRest(m), Magnitude16, INF16);
  }

  /** Neighbouring normal binary16 numbers on the grid of binary32 units. */
  lemma NormalGrid(e: nat, q: nat)
    requires 113 <= e <= 142 && 0x400 <= q < 0x800
    ensures Magnitude16((e - 113) * 0x400 + q) == q * Pow2(13) * Pow2(e - 1)
    ensures Magnitude16((e - 113) * 0x400 + q + 1) == (q + 1) * Pow2(13) * Pow2(e - 1)
  {
    hide Units, Pow2;
    UnitsLinear(e - 112, q, 0x400);
    UnitsLinear(e - 112, q + 1, 0x400);
    Pow2Adds(e - 113, 125);
    Pow2Adds(13, e - 1);
    Regroup(q, Pow2(e - 113), Pow2(125), Pow2(13), Pow2(e - 1));
    Regroup(q + 1, Pow2(e - 113), Pow2(125), Pow2(13), Pow2(e - 1));
  }

  lemma Regroup(x: nat, a: nat, b: nat, c: nat, d: nat)
    requires a * b == c * d
    ensures x * a * b == x * c * d
  {
    assert x * a * b == x * (a * b);
    assert x * c * d == x * (c * d);
  }

  lemma NarrowRoundsSubnormal(m: nat)
    requires 102 <= m / 0x80_0000 <= 112
    ensures NearestEven(Magnitude32(m), NarrowRest(m), Magnitude16, INF16)
  {
    hide Units, Magnitude16, Magnitude32, RoundShift, NearestEven, Increasing, Pow2;
    var e := m / 0x80_0000;
    var n := 0x80_0000 + m % 0x80_0000;
    var q, rest := n / Pow2(126 - e), n % Pow2(126 - e);
    Magnitude16Increases();
    NormalMagnitude(m);
    SmallQuotient(n, e);
    SubnormalGrid(e, q);
    GridRounds(Magnitude32(m), n, 126 - e, q, rest, Pow2(e - 1), q, NarrowRest(m), Magnitude16, INF16);
  }

  lemma SmallQuotient(n: nat, e: nat)
    requires n < 0x100_0000 && 102 <= e <= 112
    ensures n == n / Pow2(126 - e) * Pow2(126 - e) + n % Pow2(126 - e)
    ensures n / Pow2(126 - e) < 0x400
  {
    hide Pow2;
    var p := Pow2(126 - e);
    Pow2Values();
    Pow2Adds(13, 1);
    Pow2Mono(14, 126 - e);
    DivNonneg(n, p);
    var q := n / p;
    if q >= 0x400 {
      MulMono(0x400, q, p);
    }
  }

  lemma SubnormalGrid(e: nat, q: nat)
    requires 102 <= e <= 112 && q < 0x400
    ensures Magnitude16(q) == q * Pow2(126 - e) * Pow2(e - 1)
    ensures Magnitude16(q + 1) == (q + 1) * Pow2(126 - e) * Pow2(e - 1)
  {
    UnitsLinear(1, q, 0x400);
    UnitsLinear(1, q + 1, 0x400);
    Pow2Adds(126 - e, e - 1);
    Regroup(q, 1, Pow2(125), Pow2(126 - e), Pow2(e - 1));
    Regroup(q + 1, 1, Pow2(125), Pow2(126 - e), Pow2(e - 1));
  }

  lemma NarrowUnderflows(m: nat)
    requires m / 0x80_0000 <= 101
    ensures NearestEven(Magnitude32(m), 0, Magnitude16, INF16) && NarrowRest(m) == 0
  {
    hide Units, Magnitude16, NearestEven, Increasing, Pow2;
    var e := Binade(m, 0x80_0000);
    var q := m - (e - 1) * 0x80_0000;
    Magnitude16Increases();
    UnitsLinear(e, q, 0x80_0000);
    BelowHalf(q, e);
    FirstSteps();
    BracketRounds(Magnitude32(m), 0, 0, Magnitude16, INF16);
  }

  lemma FirstSteps()
    ensures Magnitude16(0) == 0 && Magnitude16(1) == 2 * Pow2(124)
  {
    UnitsLinear(1, 0, 0x400);
    UnitsLinear(1, 1, 0x400);
  }

  lemma BelowHalf(q: nat, e: nat)
    requires q < 0x100_0000 && 1 <= e <= 101
    ensures q * Pow2(e - 1) < Pow2(124)
  {
    Pow2Values();
    Pow2Mono(e - 1, 100);
    Pow2Adds(24, 100);
    MulMono(q + 1, 0x100_0000, Pow2(e - 1));
    Distribute(q, 1, Pow2(e - 1));
    MulMono(Pow2(e - 1), Pow2(100), 0x100_0000);
  }

  /** Every binary32 number, zero, subnormal, normal or infinite, is rounded to the nearest
      binary16 value, ties to even, overflow to infinity included. */
  lemma NarrowRounds(m: nat)
    requires m <= INF32
    ensures NearestEven(Magnitude32(m), NarrowRest(m), Magnitude16, INF16)
  {
    if m / 0x80_0000 >= 143 {
      NarrowOverflows(m);
    } else if m / 0x80_0000 >= 113 {
      NarrowRoundsNormal(m);
    } else if m / 0x80_0000 >= 102 {
      NarrowRoundsSubnormal(m);
    } else {
      NarrowUnderflows(m);
    }
  }

  // ---------------------------------------------------------------- binary32 to bfloat16

  /** `BFloat16::FromFloat`, in 32-bit arithmetic. */
  function NarrowB(f: nat): nat {
    var bias := 0x7FFF + And(Shr(f, 16), 1);
    Shr((f + bias) % 0x1_0000_0000, 16) % 0x1_0000
  }

  /** What it computes, without the bit operations. */
  lemma NarrowBWords(f: nat)
    requires f < 0x1_0000_0000
    ensures NarrowB(f) == (f + 0x7FFF + f / 0x1_0000 % 2) % 0x1_0000_0000 / 0x1_0000
  {
    Pow2Values();
    AndLow(Shr(f, 16), 1);
  }

  /** On numbers the sum does not wrap and the sign is kept. */
  lemma NarrowBSplits(f: nat)
    requires f < 0x1_0000_0000 && !IsNan32(f)
    ensures f + 0x7FFF + f / 0x1_0000 % 2 < 0x1_0000_0000
    ensures NarrowB(f) == Sign32(f) * 0x8000 + RoundShift(Rest32(f), 16)
    ensures RoundShift(Rest32(f), 16) <= INFB
  {
    hide NarrowB, RoundShift;
    NarrowBWords(f);
    RoundShift16(Rest32(f));
    var m := Rest32(f);
    var q, rest := m / 0x1_0000, m % 0x1_0000;
    assert f / 0x1_0000 == Sign32(f) * 0x8000 + q;
    var sum := rest + 0x7FFF + q % 2;
    assert f + 0x7FFF + q % 2 == (Sign32(f) * 0x8000 + q) * 0x1_0000 + sum;
    assert q == 0x7F80 ==> rest == 0;
  }

  lemma RoundShift16(m: nat)
    ensures RoundShift(m, 16) == (m + 0x7FFF + m / 0x1_0000 % 2) / 0x1_0000
  {
    Pow2Values();
  }

  lemma NarrowBRounds(m: nat)
    requires m <= INF32
    ensures NearestEven(Magnitude32(m), RoundShift(m, 16), MagnitudeB, INFB)
  {
    hide Units, NearestEven, Increasing, Pow2;
    Pow2Values();
    MagnitudeBIncreases();
    if m == INF32 {
      assert RoundShift(m, 16) == INFB;
      assert Magnitude32(m) == MagnitudeB(INFB);
      RepresentableRounds(INFB, MagnitudeB, INFB);
    } else {
      var e := Binade(m, 0x80_0000);
      var n := m - (e - 1) * 0x80_0000;
      var q, rest := n / 0x1_0000, n % 0x1_0000;
      UnitsLinear(e, n, 0x80_0000);
      UnitsLinear(e, q * 0x1_0000, 0x80_0000);
      UnitsLinear(e, (q + 1) * 0x1_0000, 0x80_0000);
      RoundShiftShifts(m, n, e, q);
      GridRounds(Magnitude32(m), n, 16, q, rest, Pow2(e - 1), m / 0x1_0000, RoundShift(m, 16), MagnitudeB, INFB);
    }
  }

  lemma RoundShiftShifts(m: nat, n: nat, e: nat, q: nat)
    requires e >= 1 && m == n + (e - 1) * 0x80_0000 && q == n / 0x1_0000
    ensures m / 0x1_0000 == (e - 1) * 0x80 + q && m / 0x1_0000 % 2 == q % 2
    ensures RoundShift(m, 16) == m / 0x1_0000 + (RoundShift(n, 16) - q)
  {
    Pow2Values();
  }
}

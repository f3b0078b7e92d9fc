/** The conversions as the code performs them, and what they promise together. */
module FloatConversions {
  import opened Arithmetic
  import opened Words
  import opened Rounding
  import opened ReducedFloat

  // ---------------------------------------------------------------- binary16 to binary32

  /** How often the normalising loop of `Float16::ToFloat` doubles a subnormal fraction. */
  function Doublings(mantissa: nat): (k: nat)
    requires 0 < mantissa < 0x800
    ensures 0x400 <= mantissa * Pow2(k) < 0x800
    decreases 0x800 - mantissa
  {
    if mantissa >= 0x400 then (assert Pow2(0) == 1; 0)
    else
      var k := Doublings(mantissa * 2);
      assert mantissa * Pow2(k + 1) == mantissa * 2 * Pow2(k);
      k + 1
  }

  lemma DoublingsBound(mantissa: nat)
    requires 0 < mantissa < 0x800
    ensures Doublings(mantissa) <= 10
  {
    var k := Doublings(mantissa);
    if k >= 11 {
      Pow2Values();
      Pow2Mono(11, k);
      MulMono(1, mantissa, Pow2(k));
    }
  }

  /** `Float16::ToFloat` on the bits below the sign. */
  function WidenRest(h: nat): nat
    requires h < 0x8000
  {
    var e, fraction := h / 0x400, h % 0x400;
    if e == 31 then INF32 + fraction * 0x2000
    else if e > 0 then (e + 112) * 0x80_0000 + fraction * 0x2000
    else if fraction == 0 then 0
    else
      var k := Doublings(fraction);
      DoublingsBound(fraction);
      (113 - k) * 0x80_0000 + (fraction * Pow2(k) - 0x400) * 0x2000
  }

  function Widen(h: nat): nat
    requires h < 0x1_0000
  {
    Sign16(h) * 0x8000_0000 + WidenRest(Rest16(h))
  }

  /** Widening loses nothing. */
  lemma WidenIsExact(h: nat)
    requires h < INF16
    ensures Magnitude32(WidenRest(h)) == Magnitude16(h) && WidenRest(h) < INF32
  {
    var e, fraction := h / 0x400, h % 0x400;
    if e > 0 {
      WidenNormal(h);
    } else if fraction > 0 {
      WidenSubnormal(h);
    }
  }

  lemma WidenNormal(h: nat)
    requires 0x400 <= h < INF16
    ensures Magnitude32(WidenRest(h)) == Magnitude16(h) && WidenRest(h) < INF32
  {
    hide Units, Pow2;
    var e, q := h / 0x400, 0x400 + h % 0x400;
    UnitsLinear(e, q, 0x400);
    UnitsLinear(e + 112, q * 0x2000, 0x80_0000);
    Pow2Values();
    Pow2Adds(13, e + 111);
    Pow2Adds(e - 1, 125);
    Regroup(q, Pow2(e - 1), Pow2(125), Pow2(13), Pow2(e + 111));
  }

  lemma WidenSubnormal(h: nat)
    requires 0 < h < 0x400
    ensures Magnitude32(WidenRest(h)) == Magnitude16(h) && WidenRest(h) < INF32
  {
    hide Units, Pow2;
    var k := Doublings(h);
    DoublingsBound(h);
    var q := h * Pow2(k);
    UnitsLinear(1, h, 0x400);
    UnitsLinear(113 - k, q * 0x2000, 0x80_0000);
    SubnormalPowers(h, k);
  }

  lemma SubnormalPowers(h: nat, k: nat)
    requires k <= 10
    ensures h * Pow2(k) * 0x2000 * Pow2(112 - k) == h * Pow2(0) * Pow2(125)
  {
    hide Pow2;
    Pow2Values();
    Pow2Adds(13, 112 - k);
    Pow2Adds(k, 125 - k);
    Pow2Adds(0, 125);
    var a, b, c := Pow2(k), Pow2(112 - k), Pow2(125 - k);
    assert 0x2000 * b == c;
    assert h * a * 0x2000 * b == h * a * c by { Regroup(h * a, 0x2000, b, 1, c); }
    Regroup(h, a, c, Pow2(0), Pow2(125));
  }

  lemma RestRoundTrip(h: nat)
    requires h <= INF16
    ensures WidenRest(h) <= INF32 && NarrowRest(WidenRest(h)) == h
  {
    hide Units, NearestEven, Increasing, NarrowRest, Doublings;
    if h < INF16 {
      WidenIsExact(h);
      Magnitude16Increases();
      NarrowRounds(WidenRest(h));
      RepresentableRounds(h, Magnitude16, INF16);
      RoundingIsUnique(Magnitude16(h), h, NarrowRest(WidenRest(h)), Magnitude16, INF16);
    } else {
      NarrowInfinity();
    }
  }

  lemma NarrowInfinity()
    ensures NarrowRest(INF32) == INF16
  {}

  /** Taking a pattern apart into sign and rest. */
  lemma Halves32(sign: nat, rest: nat)
    requires sign <= 1 && rest < 0x8000_0000
    ensures sign * 0x8000_0000 + rest < 0x1_0000_0000
    ensures Sign32(sign * 0x8000_0000 + rest) == sign && Rest32(sign * 0x8000_0000 + rest) == rest
  {}

  lemma Halves16(sign: nat, rest: nat)
    requires sign <= 1 && rest < 0x8000
    ensures sign * 0x8000 + rest < 0x1_0000
    ensures Sign16(sign * 0x8000 + rest) == sign && Rest16(sign * 0x8000 + rest) == rest
  {}

  /** Every binary16 number survives the way to binary32 and back. */
  lemma WidenThenNarrow(h: nat)
    requires h < 0x1_0000 && !IsNan16(h)
    ensures Widen(h) < 0x1_0000_0000 && !IsNan32(Widen(h)) && Narrow(Widen(h)) == h
  {
    hide WidenRest, NarrowRest;
    RestRoundTrip(Rest16(h));
    Halves32(Sign16(h), WidenRest(Rest16(h)));
  }

  /** Narrowing is idempotent through binary32, NaN included. */
  lemma NarrowIsIdempotent(f: nat)
    requires f < 0x1_0000_0000
    ensures Narrow(f) < 0x1_0000
    ensures Widen(Narrow(f)) < 0x1_0000_0000 && Narrow(Widen(Narrow(f))) == Narrow(f)
    ensures IsNan16(Narrow(f)) <==> IsNan32(f)
  {
    hide WidenRest, NarrowRest, NearestEven;
    if IsNan32(f) {
      NanRoundTrip(Rest32(f));
      Halves16(Sign32(f), NAN16);
      Halves32(Sign32(f), WidenRest(NAN16));
    } else {
      NarrowRounds(Rest32(f));
      NearestIsBounded(Magnitude32(Rest32(f)), NarrowRest(Rest32(f)));
      Halves16(Sign32(f), NarrowRest(Rest32(f)));
      WidenThenNarrow(Narrow(f));
    }
  }

  lemma NanRoundTrip(m: nat)
    requires INF32 < m < 0x8000_0000
    ensures NarrowRest(m) == NAN16
    ensures WidenRest(NAN16) == INF32 + 0x40_0000 && NarrowRest(WidenRest(NAN16)) == NAN16
  {}

  /** Every NaN becomes the quiet NaN of its sign. */
  lemma Float16NanFate(f: nat)
    requires f < 0x1_0000_0000 && IsNan32(f)
    ensures Narrow(f) == Sign32(f) * 0x8000 + 0x7E00
  {
    hide NarrowRest, WidenRest;
    NanRoundTrip(Rest32(f));
  }

  /** Widening an infinity gives the infinity of its sign; widening a NaN keeps the sign and all
      bits of the payload, in front. */
  lemma WidenKeepsPayload(h: nat)
    requires h < 0x1_0000 && Rest16(h) >= INF16
    ensures Widen(h) < 0x1_0000_0000 && Sign32(Widen(h)) == Sign16(h)
    ensures Rest32(Widen(h)) >= INF32 && Rest32(Widen(h)) - INF32 == (Rest16(h) - INF16) * 0x2000
    ensures IsNan32(Widen(h)) <==> IsNan16(h)
  {
    assert WidenRest(Rest16(h)) == INF32 + (Rest16(h) - INF16) * 0x2000;
    Halves32(Sign16(h), WidenRest(Rest16(h)));
  }

  lemma NearestIsBounded(x: nat, r: nat)
    requires NearestEven(x, r, Magnitude16, INF16)
    ensures r <= INF16
  {}

  // ---------------------------------------------------------------- signed statements

  function Signed(sign: nat, magnitude: nat): int {
    var m: int := magnitude;
    if sign == 0 then m else -m
  }

  function Value32(f: nat): int { Signed(Sign32(f), Magnitude32(Rest32(f))) }
  function Value16(h: nat): int { Signed(Sign16(h), Magnitude16(Rest16(h))) }
  function ValueB(b: nat): int { Signed(Sign16(b), MagnitudeB(Rest16(b))) }

  /** `Float16::FromFloat` rounds correctly and keeps the sign, of zero too. */
  lemma Float16IsCorrectlyRounded(f: nat)
    requires f < 0x1_0000_0000 && !IsNan32(f)
    ensures Narrow(f) < 0x1_0000 && Sign16(Narrow(f)) == Sign32(f)
    ensures NearestEven(Magnitude32(Rest32(f)), Rest16(Narrow(f)), Magnitude16, INF16)
  {
    NarrowRounds(Rest32(f));
  }

  lemma BFloat16IsCorrectlyRounded(f: nat)
    requires f < 0x1_0000_0000 && !IsNan32(f)
    ensures NarrowB(f) < 0x1_0000 && Sign16(NarrowB(f)) == Sign32(f)
    ensures NearestEven(Magnitude32(Rest32(f)), Rest16(NarrowB(f)), MagnitudeB, INFB)
  {
    hide NearestEven, NarrowB, RoundShift;
    NarrowBSplits(f);
    NarrowBRounds(Rest32(f));
  }

  /** Both conversions are monotone on numbers, across zero and every branch. */
  lemma SignedMonotone(x: nat, y: nat, r: nat, q: nat, value: nat -> nat, top: nat, s: nat, t: nat)
    requires Increasing(value, top)
    requires NearestEven(x, r, value, top) && NearestEven(y, q, value, top)
    requires Signed(s, x) <= Signed(t, y) && value(0) == 0
    ensures Signed(s, value(r)) <= Signed(t, value(q))
  {
    if s == 0 && t == 0 {
      RoundingIsMonotone(x, y, r, q, value, top);
      ValuesInOrder(r, q, value, top);
    } else if s != 0 && t != 0 {
      RoundingIsMonotone(y, x, q, r, value, top);
      ValuesInOrder(q, r, value, top);
    } else if s == 0 {
      assert x == 0 && y == 0;
      RepresentableRounds(0, value, top);
      RoundingIsUnique(0, r, 0, value, top);
      RoundingIsUnique(0, q, 0, value, top);
    }
  }

  lemma ValuesInOrder(r: nat, q: nat, value: nat -> nat, top: nat)
    requires Increasing(value, top) && r <= q <= top
    ensures value(r) <= value(q)
  {
    if r < q {
      assert value(r) < value(q);
    }
  }

  lemma Float16IsMonotone(f: nat, g: nat)
    requires f < 0x1_0000_0000 && g < 0x1_0000_0000 && !IsNan32(f) && !IsNan32(g)
    requires Value32(f) <= Value32(g)
    ensures Value16(Narrow(f)) <= Value16(Narrow(g))
  {
    hide NearestEven, Increasing, Narrow, Units;
    Float16IsCorrectlyRounded(f);
    Float16IsCorrectlyRounded(g);
    Magnitude16Increases();
    FirstSteps();
    SignedMonotone(Magnitude32(Rest32(f)), Magnitude32(Rest32(g)), Rest16(Narrow(f)), Rest16(Narrow(g)),
                   Magnitude16, INF16, Sign32(f), Sign32(g));
  }

  lemma BFloat16IsMonotone(f: nat, g: nat)
    requires f < 0x1_0000_0000 && g < 0x1_0000_0000 && !IsNan32(f) && !IsNan32(g)
    requires Value32(f) <= Value32(g)
    ensures ValueB(NarrowB(f)) <= ValueB(NarrowB(g))
  {
    hide NearestEven, Increasing, NarrowB;
    BFloat16IsCorrectlyRounded(f);
    BFloat16IsCorrectlyRounded(g);
    MagnitudeBIncreases();
    assert MagnitudeB(0) == 0;
    SignedMonotone(Magnitude32(Rest32(f)), Magnitude32(Rest32(g)), Rest16(NarrowB(f)), Rest16(NarrowB(g)),
                   MagnitudeB, INFB, Sign32(f), Sign32(g));
  }

  // ---------------------------------------------------------------- range limits

  /** Infinity starts half a unit above the largest finite number, 65504; zero ends at half
      the smallest positive one, 2^-25, which is a tie. */
  lemma Float16Limits(m: nat)
    requires m <= INF32
    ensures NarrowRest(m) == INF16 <==> m >= 0x477F_F000
    ensures NarrowRest(m) == 0 <==> m <= 0x3300_0000
  {
    hide NarrowRest, NearestEven;
    LimitPoints();
    if m >= 0x477F_F000 {
      RestMonotone(0x477F_F000, m);
    } else {
      RestMonotone(m, 0x477F_EFFF);
    }
    if m <= 0x3300_0000 {
      RestMonotone(m, 0x3300_0000);
    } else {
      RestMonotone(0x3300_0001, m);
    }
  }

  lemma LimitPoints()
    ensures NarrowRest(0x477F_F000) == INF16 && NarrowRest(0x477F_EFFF) == 0x7BFF
    ensures NarrowRest(0x3300_0000) == 0 && NarrowRest(0x3300_0001) == 1
  {
    Pow2Values();
  }

  lemma RestMonotone(m: nat, n: nat)
    requires m <= n <= INF32
    ensures NarrowRest(m) <= NarrowRest(n) <= INF16
  {
    hide NarrowRest, NearestEven;
    NarrowRounds(m);
    NarrowRounds(n);
    NearestIsBounded(Magnitude32(n), NarrowRest(n));
    Magnitude16Increases();
    Magnitude32Increases();
    ValuesInOrder(m, n, Magnitude32, INF32);
    RoundingIsMonotone(Magnitude32(m), Magnitude32(n), NarrowRest(m), NarrowRest(n), Magnitude16, INF16);
  }

  // ---------------------------------------------------------------- bfloat16

  /** `BFloat16::ToFloat`. */
  function WidenB(b: nat): nat {
    Shl(b, 16)
  }

  lemma WidenBIsExact(b: nat)
    requires b < 0x1_0000
    ensures WidenB(b) == b * 0x1_0000
    ensures !IsNanB(b) ==> !IsNan32(WidenB(b)) && Value32(WidenB(b)) == ValueB(b)
  {
    Pow2Values();
    assert b * 0x1_0000 == Sign16(b) * 0x8000_0000 + Rest16(b) * 0x1_0000;
    Halves32(Sign16(b), Rest16(b) * 0x1_0000);
  }

  /** Every bfloat16 number survives the way to binary32 and back. */
  lemma WidenThenNarrowB(b: nat)
    requires b < 0x1_0000 && !IsNanB(b)
    ensures NarrowB(WidenB(b)) == b
  {
    hide WidenB, NarrowB;
    WidenBIsExact(b);
    NarrowBWords(b * 0x1_0000);
  }

  /** `BFloat16::FromFloat` has no case for NaN: a NaN stays one exactly when its payload is
      neither so small that it rounds to infinity nor so large that the carry runs through the
      sign bit, which leaves a zero of the other sign.  One that stays keeps its sign, and its
      payload is cut as a fraction would be. */
  lemma BFloat16NanFate(f: nat)
    requires f < 0x1_0000_0000 && IsNan32(f)
    ensures IsNanB(NarrowB(f)) <==> 0x7F80_8000 < Rest32(f) < 0x7FFF_8000
    ensures Rest32(f) <= 0x7F80_8000 ==> NarrowB(f) == Sign32(f) * 0x8000 + INFB
    ensures Rest32(f) >= 0x7FFF_8000 ==> NarrowB(f) == (1 - Sign32(f)) * 0x8000
    ensures IsNanB(NarrowB(f)) ==> Sign16(NarrowB(f)) == Sign32(f) && CutToEven(Rest16(NarrowB(f)), Rest32(f))
  {
    hide NarrowB;
    NarrowBWords(f);
    var m := Rest32(f);
    var q, rest := m / 0x1_0000, m % 0x1_0000;
    var whole := Sign32(f) * 0x8000 + q;
    assert f == whole * 0x1_0000 + rest;
    CarryOut(f, whole, rest);
    NanCases(Sign32(f), q, rest, NarrowB(f));
    if 0x7F80_8000 < m < 0x7FFF_8000 {
      NanStays(Sign32(f), q, rest, NarrowB(f));
    }
  }

  /** The upper half `high` is the one nearest to the whole pattern, the even one of two. */
  predicate CutToEven(high: nat, whole: nat) {
    && high * 0x1_0000 <= whole + 0x8000 && whole <= high * 0x1_0000 + 0x8000
    && (high * 0x1_0000 == whole + 0x8000 || whole == high * 0x1_0000 + 0x8000 ==> high % 2 == 0)
  }

  lemma NanStays(sign: nat, q: nat, rest: nat, r: nat)
    requires sign <= 1 && q < 0x8000 && rest < 0x1_0000 && 0x7F80_8000 < q * 0x1_0000 + rest < 0x7FFF_8000
    requires var whole := sign * 0x8000 + q;
      r == if rest + 0x7FFF + whole % 2 < 0x1_0000 then whole else (whole + 1) % 0x1_0000
    ensures Sign16(r) == sign && CutToEven(Rest16(r), q * 0x1_0000 + rest)
  {
    assert (sign * 0x8000 + q) % 2 == q % 2;
    var high := if rest + 0x7FFF + q % 2 < 0x1_0000 then q else q + 1;
    assert high < 0x8000;
    assert r == sign * 0x8000 + high;
    Halves16(sign, high);
    assert CutToEven(high, q * 0x1_0000 + rest);
  }

  lemma NanCases(sign: nat, q: nat, rest: nat, r: nat)
    requires sign <= 1 && q < 0x8000 && rest < 0x1_0000 && q * 0x1_0000 + rest > INF32
    requires var whole := sign * 0x8000 + q;
      r == if rest + 0x7FFF + whole % 2 < 0x1_0000 then whole else (whole + 1) % 0x1_0000
    ensures IsNanB(r) <==> 0x7F80_8000 < q * 0x1_0000 + rest < 0x7FFF_8000
    ensures q * 0x1_0000 + rest <= 0x7F80_8000 ==> r == sign * 0x8000 + INFB
    ensures q * 0x1_0000 + rest >= 0x7FFF_8000 ==> r == (1 - sign) * 0x8000
  {
    assert (sign * 0x8000 + q) % 2 == q % 2;
    if q == INFB {
      assert r == sign * 0x8000 + if rest <= 0x8000 then q else q + 1;
      Halves16(sign, r - sign * 0x8000);
    } else if q == 0x7FFF {
      if rest < 0x8000 {
        Halves16(sign, q);
      } else {
        Halves16(1 - sign, 0);
      }
    } else {
      Halves16(sign, r - sign * 0x8000);
    }
  }

  lemma CarryOut(f: nat, whole: nat, rest: nat)
    requires f == whole * 0x1_0000 + rest && rest < 0x1_0000 && whole < 0x1_0000
    ensures (f + 0x7FFF + f / 0x1_0000 % 2) % 0x1_0000_0000 / 0x1_0000
         == if rest + 0x7FFF + whole % 2 < 0x1_0000 then whole else (whole + 1) % 0x1_0000
  {
    assert f / 0x1_0000 == whole;
    var sum := rest + 0x7FFF + whole % 2;
    if sum >= 0x1_0000 {
      assert f + 0x7FFF + whole % 2 == (whole + 1) * 0x1_0000 + (sum - 0x1_0000);
    } else {
      assert f + 0x7FFF + whole % 2 == whole * 0x1_0000 + sum;
    }
  }

  /** The smallest signalling NaN becomes infinity, the largest positive NaN minus zero. */
  lemma BFloat16NanExamples()
    ensures IsNan32(0x7F80_0001) && NarrowB(0x7F80_0001) == INFB
    ensures IsNan32(0x7FFF_FFFF) && NarrowB(0x7FFF_FFFF) == 0x8000
  {
    BFloat16NanFate(0x7F80_0001);
    BFloat16NanFate(0x7FFF_FFFF);
  }

  // ---------------------------------------------------------------- the code, bit by bit

  /** The three fields that both conversions read. */
  lemma Fields32(f: nat)
    requires f < 0x1_0000_0000
    ensures And(Shr(f, 16), 0x8000) == Sign32(f) * 0x8000
    ensures And(Shr(f, 23), 0xFF) == Rest32(f) / 0x80_0000
    ensures And(f, 0x7F_FFFF) == Rest32(f) % 0x80_0000
  {
    hide And, Shr, Pow2;
    Pow2Values();
    ConstantShifts(f);
    AndBit(Shr(f, 16), 15);
    AndLow(Shr(f, 23), 8);
    AndLow(f, 23);
    assert f / 0x1_0000 / 0x8000 == f / 0x8000_0000;
  }

  lemma Fields16(h: nat)
    requires h < 0x1_0000
    ensures Shl(And(h, 0x8000), 16) == Sign16(h) * 0x8000_0000
    ensures And(Shr(h, 10), 0x1F) == Rest16(h) / 0x400
    ensures And(h, 0x3FF) == Rest16(h) % 0x400
  {
    hide And, Shr, Shl, Pow2;
    Pow2Values();
    ConstantShifts(h);
    ConstantShifts(And(h, 0x8000));
    AndBit(h, 15);
    AndLow(Shr(h, 10), 5);
    AndLow(h, 10);
    var s, r := h / 0x8000, h % 0x8000;
    assert h / 0x400 == s * 0x20 + r / 0x400 && r / 0x400 < 0x20;
    assert h % 0x400 == r % 0x400;
  }

  lemma JoinSign16(sign: nat, rest: nat)
    requires sign <= 1 && rest < 0x8000
    ensures Or(sign * 0x8000, rest) % 0x1_0000 == sign * 0x8000 + rest
  {
    hide Or, Pow2;
    Pow2Values();
    OrDisjoint(sign, rest, 15);
  }

  /** The normal branch: round the fraction, then add the exponent above it. */
  lemma NormalBranch(exponent: int, fraction: nat)
    requires -14 <= exponent <= 15 && fraction < 0x80_0000
    ensures And(Shr(fraction, 13), 1) == fraction / 0x2000 % 2
    ensures var mantissa := (fraction + 0x0FFF + And(Shr(fraction, 13), 1)) % 0x1_0000_0000;
      (Shl(exponent + 15, 10) + Shr(mantissa, 13)) % 0x1_0000_0000
      == (exponent + 15) * 0x400 + (fraction + 0x0FFF + fraction / 0x2000 % 2) / 0x2000
  {
    hide And, Shr, Shl, Pow2;
    Pow2Values();
    ConstantShifts(fraction);
    AndLow(Shr(fraction, 13), 1);
    ConstantShifts(exponent + 15);
    var sum := fraction + 0x0FFF + fraction / 0x2000 % 2;
    assert sum % 0x1_0000_0000 == sum;
    ConstantShifts(sum);
    assert (exponent + 15) * 0x400 % 0x1_0000_0000 == (exponent + 15) * 0x400;
    assert sum / 0x2000 <= 0x400;
  }

  /** The subnormal branch: add the implicit bit, then round it all. */
  lemma SubnormalBranch(exponent: int, fraction: nat)
    requires -25 <= exponent <= -15 && fraction < 0x80_0000
    ensures Or(fraction, 0x80_0000) == 0x80_0000 + fraction
    ensures Shl(1, -exponent - 2) >= 1
    ensures var n, shift := 0x80_0000 + fraction, -exponent - 1;
      var bias := (Shl(1, shift - 1) - 1 + And(Shr(n, shift), 1)) % 0x1_0000_0000;
      Shr((n + bias) % 0x1_0000_0000, shift) == RoundShift(n, shift)
  {
    hide And, Or, Shl, Shr, RoundShift, Pow2;
    Pow2Values();
    OrCommutes(fraction, 0x80_0000);
    OrDisjoint(1, fraction, 23);
    ShlOne(-exponent - 2);
    AndLow(Shr(0x80_0000 + fraction, -exponent - 1), 1);
    BiasDoesNotWrap(0x80_0000 + fraction, -exponent - 1);
  }

  lemma ShlOne(k: nat)
    requires k <= 23
    ensures Shl(1, k) == Pow2(k) <= 0x80_0000
  {
    Pow2Values();
    Pow2Mono(k, 23);
  }

  lemma BiasDoesNotWrap(n: nat, shift: nat)
    requires n < 0x100_0000 && 1 <= shift <= 24
    ensures var bias := (Pow2(shift - 1) - 1 + Shr(n, shift) % 2) % 0x1_0000_0000;
      Shr((n + bias) % 0x1_0000_0000, shift) == RoundShift(n, shift)
  {
    hide Pow2;
    ShlOne(shift - 1);
    SmallModulus(Pow2(shift - 1) - 1 + Shr(n, shift) % 2);
    SmallModulus(n + (Pow2(shift - 1) - 1 + Shr(n, shift) % 2));
  }

  lemma SmallModulus(n: nat)
    requires n < 0x1_0000_0000
    ensures n % 0x1_0000_0000 == n
  {}

  /** `Float16::FromFloat`. */
  method Float16FromFloat(f32: nat) returns (bits: nat)
    requires f32 < 0x1_0000_0000
    ensures bits == Narrow(f32)
  {
    hide And, Or, Shl, Shr, Pow2, NarrowRest, RoundShift;
    Fields32(f32);
    NarrowCases(Rest32(f32));
    JoinSign16(Sign32(f32), NarrowRest(Rest32(f32)));
    var sign := And(Shr(f32, 16), 0x8000);
    var exponent := And(Shr(f32, 23), 0xFF) - 127;
    var mantissa := And(f32, 0x7F_FFFF);
    if exponent >= 16 {
      if exponent == 128 && mantissa != 0 {
        return Or(sign, 0x7E00) % 0x1_0000;
      }
      return Or(sign, 0x7C00) % 0x1_0000;
    } else if exponent >= -14 {
      NormalBranch(exponent, mantissa);
      mantissa := (mantissa + 0x0FFF + And(Shr(mantissa, 13), 1)) % 0x1_0000_0000;
      return Or(sign, (Shl(exponent + 15, 10) + Shr(mantissa, 13)) % 0x1_0000_0000) % 0x1_0000;
    } else if exponent >= -25 {
      SubnormalBranch(exponent, mantissa);
      mantissa := Or(mantissa, 0x80_0000);
      var shift := -exponent - 1;
      var bias := (Shl(1, shift - 1) - 1 + And(Shr(mantissa, shift), 1)) % 0x1_0000_0000;
      return Or(sign, Shr((mantissa + bias) % 0x1_0000_0000, shift)) % 0x1_0000;
    }
    return sign;
  }

  /** The branches of the conversion, and that each result fits below the sign. */
  lemma NarrowCases(m: nat)
    requires m < 0x8000_0000
    ensures NarrowRest(m) < 0x8000
    ensures var exponent, fraction := m / 0x80_0000 - 127, m % 0x80_0000;
      if exponent >= 16 then NarrowRest(m) == if exponent == 128 && fraction != 0 then NAN16 else INF16
      else if exponent >= -14 then NarrowRest(m)
           == (exponent + 15) * 0x400 + (fraction + 0x0FFF + fraction / 0x2000 % 2) / 0x2000
      else if exponent >= -25 then NarrowRest(m) == RoundShift(0x80_0000 + fraction, -exponent - 1)
      else NarrowRest(m) == 0
  {
    hide NearestEven;
    if m <= INF32 {
      NarrowRounds(m);
      NearestIsBounded(Magnitude32(m), NarrowRest(m));
    }
  }

  /** `Float16::ToFloat`. */
  method Float16ToFloat(bits: nat) returns (f32: nat)
    requires bits < 0x1_0000
    ensures f32 == Widen(bits)
  {
    hide And, Or, Shl, Shr, Pow2;
    Fields16(bits);
    var sign := Shl(And(bits, 0x8000), 16);
    var exponent: int := And(Shr(bits, 10), 0x1F);
    var mantissa := And(bits, 0x3FF);
    if exponent == 31 {
      JoinSign32(Sign16(bits), 0xFF, mantissa);
      f32 := Or(Or(sign, 0x7F80_0000), Shl(mantissa, 13));
    } else if exponent == 0 {
      if mantissa == 0 {
        f32 := sign;
      } else {
        exponent := -14;
        ghost var k := 0;
        DoublingsBound(mantissa);
        ghost var fraction := mantissa;
        TopBit(mantissa);
        while And(mantissa, 0x400) == 0
          invariant 0 < mantissa < 0x800 && (And(mantissa, 0x400) == 0 <==> mantissa < 0x400)
          invariant exponent == -14 - k && Doublings(fraction) == k + Doublings(mantissa)
          invariant mantissa * Pow2(Doublings(mantissa)) == fraction * Pow2(Doublings(fraction))
          decreases 0x800 - mantissa
        {
          OneDoubling(mantissa);
          mantissa := Shl(mantissa, 1);
          exponent := exponent - 1;
          k := k + 1;
          TopBit(mantissa);
        }
        NoDoubling(mantissa);
        LowBits(mantissa);
        mantissa := And(mantissa, 0x3FF);
        JoinSign32(Sign16(bits), exponent + 127, mantissa);
        f32 := Or(Or(sign, Shl(exponent + 127, 23)), Shl(mantissa, 13));
      }
    } else {
      JoinSign32(Sign16(bits), exponent + 127 - 15, mantissa);
      f32 := Or(Or(sign, Shl(exponent + 127 - 15, 23)), Shl(mantissa, 13));
    }
  }

  lemma TopBit(mantissa: nat)
    requires mantissa < 0x800
    ensures And(mantissa, 0x400) == 0 <==> mantissa < 0x400
  {
    hide And, Pow2;
    Pow2Values();
    AndBit(mantissa, 10);
  }

  lemma LowBits(mantissa: nat)
    requires 0x400 <= mantissa < 0x800
    ensures And(mantissa, 0x3FF) == mantissa - 0x400
  {
    hide And, Pow2;
    Pow2Values();
    AndLow(mantissa, 10);
  }

  lemma OneDoubling(mantissa: nat)
    requires 0 < mantissa < 0x400
    ensures Shl(mantissa, 1) == mantissa * 2 && Doublings(mantissa) == 1 + Doublings(mantissa * 2)
    ensures mantissa * 2 * Pow2(Doublings(mantissa * 2)) == mantissa * Pow2(Doublings(mantissa))
  {
    hide Shl, Pow2, Doublings;
    ConstantShifts(mantissa);
    DoublingsStep(mantissa);
    DoubleInto(mantissa, Doublings(mantissa * 2));
  }

  lemma DoublingsStep(mantissa: nat)
    requires 0 < mantissa < 0x400
    ensures Doublings(mantissa) == 1 + Doublings(mantissa * 2)
  {}

  lemma DoubleInto(m: nat, k: nat)
    ensures m * 2 * Pow2(k) == m * Pow2(k + 1)
  {
    var a := Pow2(k);
    assert Pow2(k + 1) == 2 * a;
    assert m * 2 * a == m * (2 * a);
  }

  lemma NoDoubling(mantissa: nat)
    requires 0x400 <= mantissa < 0x800
    ensures Doublings(mantissa) == 0 && mantissa * Pow2(0) == mantissa
  {
    assert Pow2(0) == 1;
  }

  /** Sign, exponent and fraction of a binary32 pattern do not overlap. */
  lemma JoinSign32(sign: nat, exponent: nat, mantissa: nat)
    requires sign <= 1 && exponent < 0x100 && mantissa < 0x400
    ensures Shl(exponent, 23) == exponent * 0x80_0000 && Shl(mantissa, 13) == mantissa * 0x2000
    ensures Or(Or(sign * 0x8000_0000, exponent * 0x80_0000), mantissa * 0x2000)
         == sign * 0x8000_0000 + exponent * 0x80_0000 + mantissa * 0x2000
  {
    hide Or, Shl, Pow2;
    Pow2Values();
    ConstantShifts(exponent);
    ConstantShifts(mantissa);
    OrDisjoint(sign, exponent * 0x80_0000, 31);
    OrDisjoint(sign * 0x100 + exponent, mantissa * 0x2000, 23);
  }
}

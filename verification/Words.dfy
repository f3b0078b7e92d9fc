/** Bit operations of unsigned machine words, on naturals. */
module Words {
  import opened Arithmetic

  function Pow2(k: nat): (p: nat)
    ensures p > 0
  {
    if k == 0 then 1 else 2 * Pow2(k - 1)
  }

  function And(a: nat, b: nat): nat {
    if a == 0 || b == 0 then 0 else (a % 2) * (b % 2) + 2 * And(a / 2, b / 2)
  }

  function Or(a: nat, b: nat): nat {
    if a == 0 then b else if b == 0 then a
    else (if a % 2 + b % 2 > 0 then 1 else 0) + 2 * Or(a / 2, b / 2)
  }

  function Shr(a: nat, k: nat): nat {
    DivNonneg(a, Pow2(k));
    a / Pow2(k)
  }

  /** Left shift of a 32-bit word. */
  function Shl(a: nat, k: nat): nat {
    a * Pow2(k) % 0x1_0000_0000
  }

  lemma Pow2Doubles(k: nat)
    requires k > 0
    ensures Pow2(k) == 2 * Pow2(k - 1)
  {}

  lemma {:induction false} Pow2Adds(i: nat, j: nat)
    ensures Pow2(i) * Pow2(j) == Pow2(i + j)
  {
    if i == 0 {
    } else {
      Pow2Adds(i - 1, j);
      MulAssoc(2, Pow2(i - 1), Pow2(j));
    }
  }

  lemma {:induction false} Pow2Mono(i: nat, j: nat)
    requires i <= j
    ensures Pow2(i) <= Pow2(j)
    decreases j - i
  {
    if i == j {
    } else {
      Pow2Mono(i, j - 1);
    }
  }

  lemma Pow2Values()
    ensures Pow2(1) == 2 && Pow2(5) == 0x20 && Pow2(8) == 0x100
    ensures Pow2(10) == 0x400 && Pow2(13) == 0x2000 && Pow2(15) == 0x8000 && Pow2(16) == 0x1_0000
    ensures Pow2(23) == 0x80_0000 && Pow2(24) == 0x100_0000 && Pow2(31) == 0x8000_0000
    ensures Pow2(32) == 0x1_0000_0000
  {
    assert Pow2(5) == 0x20;
    Pow2Adds(5, 5);
    Pow2Adds(10, 3);
    Pow2Adds(13, 2);
    Pow2Adds(8, 8);
    Pow2Adds(5, 3);
    Pow2Adds(15, 8);
    Pow2Adds(16, 8);
    Pow2Adds(16, 15);
    Pow2Adds(16, 16);
  }

  /** `a` split at bit `k`, one bit lower than its half split at bit `k - 1`. */
  lemma HalfSplit(a: nat, k: nat)
    requires k > 0
    ensures a / Pow2(k) == a / 2 / Pow2(k - 1)
    ensures a % Pow2(k) == a % 2 + 2 * (a / 2 % Pow2(k - 1))
  {
    var p := Pow2(k - 1);
    var q, r := a / 2 / p, a / 2 % p;
    assert a / 2 == q * p + r;
    assert q * Pow2(k) == 2 * (q * p);
    DivisionIsUnique(a, q, a % 2 + 2 * r, Pow2(k));
  }

  /** Masking with `k` ones keeps the low `k` bits. */
  lemma {:induction false} AndLow(a: nat, k: nat)
    ensures And(a, Pow2(k) - 1) == a % Pow2(k)
    decreases k
  {
    if a == 0 {
      DivisionIsUnique(0, 0, 0, Pow2(k));
    } else if k > 0 {
      AndLow(a / 2, k - 1);
      HalfSplit(a, k);
      assert (Pow2(k) - 1) / 2 == Pow2(k - 1) - 1 && (Pow2(k) - 1) % 2 == 1;
    }
  }

  /** Masking with one bit tests it. */
  lemma {:induction false} AndBit(a: nat, k: nat)
    ensures And(a, Pow2(k)) == a / Pow2(k) % 2 * Pow2(k)
    decreases k
  {
    if a == 0 {
      DivisionIsUnique(0, 0, 0, Pow2(k));
    } else if k > 0 {
      AndBit(a / 2, k - 1);
      HalfSplit(a, k);
      MulDouble(a / Pow2(k) % 2, Pow2(k - 1));
    } else {
      assert And(a, 1) == a % 2 + 2 * And(a / 2, 0);
    }
  }

  /** Words with no bit in common are joined by adding them. */
  lemma {:induction false} OrDisjoint(high: nat, low: nat, k: nat)
    requires low < Pow2(k)
    ensures Or(high * Pow2(k), low) == high * Pow2(k) + low
    decreases k
  {
    if k == 0 || high == 0 || low == 0 {
    } else {
      var half := high * Pow2(k - 1);
      assert high * Pow2(k) == 2 * half;
      MulAtLeast(high, Pow2(k - 1));
      OrHalves(half, low);
      OrDisjoint(high, low / 2, k - 1);
    }
  }

  lemma OrHalves(half: nat, low: nat)
    requires half > 0 && low > 0
    ensures Or(2 * half, low) == low % 2 + 2 * Or(half, low / 2)
  {}

  lemma {:induction false} OrCommutes(a: nat, b: nat)
    ensures Or(a, b) == Or(b, a)
    decreases a
  {
    if a == 0 || b == 0 {
    } else {
      OrCommutes(a / 2, b / 2);
    }
  }

  /** The shifts by constants that the float conversions use. */
  lemma ConstantShifts(a: nat)
    ensures Shr(a, 10) == a / 0x400 && Shr(a, 13) == a / 0x2000
    ensures Shr(a, 16) == a / 0x1_0000 && Shr(a, 23) == a / 0x80_0000
    ensures Shl(a, 1) == a * 2 % 0x1_0000_0000 && Shl(a, 10) == a * 0x400 % 0x1_0000_0000
    ensures Shl(a, 13) == a * 0x2000 % 0x1_0000_0000 && Shl(a, 16) == a * 0x1_0000 % 0x1_0000_0000
    ensures Shl(a, 23) == a * 0x80_0000 % 0x1_0000_0000
  {
    hide Pow2;
    Pow2Values();
  }
}

/** The rounding and packing step of FMA is correct rounding. */
module FmaPack {
  import opened Words
  import opened Ieee754
  import opened DoubleWord
  import opened Sticky
  import opened Fma

  /** Drops ten bits, to nearest, ties to even. */
  function RoundOff(m: nat): nat {
    var q := (m + 512) / 1024;
    if m % 1024 == 512 then q / 2 * 2 else q
  }

  lemma RoundOffNearest(m: nat)
    ensures var q := RoundOff(m);
            && 1024 * q - 512 <= m <= 1024 * q + 512
            && (m == 1024 * q - 512 || m == 1024 * q + 512 ==> q % 2 == 0)
  {}

  lemma RoundOffBits(m: word)
    requires m < SIGN
    ensures UAdd(m, 512) == m + 512
    ensures And(Shr(UAdd(m, 512), 10), BitNot(Zero(Xor(And(m, 1023), 512)))) == RoundOff(m)
  {
    Pow2Values();
    AndMask(m, 10);
    XorZero(m % 1024, 512);
    ClearBit((m + 512) / 1024, Zero(Xor(And(m, 1023), 512)));
  }

  lemma CompareReal(n: nat, d: nat, t: nat)
    requires d > 0
    ensures var v := n as real / d as real;
            && (t * d < 2 * n ==> t as real < 2.0 * v)
            && (t * d == 2 * n ==> t as real == 2.0 * v)
            && (t * d > 2 * n ==> t as real > 2.0 * v)
  {
    var v := n as real / d as real;
    assert v * d as real == n as real;
    assert (t * d) as real == t as real * d as real;
    var diff := t as real - 2.0 * v;
    assert diff * d as real == (t * d - 2 * n) as real;
    if diff > 0.0 { assert diff * d as real > 0.0; }
    if diff < 0.0 { assert diff * d as real < 0.0; }
  }

  /** n is measured in units of 2^-(1074 + 1475). */
  ghost function Amount(n: nat): (v: real)
    ensures v >= 0.0
  {
    n as real / Pow2(1475) as real
  }

  lemma Units(e: nat)
    ensures 1024 * Pow2(e + 1465) == Pow2(e) * Pow2(1475)
  {
    Pow2Values();
    Pow2Add(e + 1465, 10);
    Pow2Add(e, 1475);
  }

  lemma RoundOffRange(m: word, e: nat)
    requires m < SIGN && (e == 0 || SIGN / 2 <= m)
    ensures RoundOff(m) <= 2 * FRAC && (e == 0 || FRAC <= RoundOff(m))
    ensures SIGN / 2 < m && RoundOff(m) == FRAC ==> 2 * m > SIGN
  {}

  /** The half gap above. */
  lemma UpperHalf(m: word, n: nat, e: nat)
    requires m < SIGN && (e == 0 || SIGN / 2 <= m)
    requires Stands(m, n, e + 1465)
    ensures var q := RoundOff(m); var c := e * FRAC + q;
            var t := (Mag(c) + Mag(c + 1)) as real;
            2.0 * Amount(n) < t || (t == 2.0 * Amount(n) && q % 2 == 0)
  {
    hide *;
    var q := RoundOff(m);
    RoundOffNearest(m);
    RoundOffRange(m, e);
    Bounds(m, n, e + 1465, 0, 1024 * q + 512);
    GapAbove(q, e);
    var c := e * FRAC + q;
    var t := Mag(c) + Mag(c + 1);
    UpperInt(n, q, e, 1024 * q + 512, t);
    CompareAmount(n, t);
  }

  lemma UpperInt(n: nat, q: nat, e: nat, hi: nat, t: nat)
    requires hi == 1024 * q + 512 && t >= 2 * Scale(q, e) + Pow2(e)
    requires n <= hi * Pow2(e + 1465)
    ensures 2 * n <= t * Pow2(1475)
    ensures n < hi * Pow2(e + 1465) ==> 2 * n < t * Pow2(1475)
  {
    Units(e);
    ScaleDef(q, e);
    hide *;
    UpperArith(n, q, Pow2(e), Pow2(1475), Pow2(e + 1465), hi, Scale(q, e), t);
  }

  lemma LowerInt(n: nat, q: nat, e: nat, lo: nat, t: nat)
    requires q > 0 && lo == 1024 * q - 512 && t == 2 * Scale(q, e) - Pow2(e)
    requires lo * Pow2(e + 1465) <= n
    ensures t * Pow2(1475) <= 2 * n
    ensures lo * Pow2(e + 1465) < n ==> t * Pow2(1475) < 2 * n
  {
    Units(e);
    ScaleDef(q, e);
    hide *;
    LowerArith(n, q, Pow2(e), Pow2(1475), Pow2(e + 1465), lo, Scale(q, e), t);
  }

  lemma CompareAmount(n: nat, t: nat)
    ensures t * Pow2(1475) < 2 * n ==> t as real < 2.0 * Amount(n)
    ensures t * Pow2(1475) == 2 * n ==> t as real == 2.0 * Amount(n)
    ensures t * Pow2(1475) > 2 * n ==> t as real > 2.0 * Amount(n)
  {
    CompareReal(n, Pow2(1475), t);
  }

  lemma UpperArith(n: nat, q: nat, u: nat, d: nat, p: nat, hi: nat, qu: nat, t: nat)
    requires 1024 * p == u * d && hi == 1024 * q + 512 && qu == q * u && t >= 2 * qu + u
    requires n <= hi * p
    ensures 2 * n <= t * d
    ensures n < hi * p ==> 2 * n < t * d
  {
    assert 2 * (hi * p) == (2 * q + 1) * (1024 * p);
    assert (2 * q + 1) * (u * d) == (2 * qu + u) * d;
    MulMonotone(2 * qu + u, t, d);
  }

  /** The half gap below. */
  lemma LowerHalf(m: word, n: nat, e: nat)
    requires m < SIGN && (e == 0 || SIGN / 2 <= m)
    requires Stands(m, n, e + 1465)
    ensures var q := RoundOff(m); var c := e * FRAC + q;
            c > 0 ==>
              var t := (Mag(c - 1) + Mag(c)) as real;
              t < 2.0 * Amount(n) || (t == 2.0 * Amount(n) && q % 2 == 0)
  {
    hide Mag, Pow2, Scale, RoundOff, Stands, Amount;
    var q := RoundOff(m);
    RoundOffNearest(m);
    RoundOffRange(m, e);
    if q > FRAC || (e == 0 && q > 0) {
      var c, lo := e * FRAC + q, 1024 * q - 512;
      Bounds(m, n, e + 1465, lo, 2 * SIGN);
      MagEncode(q, e);
      MagEncode(q - 1, e);
      ScaleStep(q - 1, e);
      var t := Mag(c - 1) + Mag(c);
      LowerInt(n, q, e, lo, t);
      CompareAmount(n, t);
    } else if e > 0 {
      BinadeStart(m, n, e);
    }
  }

  /** At the start of a binade the gap below is half as wide, but the exact
      amount is not below the significand there. */
  lemma BinadeStart(m: word, n: nat, e: nat)
    requires e > 0 && SIGN / 2 <= m < SIGN && Stands(m, n, e + 1465)
    ensures var c := e * FRAC + FRAC;
            (Mag(c - 1) + Mag(c)) as real < 2.0 * Amount(n)
  {
    hide Mag, Pow2, Scale;
    var c := e * FRAC + FRAC;
    Bounds(m, n, e + 1465, SIGN / 2, SIGN);
    Units(e);
    MagEncode(FRAC, e);
    MagMonotone(c - 1, c);
    var t := Mag(c - 1) + Mag(c);
    ScaleDef(FRAC, e);
    BinadeArith(n, Pow2(e), Pow2(1475), Pow2(e + 1465), t);
    CompareAmount(n, t);
  }

  lemma BinadeArith(n: nat, u: nat, d: nat, p: nat, t: nat)
    requires d > 0 && 1024 * p == u * d && SIGN / 2 * p <= n && t < 2 * (FRAC * u)
    ensures t * d < 2 * n
  {
    assert 2 * (SIGN / 2 * p) == 2 * FRAC * (u * d);
    assert 2 * FRAC * (u * d) == 2 * (FRAC * u) * d;
    MulMonotone(t + 1, 2 * (FRAC * u), d);
    Distribute(t, 1, d);
  }

  lemma LowerArith(n: nat, q: nat, u: nat, d: nat, p: nat, lo: nat, qu: nat, t: nat)
    requires q > 0 && 1024 * p == u * d && lo == 1024 * q - 512 && qu == q * u && t == 2 * qu - u
    requires lo * p <= n
    ensures t * d <= 2 * n
    ensures lo * p < n ==> t * d < 2 * n
  {
    assert 2 * (lo * p) == (2 * q - 1) * (1024 * p);
    assert (2 * q - 1) * (u * d) == (2 * qu - u) * d;
  }

  /** Past the largest finite number, the rounded result is infinite. */
  lemma Overflow(m: word, n: nat, e: nat)
    requires SIGN / 2 <= m < SIGN && Stands(m, n, e + 1465)
    requires e > 2045 || (e == 2045 && m + 512 >= SIGN)
    ensures InRoundingInterval(Amount(n), INF)
  {
    hide Pow2, Mag, InRoundingInterval;
    if e == 2045 {
      Bounds(m, n, e + 1465, SIGN - 512, 2 * SIGN);
    } else {
      Bounds(m, n, e + 1465, SIGN / 2, 2 * SIGN);
      NextBinade(n, e);
    }
    OverflowAt(n, 2045);
  }

  lemma NextBinade(n: nat, e: nat)
    requires e > 2045 && SIGN / 2 * Pow2(e + 1465) <= n
    ensures (SIGN - 512) * Pow2(2045 + 1465) <= n
  {
    hide Pow2;
    var p, p' := Pow2(2045 + 1465), Pow2(e + 1465);
    assert 2 * p <= p' by {
      Pow2Monotone(2045 + 1465, e + 1465);
    }
    MulMonotone(2 * p, p', SIGN / 2);
  }

  lemma OverflowAt(n: nat, top: nat)
    requires top == 2045 && (SIGN - 512) * Pow2(top + 1465) <= n
    ensures InRoundingInterval(Amount(n), INF)
  {
    hide Mag, Pow2, Scale;
    MagEncode(2 * FRAC, top);
    MagEncode(2 * FRAC - 1, top);
    ScaleStep(2 * FRAC - 1, top);
    var t := Mag(INF - 1) + Mag(INF);
    LowerInt(n, 2 * FRAC, top, SIGN - 512, t);
    CompareAmount(n, t);
  }

  /** Rounding an in-range significand. */
  lemma RoundedWord(m: word, n: nat, e: nat)
    requires m < SIGN && (e == 0 || SIGN / 2 <= m) && Stands(m, n, e + 1465)
    requires e < 2045 || (e == 2045 && m + 512 < SIGN)
    ensures Round(Amount(n)) == e * FRAC + RoundOff(m) < INF
  {
    UpperHalf(m, n, e);
    LowerHalf(m, n, e);
    RoundOffRange(m, e);
    PackedRange(e, m);
    hide Mag, Stands, Amount, Round, RoundOff;
    var c := e * FRAC + RoundOff(m);
    RoundByInterval(Amount(n), c);
  }

  lemma PackedRange(e: nat, m: nat)
    requires m < SIGN && (e < 2045 || (e == 2045 && m + 512 < SIGN))
    ensures e * FRAC + RoundOff(m) < INF
    ensures (e * FRAC + RoundOff(m)) % 2 == RoundOff(m) % 2
  {}

  lemma WordSticky(m: word, n: nat)
    ensures Or(Shr(m, n), NonZero(And(m, Mask(n)))) == StickyShift(m, n)
    ensures n > 0 && m < SIGN ==> StickyShift(m, n) < SIGN
  {
    if n < 64 {
      WordStickySmall(m, n);
    } else {
      AllOnes(m);
      hide And, BitAnd;
      Pow2Monotone(64, n);
      Pow2Values();
      DivModUnique(m, Pow2(n), 0, m);
    }
  }

  lemma WordStickySmall(m: word, n: nat)
    requires n < 64
    ensures Or(Shr(m, n), NonZero(And(m, Mask(n)))) == StickyShift(m, n)
    ensures n > 0 && m < SIGN ==> StickyShift(m, n) < SIGN
  {
    MaskValue(m, n);
    var q, r := Divide(m, Pow2(n));
    if n > 0 { HalfAtMost(m, n); }
    hide Pow2, And, Mask;
    OrBit(q, NonZero(r));
  }

  lemma AllOnes(m: word)
    ensures And(m, USub(0, 1)) == m
  {
    Pow2Values();
    AndAlmostOnes(m, 64);
  }

  lemma HalfAtMost(m: nat, n: nat)
    requires n > 0
    ensures m / Pow2(n) <= m / 2
  {
    var h := Pow2(n - 1);
    DivDiv(m, 2, h);
    var x := m / 2;
    var q, r := Divide(x, h);
    MulMonotone(1, h, q);
  }

  lemma PackRoundedBits(sign: word, e: nat, m: word)
    requires sign <= 1 && m < SIGN && e <= 2045 && e * FRAC + RoundOff(m) <= INF
    ensures var q := RoundOff(m);
            PackRounded(sign, e, m) == sign * SIGN + (if q == 0 then 0 else e * FRAC + q)
  {
    hide RoundOff, Xor, And, BitNot, Shl, UAdd, Shr, Zero, BitXor, BitAnd, BitOr, Pow2;
    RoundOffBits(m);
    if RoundOff(m) == 0 {
      PackSum(sign, 0, 0);
    } else {
      PackSum(sign, e, RoundOff(m));
    }
  }

  lemma PackSum(sign: word, e: nat, q: nat)
    requires sign <= 1 && e <= 2046 && e * FRAC + q <= INF
    ensures UAdd(Shl(sign, 63) + Shl(e, 52), q) == sign * SIGN + (e * FRAC + q)
  {
    Pow2Values();
  }

  lemma PackRoundedRounds(sign: word, e: nat, m: word, n: nat)
    requires sign <= 1 && m < SIGN && (e == 0 || SIGN / 2 <= m) && Stands(m, n, e + 1465)
    requires e < 2045 || (e == 2045 && m + 512 < SIGN)
    ensures PackRounded(sign, e, m) == sign * SIGN + Round(Amount(n))
  {
    RoundedWord(m, n, e);
    RoundOffRange(m, e);
    hide PackRounded, Round, Amount, Stands, RoundOff;
    PackRoundedBits(sign, e, m);
  }

  /** Pack is correct rounding of what its significand stands for. */
  lemma PackRounds(r: Significand, n: nat)
    requires r.sign <= 1 && SIGN / 2 <= r.mantissa < SIGN && r.exp >= -1465
    requires Stands(r.mantissa, n, r.exp + 1465)
    ensures Pack(r) == r.sign * SIGN + Round(Amount(n))
  {
    OverflowTest(r.mantissa);
    hide StickyShift, Stands, Round, Amount, PackRounded, Shr, Or, And, UAdd;
    if r.exp > 2045 || (r.exp == 2045 && r.mantissa + 512 >= SIGN) {
      Overflow(r.mantissa, n, r.exp);
      PackInfinite(r, n);
    } else if r.exp < 0 {
      PackSubnormal(r, n);
    } else {
      PackRoundedRounds(r.sign, r.exp, r.mantissa, n);
    }
  }

  lemma PackSubnormal(r: Significand, n: nat)
    requires r.sign <= 1 && r.mantissa < SIGN && -1465 <= r.exp < 0
    requires Stands(r.mantissa, n, r.exp + 1465)
    ensures Pack(r) == r.sign * SIGN + Round(Amount(n))
  {
    hide StickyShift, Stands, Round, Amount, PackRounded, Shr, Or, And, NonZero, Mask, Pow2;
    var k := -r.exp;
    Sticky.Shift(r.mantissa, n, r.exp + 1465, k);
    WordSticky(r.mantissa, k);
    PackRoundedRounds(r.sign, 0, StickyShift(r.mantissa, k), n);
  }

  lemma OverflowTest(m: word)
    requires m < SIGN
    ensures Shr(UAdd(m, 512), 63) == if m + 512 >= SIGN then 1 else 0
  {
    Pow2Values();
  }

  lemma PackInfinite(r: Significand, n: nat)
    requires r.sign <= 1 && r.mantissa < SIGN
    requires r.exp > 2045 || (r.exp == 2045 && Shr(UAdd(r.mantissa, 512), 63) == 1)
    requires InRoundingInterval(Amount(n), INF)
    ensures Pack(r) == r.sign * SIGN + Round(Amount(n))
  {
    RoundByInterval(Amount(n), INF);
    SignedInfinity(r.sign);
    hide Round, Amount, InRoundingInterval, Or, Shl, Shr, UAdd, PackRounded;
  }

  lemma SignedInfinity(sign: word)
    requires sign <= 1
    ensures Or(Shl(sign, 63), INF) == sign * SIGN + INF
  {
    SignShift(sign);
    Pow2Values();
    hide BitOr, Pow2, Shl;
    OrDisjoint(sign, INF, 63);
  }

  lemma SignShift(sign: word)
    requires sign <= 1
    ensures Shl(sign, 63) == sign * SIGN
  {
    Pow2Values();
  }

  /** A zero significand packs to a zero. */
  lemma PackZero(r: Significand)
    requires r.sign <= 1 && r.mantissa == 0 && r.exp < 2045
    ensures Pack(r) == r.sign * SIGN
  {
    if r.exp < 0 {
      WordSticky(0, -r.exp);
      DivModUnique(0, Pow2(-r.exp), 0, 0);
      PackRoundedBits(r.sign, 0, 0);
    } else {
      PackRoundedBits(r.sign, r.exp, 0);
    }
  }
}

/** src/math/mod.go, with src/math/frexp.go and src/math/ldexp.go: the
    floating-point remainder is exact. */
module FloatMod {
  import opened Words
  import opened Ieee754

  const UVNAN: word := 0x7FF8_0000_0000_0001

  // Magnitudes only: the argument and the result of a helper are encodings
  // without their sign bit.

  /** Multiplication of a float by a power of two that is itself a float. */
  function TimesPower(c: nat, p: real): (r: nat)
    requires p > 0.0
  {
    assert Mag(c) as real * p >= 0.0;
    Round(Mag(c) as real * p)
  }

  /** Subtraction of floats, rounded like every operation. */
  function Minus(a: nat, b: nat): nat
    requires Mag(b) <= Mag(a)
  {
    Round((Mag(a) - Mag(b)) as real)
  }

  lemma TimesPowerExact(c: nat, p: real, t: nat)
    requires p > 0.0 && Mag(c) as real * p == t as real
    ensures TimesPower(c, p) == Round(t as real)
  {}

  function Normalize(c: nat): (nat, int) {
    if c < FRAC then (TimesPower(c, FRAC as real), -52) else (c, 0)
  }

  function Frexp(c: nat): (nat, int) {
    if c == 0 || c >= INF then (c, 0)
    else
      var n := Normalize(c);
      (1022 * FRAC + n.0 % FRAC, n.1 + n.0 / FRAC - BIAS + 1)
  }

  function Ldexp(c: nat, k: int): nat {
    if c == 0 || c >= INF then c
    else
      var n := Normalize(c);
      var exp := k + n.1 + n.0 / FRAC - BIAS;
      if exp < -1075 then 0
      else if exp > 1023 then INF
      else if exp < -1022 then
        TimesPower((exp + 53 + BIAS) * FRAC + n.0 % FRAC, 1.0 / 0x20_0000_0000_0000 as real)
      else (exp + BIAS) * FRAC + n.0 % FRAC
  }

  // ----- what is representable -----

  /** The encoding of n * 2^a. */
  function Encode(n: nat, a: nat): (c: nat)
    requires n < 2 * FRAC
    decreases a
  {
    if a > 0 && n < FRAC then Encode(2 * n, a - 1) else a * FRAC + n
  }

  lemma {:induction false} EncodeValue(n: nat, a: nat)
    requires n < 2 * FRAC
    ensures Mag(Encode(n, a)) == Scale(n, a)
    decreases a
  {
    if a > 0 && n < FRAC {
      EncodeValue(2 * n, a - 1);
      MulAssoc(n, 2, Pow2(a - 1));
    } else {
      MagEncode(n, a);
    }
  }

  /** A representable value is what rounding gives. */
  lemma RoundRepresentable(n: nat, a: nat, v: nat, c: nat)
    requires n < 2 * FRAC && v == Scale(n, a) && v < Mag(c) && c <= INF
    ensures Round(v as real) < c && Mag(Round(v as real)) == v
  {
    var d := Encode(n, a);
    EncodeValue(n, a);
    if c <= d {
      if c < d { MagMonotone(c, d); }
    }
    hide Mag, Encode, Scale;
    RoundExact(d);
  }

  // ----- frexp and ldexp -----

  /** Mag(c) is m * 2^(e - 1), where e may be below 1 for subnormals. */
  ghost predicate Parts(c: nat, m: nat, e: int) {
    FRAC <= m < 2 * FRAC && e >= -51 && Scale(Mag(c), 52) == Scale(m, e + 51)
  }

  lemma NormalizeValue(c: nat)
    requires 0 < c < INF
    ensures var n := Normalize(c);
            FRAC <= n.0 < INF && n.0 % FRAC < FRAC && Parts(c, FRAC + n.0 % FRAC, n.1 + n.0 / FRAC)
  {
    if c < FRAC {
      NormalizeSubnormal(c);
    } else {
      var e, f := c / FRAC, c % FRAC;
      MagOfFields(c, e, f);
      ScaleScale(FRAC + f, e - 1, 52);
    }
  }

  lemma RealScale(a: nat, k: nat, p: real)
    requires p == Pow2(k) as real
    ensures a as real * p == Scale(a, k) as real
  {}

  lemma NormalizeSubnormal(c: nat)
    requires 0 < c < FRAC
    ensures var n := Normalize(c).0;
            FRAC <= n < INF && Mag(n) == Scale(Mag(c), 52) && Parts(c, FRAC + n % FRAC, n / FRAC - 52)
  {
    hide Round, Mag;
    Pow2Values();
    MagOfFields(c, 0, c);
    RealScale(c, 52, FRAC as real);
    BelowInfinity(Scale(c, 52));
    MulMonotone(1, c, FRAC);
    RoundRepresentable(c, 52, Scale(c, 52), INF);
    var n := Normalize(c).0;
    MagOfFields(FRAC, 1, 0);
    if n < FRAC { MagMonotone(n, FRAC); }
    MagOfFields(n, n / FRAC, n % FRAC);
  }

  lemma BelowInfinity(v: nat)
    requires v < FRAC * FRAC
    ensures v < Mag(INF)
  {
    Pow2Values();
    MagEncode(FRAC, 53);
    assert Pow2(53) == 2 * FRAC;
    MagMonotone(53 * FRAC + FRAC, INF);
  }

  /** The significand and the exponent determine the order of magnitudes. */
  lemma PartsOrder(c: nat, m: nat, e: int, d: nat, n: nat, f: int)
    requires Parts(c, m, e) && Parts(d, n, f) && Mag(c) <= Mag(d)
    ensures e < f || (e == f && m <= n)
  {
    MulMonotone(Mag(c), Mag(d), Pow2(52));
    hide Mag;
    if e > f {
      Pow2Monotone(f + 51, e + 51);
      SignificandOrder(m, Pow2(e + 51), n, Pow2(f + 51));
    } else if e == f {
      MulCancel(m, n, Pow2(e + 51));
    }
  }

  lemma MulCancel(m: nat, n: nat, p: nat)
    requires p > 0 && m * p <= n * p
    ensures m <= n
  {
    if m > n { MulMonotone(n + 1, m, p); }
  }

  lemma SignificandOrder(m: nat, p: nat, n: nat, q: nat)
    requires FRAC <= m && n < 2 * FRAC && 2 * q <= p && q > 0
    ensures n * q < m * p
  {
    MulMonotone(n + 1, 2 * FRAC, q);
    MulMonotone(2 * q, p, FRAC);
    MulMonotone(FRAC, m, p);
    assert (n + 1) * q == n * q + q;
  }

  lemma FrexpValue(c: nat)
    requires 0 < c < INF
    ensures var r := Frexp(c);
            && Parts(c, FRAC + r.0 % FRAC, r.1 + 1022)
            && r.0 == 1022 * FRAC + r.0 % FRAC && r.0 % FRAC < FRAC
  {
    hide Parts, Normalize, Mag;
    NormalizeValue(c);
    DivModUnique(Frexp(c).0, FRAC, 1022, Normalize(c).0 % FRAC);
  }

  lemma FractionOrder(c: nat, d: nat)
    requires c / FRAC == d / FRAC == 1022
    ensures Mag(c) < Mag(d) <==> c % FRAC < d % FRAC
  {
    if c < d { MagMonotone(c, d); } else if d < c { MagMonotone(d, c); }
  }

  lemma ScaleCancel(a: nat, b: nat, k: nat)
    ensures Scale(a, k) == Scale(b, k) <==> a == b
    ensures Scale(a, k) <= Scale(b, k) <==> a <= b
  {
    var p := Pow2(k);
    hide Pow2;
    if a < b { MulMonotone(a + 1, b, p); assert (a + 1) * p == a * p + p; }
    if b < a { MulMonotone(b + 1, a, p); assert (b + 1) * p == b * p + p; }
  }

  /** ldexp is exact when the result does not overflow. */
  lemma LdexpValue(c: nat, k: nat)
    requires 0 < c < INF && Scale(Mag(c), k) < Mag(INF)
    ensures Ldexp(c, k) < INF && Mag(Ldexp(c, k)) == Scale(Mag(c), k)
  {
    hide Parts, Normalize, Mag, Scale, TimesPower;
    NormalizeValue(c);
    var n := Normalize(c);
    var m, e := FRAC + n.0 % FRAC, n.1 + n.0 / FRAC;
    ScaledParts(c, m, e, k);
    if e + k >= 1 {
      LdexpNormal(m, e + k, Scale(Mag(c), k));
    } else {
      LdexpSubnormal(m, e + k, Scale(Mag(c), k));
    }
  }

  lemma ScaledParts(c: nat, m: nat, e: int, k: nat)
    requires Parts(c, m, e)
    ensures e >= -51 && FRAC <= m < 2 * FRAC
    ensures Scale(Scale(Mag(c), k), 52) == Scale(m, e + k + 51)
  {
    ScaleScale(Mag(c), k, 52);
    ScaleScale(Mag(c), 52, k);
    ScaleScale(m, e + 51, k);
  }

  lemma LdexpNormal(m: nat, e: nat, t: nat)
    requires FRAC <= m < 2 * FRAC && e >= 1 && Scale(t, 52) == Scale(m, e + 51) && t < Mag(INF)
    ensures e <= 2046 && Mag(e * FRAC + (m - FRAC)) == t && e * FRAC + (m - FRAC) < INF
  {
    hide Scale, Mag;
    var c := e * FRAC + (m - FRAC);
    MagOfFields(c, e, m - FRAC);
    ScaleScale(m, e - 1, 52);
    ScaleCancel(t, Scale(m, e - 1), 52);
    if c >= INF {
      if c > INF { MagMonotone(INF, c); }
    }
  }

  lemma LdexpSubnormal(m: nat, e: int, t: nat)
    requires FRAC <= m < 2 * FRAC && -51 <= e <= 0 && Scale(t, 52) == Scale(m, e + 51)
    ensures var r := TimesPower((e + 53) * FRAC + (m - FRAC), 1.0 / 0x20_0000_0000_0000 as real);
            Mag(r) == t && r < INF
  {
    hide Mag, Scale, Round;
    var c := (e + 53) * FRAC + (m - FRAC);
    SubnormalParts(m, e, t, c);
    RealQuotient(Mag(c), t, 0x20_0000_0000_0000);
    TimesPowerExact(c, 1.0 / 0x20_0000_0000_0000 as real, t);
    ScaleZero(t);
    BelowInfinity(t);
    RoundRepresentable(t, 0, t, INF);
  }

  lemma RealQuotient(n: nat, t: nat, d: nat)
    requires d > 0 && n == t * d
    ensures n as real * (1.0 / d as real) == t as real
  {
    var p := 1.0 / d as real;
    assert p * d as real == 1.0;
    assert n as real == t as real * d as real;
    assert t as real * d as real * p == t as real * (p * d as real);
  }

  lemma ScaleZero(t: nat)
    ensures Scale(t, 0) == t
  {}

  /** n * 2^k. */
  function Times2(n: nat, k: int): (v: real)
    ensures v >= 0.0
  {
    if k >= 0 then Scale(n, k) as real else Quotient(n, Pow2(-k))
  }

  function Quotient(n: nat, d: nat): (v: real)
    requires d > 0
    ensures v >= 0.0
  {
    n as real / d as real
  }

  lemma QuotientTimes(n: nat, d: nat, p: nat, t: nat)
    requires d > 0 && n * p == t * d
    ensures Quotient(n, d) * p as real == t as real
  {
    var v, r := Quotient(n, d), d as real;
    assert v * r == n as real;
    assert n as real * p as real == t as real * r;
    assert v * p as real * r == t as real * r by {
      assert v * p as real * r == v * r * p as real;
    }
    RealCancel(v * p as real, t as real, r);
  }

  lemma RealCancel(a: real, b: real, c: real)
    requires c > 0.0 && a * c == b * c
    ensures a == b
  {
    ProductOrder(a, b, c);
    ProductOrder(b, a, c);
  }

  lemma ProductOrder(a: real, b: real, c: real)
    requires c > 0.0
    ensures a < b ==> a * c < b * c
  {
    assert b * c - a * c == (b - a) * c;
  }

  /** The value of c * 2^k, from its parts; j makes it whole. */
  lemma Times2Parts(c: nat, m: nat, e: int, k: int, j: nat)
    requires Parts(c, m, e) && e + k + j >= 1
    ensures Times2(Mag(c), k) * Pow2(j) as real == Scale(m, e + k + j - 1) as real
  {
    hide Mag, Pow2, Quotient;
    var n, t := Mag(c), Scale(m, e + k + j - 1);
    if k >= 0 {
      ScaledParts(c, m, e, k);
      ScaleScale(Scale(n, k), j, 52);
      ScaleScale(Scale(n, k), 52, j);
      ScaleScale(m, e + k + 51, j);
      ScaleScale(m, e + k + j - 1, 52);
      ScaleCancel(Scale(Scale(n, k), j), t, 52);
      RealScale(Scale(n, k), j, Pow2(j) as real);
    } else {
      ScaleScale(n, j, 52);
      ScaleScale(n, 52, j);
      ScaleScale(m, e + 51, j);
      ScaleScale(m, e + k + j - 1, 52 - k);
      ScaleScale(t, -k, 52);
      ScaleCancel(Scale(n, j), Scale(t, -k), 52);
      QuotientTimes(n, Pow2(-k), Pow2(j), t);
    }
  }

  /** ldexp rounds once: overflow, underflow and subnormal results included. */
  lemma LdexpRounds(c: nat, k: int)
    requires 0 < c < INF
    ensures Ldexp(c, k) == Round(Times2(Mag(c), k))
  {
    hide Parts, Normalize, Mag, Scale, TimesPower, Times2, Round;
    NormalizeValue(c);
    var n := Normalize(c);
    var m, e := FRAC + n.0 % FRAC, n.1 + n.0 / FRAC;
    var top, v := e + k, Times2(Mag(c), k);
    if top > 2046 {
      Beyond(c, m, e, k, v);
    } else if top >= 1 {
      Within(c, m, e, k, v);
    } else if top >= -52 {
      SubnormalResult(c, m, e, k, v);
    } else {
      Tiny(c, m, e, k, v);
    }
  }

  lemma Beyond(c: nat, m: nat, e: int, k: int, v: real)
    requires Parts(c, m, e) && e + k > 2046 && v == Times2(Mag(c), k)
    ensures Round(v) == INF
  {
    hide Times2, Mag, Round;
    Times2Parts(c, m, e, k, 0);
    Pow2Monotone(2046, e + k - 1);
    MulMonotone(FRAC, m, Pow2(e + k - 1));
    MulMonotone(Pow2(2046), Pow2(e + k - 1), FRAC);
    MagOfFields(INF, 2047, 0);
    MagMonotone(INF - 1, INF);
    RoundByInterval(v, INF);
  }

  lemma Within(c: nat, m: nat, e: int, k: int, v: real)
    requires Parts(c, m, e) && 1 <= e + k <= 2046 && v == Times2(Mag(c), k)
    ensures Round(v) == (e + k) * FRAC + (m - FRAC)
  {
    hide Times2, Mag, Round, Scale;
    Times2Parts(c, m, e, k, 0);
    MagOfFields((e + k) * FRAC + (m - FRAC), e + k, m - FRAC);
    assert v * Pow2(0) as real == v;
    RoundExact((e + k) * FRAC + (m - FRAC));
  }

  lemma SubnormalResult(c: nat, m: nat, e: int, k: int, v: real)
    requires Parts(c, m, e) && -52 <= e + k <= 0 && v == Times2(Mag(c), k)
    ensures Round(v) == TimesPower((e + k + 53) * FRAC + (m - FRAC), 1.0 / 0x20_0000_0000_0000 as real)
  {
    hide Times2, Mag, Round, Scale;
    var d := (e + k + 53) * FRAC + (m - FRAC);
    Times2Parts(c, m, e, k, 53);
    MagOfFields(d, e + k + 53, m - FRAC);
    Pow2Values();
    Divided(v, Mag(d));
  }

  lemma Divided(v: real, n: nat)
    requires v * 0x20_0000_0000_0000 as real == n as real
    ensures n as real * (1.0 / 0x20_0000_0000_0000 as real) == v
  {}

  lemma Tiny(c: nat, m: nat, e: int, k: int, v: real)
    requires Parts(c, m, e) && e + k < -52 && v == Times2(Mag(c), k)
    ensures Round(v) == 0
  {
    hide Times2, Round, Pow2;
    var j := 1 - (e + k);
    Times2Parts(c, m, e, k, j);
    ScaleZero(m);
    Pow2Monotone(54, j);
    Pow2Is54();
    Half(v, Pow2(j), m);
    RoundByInterval(v, 0);
  }

  lemma Pow2Is54()
    ensures Pow2(54) == 4 * FRAC
  {
    Pow2Values();
    assert Pow2(54) == 2 * Pow2(53);
  }

  lemma Half(v: real, p: nat, m: nat)
    requires v >= 0.0 && v * p as real == m as real && 2 * m < p
    ensures 2.0 * v < 1.0
  {
    ProductOrder(1.0, 2.0 * v, p as real);
    assert 2.0 * v * p as real == 2.0 * m as real;
  }

  lemma SubnormalParts(m: nat, e: int, t: nat, c: nat)
    requires FRAC <= m < 2 * FRAC && -51 <= e <= 0 && Scale(t, 52) == Scale(m, e + 51)
    requires c == (e + 53) * FRAC + (m - FRAC)
    ensures Mag(c) == t * 0x20_0000_0000_0000 && t < FRAC
  {
    MagOfFields(c, e + 53, m - FRAC);
    hide Mag;
    Pow2Monotone(e + 51, 51);
    MulMonotone(Pow2(e + 51), Pow2(51), m);
    Pow2Values();
    assert Pow2(52) == 2 * Pow2(51);
    ScaleScale(m, e + 51, 1);
    ScaleScale(t, 52, 1);
    ScaleDef(t, 53);
  }

  // ----- the remainder -----

  /** The multiple of y that one round subtracts: y * 2^k lies between half of
      r and r. */
  lemma ScaleExponent(r: nat, m: nat, e: int, y: nat, n: nat, f: int)
    requires Parts(r, m, e) && Parts(y, n, f) && Mag(y) <= Mag(r)
    ensures var k := if m < n then e - f - 1 else e - f;
            k >= 0 && Scale(Mag(y), k) <= Mag(r) < 2 * Scale(Mag(y), k)
  {
    hide Mag, Scale;
    PartsOrder(y, n, f, r, m, e);
    var k := if m < n then e - f - 1 else e - f;
    ScaledParts(y, n, f, k);
    if m < n {
      DoubleIsShift(m, e + 50);
      SignificandBetween(n, 2 * m, e + 50);
    } else {
      SignificandBetween(n, m, e + 51);
    }
    DoubleScaleOrder(Scale(Mag(y), k), Mag(r), 52);
  }

  lemma SignificandBetween(n: nat, m: nat, k: nat)
    requires n <= m < 2 * n
    ensures Scale(n, k) <= Scale(m, k) < 2 * Scale(n, k)
  {
    MulMonotone(n, m, Pow2(k));
    MulMonotone(m + 1, 2 * n, Pow2(k));
    assert (m + 1) * Pow2(k) == m * Pow2(k) + Pow2(k);
  }

  lemma DoubleScaleOrder(s: nat, r: nat, k: nat)
    requires Scale(s, k) <= Scale(r, k) < 2 * Scale(s, k)
    ensures s <= r < 2 * s
  {
    ScaleCancel(s, r, k);
    ScaleCancel(2 * s, r, k);
    assert Scale(2 * s, k) == 2 * Scale(s, k);
  }

  function Exponent(c: nat): nat { if c < FRAC then 0 else c / FRAC - 1 }

  function Integral(c: nat): nat { if c < FRAC then c else FRAC + c % FRAC }

  lemma IntegralValue(c: nat)
    ensures Mag(c) == Scale(Integral(c), Exponent(c)) && Integral(c) < 2 * FRAC
  {
    MagOfFields(c, c / FRAC, c % FRAC);
  }

  /** Subtracting a float between half of r and r is exact. */
  lemma ExactDifference(r: nat, s: nat)
    requires r < INF && Mag(s) <= Mag(r) < 2 * Mag(s)
    ensures Minus(r, s) < INF && Mag(Minus(r, s)) == Mag(r) - Mag(s)
  {
    if r < s { MagMonotone(r, s); }
    MagMonotone(r, INF);
    IntegralValue(r);
    IntegralValue(s);
    var d, a := Exponent(r) - Exponent(s), Exponent(s);
    assert d >= 0;
    hide Mag, Scale, Exponent, Integral, Round;
    ScaleScale(Integral(r), d, a);
    var n := DifferenceIntegral(Integral(s), Scale(Integral(r), d), a);
    RoundRepresentable(n, a, Mag(r) - Mag(s), INF);
  }

  lemma DifferenceIntegral(s: nat, r: nat, a: nat) returns (n: nat)
    requires Scale(s, a) <= Scale(r, a) < 2 * Scale(s, a)
    ensures n <= s && Scale(n, a) == Scale(r, a) - Scale(s, a)
  {
    DoubleScaleOrder(s, r, a);
    n := r - s;
    assert n * Pow2(a) == r * Pow2(a) - s * Pow2(a);
  }

  lemma ModAfter(r: nat, s: nat, y: nat, k: nat)
    requires y > 0 && s <= r && s == Scale(y, k)
    ensures (r - s) % y == r % y
  {
    var p := Pow2(k);
    var q, t := (r - s) / y, (r - s) % y;
    assert r == (q + p) * y + t;
    DivModUnique(r, y, q + p, t);
  }

  /** The exponent one round of the loop computes, and the multiple of y it
      subtracts. */
  lemma RoundExponent(r: nat, y: nat) returns (k: nat)
    requires 0 < y < INF && r < INF && Mag(y) <= Mag(r)
    ensures var yf, rf := Frexp(y), Frexp(r);
            k == (if Mag(rf.0) < Mag(yf.0) then rf.1 - 1 else rf.1) - yf.1
    ensures Scale(Mag(y), k) <= Mag(r) < 2 * Scale(Mag(y), k)
    ensures Ldexp(y, k) < INF && Mag(Ldexp(y, k)) == Scale(Mag(y), k)
  {
    hide Mag, Frexp, Ldexp, Parts, Scale;
    if r < y { MagMonotone(r, y); }
    MagMonotone(r, INF);
    FrexpValue(y);
    FrexpValue(r);
    var yf, rf := Frexp(y), Frexp(r);
    var n, m := yf.0 % FRAC, rf.0 % FRAC;
    DivModUnique(yf.0, FRAC, 1022, n);
    DivModUnique(rf.0, FRAC, 1022, m);
    FractionOrder(rf.0, yf.0);
    ScaleExponent(r, FRAC + m, rf.1 + 1022, y, FRAC + n, yf.1 + 1022);
    k := (if m < n then rf.1 - 1 else rf.1) - yf.1;
    LdexpValue(y, k);
  }

  lemma MagPositive(c: nat)
    requires c > 0
    ensures Mag(c) > 0
  {
    MagMonotone(0, c);
  }

  lemma {:induction false} PowerExceeds(n: nat, y: nat)
    requires y > 0
    ensures n < Scale(y, n)
  {
    if n > 0 {
      PowerExceeds(n - 1, y);
      MulAssoc(2, y, Pow2(n - 1));
    }
  }

  /** The magnitude of the remainder; the sign is that of x. */
  method ModMagnitude(x: nat, y: nat) returns (r: nat)
    requires x < INF && 0 < y <= INF
    ensures r < INF && Mag(r) == Mag(x) % Mag(y)
  {
    hide Mag, Frexp, Ldexp, Scale, Minus;
    MagPositive(y);
    r := x;
    ghost var n := Mag(x);
    PowerExceeds(n, Mag(y));
    if y == INF && x < INF { MagMonotone(x, INF); }
    var yf := Frexp(y);
    while Mag(r) >= Mag(y)
      invariant r < INF && Mag(r) % Mag(y) == Mag(x) % Mag(y)
      invariant Mag(r) < Scale(Mag(y), n)
      invariant y == INF ==> Mag(r) < Mag(y)
      decreases n
    {
      ghost var k := RoundExponent(r, y);
      var rf := Frexp(r);
      var rexp := rf.1;
      if Mag(rf.0) < Mag(yf.0) {
        rexp := rexp - 1;
      }
      var s := Ldexp(y, rexp - yf.1);
      ModAfter(Mag(r), Mag(s), Mag(y), k);
      ExactDifference(r, s);
      if n <= k { ScaleGrows(Mag(y), n, k); }
      r := Minus(r, s);
      n := k;
    }
    DivModUnique(Mag(r), Mag(y), 0, Mag(r));
  }

  lemma ScaleGrows(y: nat, n: nat, k: nat)
    requires n <= k
    ensures Scale(y, n) <= Scale(y, k)
  {
    Pow2Monotone(n, k);
    MulMonotone(Pow2(n), Pow2(k), y);
  }

  /** Truncating division of integers. */
  function TruncQuotient(a: int, b: int): int
    requires b != 0
  {
    var q := (if a < 0 then -a else a) / (if b < 0 then -b else b);
    if (a < 0) != (b < 0) then -q else q
  }

  /** mod, for every pair of floats. */
  method Mod(x: word, y: word) returns (r: word)
    ensures MagBits(y) == 0 || IsInf(x) || IsNaN(x) || IsNaN(y) ==> r == UVNAN
    ensures IsFinite(x) && 0 < MagBits(y) <= INF ==>
              && IsFinite(r) && SignBit(r) == SignBit(x)
              && Value(y) != 0 && Value(r) == Value(x) - TruncQuotient(Value(x), Value(y)) * Value(y)
  {
    if MagBits(y) == 0 || IsInf(x) || IsNaN(x) || IsNaN(y) {
      return UVNAN;
    }
    var m := ModMagnitude(MagBits(x), MagBits(y));
    r := SignBit(x) * SIGN + m;
    SignedRemainder(x, y, m);
  }

  lemma SignedRemainder(x: word, y: word, m: nat)
    requires m < INF && 0 < MagBits(y) && Mag(m) == Mag(MagBits(x)) % Mag(MagBits(y))
    ensures var r := SignBit(x) * SIGN + m;
            && r < W && MagBits(r) == m && SignBit(r) == SignBit(x)
            && Value(y) != 0 && Value(r) == Value(x) - TruncQuotient(Value(x), Value(y)) * Value(y)
  {
    hide Mag, TruncQuotient;
    var r := SignBit(x) * SIGN + m;
    DivModUnique(r, SIGN, SignBit(x), m);
    MagPositive(MagBits(y));
    TruncRemainder(SignBit(x), Mag(MagBits(x)), SignBit(y), Mag(MagBits(y)));
  }

  lemma TruncRemainder(s: nat, a: nat, t: nat, b: nat)
    requires b > 0
    ensures Signed(t, b) != 0
    ensures Signed(s, a % b) == Signed(s, a) - TruncQuotient(Signed(s, a), Signed(t, b)) * Signed(t, b)
  {
    var q: int, r := a / b, a % b;
    assert a == q * b + r;
    if a == 0 {
      DivModUnique(a, b, 0, 0);
    } else {
      assert TruncQuotient(Signed(s, a), Signed(t, b)) == if (s == 0) == (t == 0) then q else 0 - q;
      SignedTimes(q, b);
    }
  }

  lemma SignedTimes(a: int, b: int)
    ensures -a * -b == a * b && a * -b == -(a * b) && -a * b == -(a * b)
  {}
}

/** FMA(x, y, z) is x*y + z rounded once (section 5.4.1 of IEEE 754-2008). */
module FmaTheorem {
  import opened Words
  import opened Ieee754
  import opened DoubleWord
  import opened Fma
  import opened FmaPack
  import opened FmaSum
  import Sticky

  predicate FiniteNonzero(b: word) { 0 < MagBits(b) < INF }

  /** x*y + z exactly, in units of 2^-2148. */
  function Exact(x: word, y: word, z: word): int {
    Value(x) * Value(y) + Value(z) * Pow2(1074)
  }

  function Magnitude(e: int): nat { if e < 0 then -e else e }

  /** A magnitude in units of 2^-2148, in the units of a decoded magnitude. */
  ghost function Ratio(e: nat): (v: real)
    ensures v >= 0.0
  {
    e as real / Pow2(1074) as real
  }

  lemma SamePosition(n: nat, e: nat)
    requires n == Scale(e, 401)
    ensures Amount(n) == Ratio(e)
  {
    hide Pow2;
    ChangeUnit(n, e, 1074, 401);
  }

  lemma ChangeUnit(n: nat, e: nat, a: nat, b: nat)
    requires n == Scale(e, b)
    ensures n as real / Pow2(a + b) as real == e as real / Pow2(a) as real
  {
    ScaleDef(e, b);
    Pow2Add(a, b);
    hide Pow2, Scale;
    RealProduct(e, Pow2(b), n);
    RealProduct(Pow2(a), Pow2(b), Pow2(a + b));
    CancelFactor(n as real, Pow2(a + b) as real, e as real, Pow2(a) as real, Pow2(b) as real);
  }

  lemma RealProduct(a: nat, b: nat, c: nat)
    requires c == a * b
    ensures c as real == a as real * b as real
  {}

  lemma CancelFactor(n: real, d: real, e: real, p: real, q: real)
    requires d > 0.0 && p > 0.0 && n == e * q && d == p * q
    ensures n / d == e / p
  {
    var v := e / p;
    assert v * p == e;
    assert v * d == n;
  }

  function ProductMag(x: word, y: word): nat { Mag(MagBits(x)) * Mag(MagBits(y)) }

  function AddendMag(z: word): nat { Scale(Mag(MagBits(z)), 1074) }

  /** The operands of the sum stage are exact, and signed like the terms. */
  lemma Operands(x: word, y: word, z: word)
    requires FiniteNonzero(x) && FiniteNonzero(y) && FiniteNonzero(z)
    ensures var p, w := Product(Split(x), Split(y)), Widen(Split(z));
            && Normalised(p) && Normalised(w)
            && Full(p) == Scale(ProductMag(x, y), 401) && Full(w) == Scale(AddendMag(z), 401)
            && (p.sign == 0 <==> SignBit(x) == SignBit(y)) && w.sign == SignBit(z)
  {
    hide Mag, Split, Product, Widen, Scale, Full;
    SplitValue(x);
    SplitValue(y);
    SplitValue(z);
    var sx, sy, sz := Split(x), Split(y), Split(z);
    ProductValue(sx, sy);
    ExactProduct(Mag(MagBits(x)), sx.mantissa, sx.exp, Mag(MagBits(y)), sy.mantissa, sy.exp);
    WidenValue(Mag(MagBits(z)), sz);
    ScaleScale(Mag(MagBits(z)), 1074, 401);
  }

  /** The signed sum of a product and an addend, from their magnitudes. */
  lemma SignedExact(x: word, y: word, z: word)
    ensures var a, c := ProductMag(x, y), AddendMag(z);
            var s := if SignBit(x) == SignBit(y) then 0 else 1;
            SignBit(x) <= 1 && SignBit(y) <= 1 && Exact(x, y, z) == Signed(s, a) + Signed(SignBit(z), c)
  {
    hide Mag;
    var mx, my := Mag(MagBits(x)), Mag(MagBits(y));
    hide MagBits, Pow2;
    ScaleDef(Mag(MagBits(z)), 1074);
    SignedTimes(SignBit(x), mx, SignBit(y), my);
    SignedScale(SignBit(z), Mag(MagBits(z)), Pow2(1074));
  }

  lemma SignedTimes(s: nat, a: int, t: nat, b: int)
    requires s <= 1 && t <= 1
    ensures Signed(s, a) * Signed(t, b) == Signed(if s == t then 0 else 1, a * b)
  {}

  lemma SignedScale(s: nat, a: int, p: int)
    ensures Signed(s, a) * p == Signed(s, a * p)
  {}

  /** What FMA returns for an exact, signed and scaled sum. */
  lemma PackDelivered(s: Significand, sign: word, n: nat, e: nat, top: int)
    requires sign <= 1 && top <= 3070 && Delivers(s, sign, n, top) && n == Scale(e, 401)
    requires n == 0 ==> top <= 2046
    ensures Pack(s) == sign * SIGN + Round(Ratio(e))
  {
    hide Pow2, Sticky.Stands, Pack, Round, Ratio, Scale;
    if n == 0 {
      PackZero(s);
      ZeroRounds(e);
    } else {
      PackRounds(s, n);
      SamePosition(n, e);
    }
  }

  lemma ZeroRounds(e: nat)
    requires Scale(e, 401) == 0
    ensures Round(Ratio(e)) == 0
  {
    if e > 0 { MulMonotone(1, e, Pow2(401)); }
    hide Round, Scale, Pow2;
    RatioZero();
    RoundExact(0);
  }

  lemma RatioZero()
    ensures Ratio(0) == 0.0 == Mag(0) as real
  {
    hide Pow2;
    assert Mag(0) == 0;
  }

  /** The order FMA swaps by is the order of the magnitudes. */
  lemma SmallerMeansLess(p: Unpacked, z: Unpacked)
    requires Normalised(p) && Normalised(z) && Smaller(p, z)
    ensures Full(p) < Full(z)
  {
    var v, w := Val((p.hi, p.lo)), Val((z.hi, z.lo));
    assert v < SIGN * W && SIGN / 2 * W <= w;
    SwapOrder(p, z);
    hide Val, Normalised, Smaller;
    LexicographicScale(v, p.exp + 1400, w, z.exp + 1400);
  }

  lemma LexicographicScale(v: nat, i: nat, w: nat, j: nat)
    requires v < SIGN * W && SIGN / 2 * W <= w && (i < j || (i == j && v < w))
    ensures Scale(v, i) < Scale(w, j)
  {
    Pow2Monotone(i, j);
    var p, q := Pow2(i), Pow2(j);
    hide Pow2;
    if i < j {
      MulMonotone(v + 1, SIGN / 2 * W * 2, p);
      MulMonotone(2 * p, q, SIGN / 2 * W);
      MulMonotone(SIGN / 2 * W, w, q);
    } else {
      MulMonotone(v + 1, w, p);
    }
    Distribute(v, 1, p);
  }

  /** The sum stage on the scaled magnitudes a and c of the two terms. */
  lemma SumStage(p: Unpacked, z: Unpacked, a: nat, c: nat)
    requires Normalised(p) && Normalised(z) && Full(p) == Scale(a, 401) && Full(z) == Scale(c, 401)
    requires z.exp <= 2046
    ensures var r := if Smaller(p, z) then AddAligned(z, p) else AddAligned(p, z);
            var e := Signed(p.sign, a) + Signed(z.sign, c);
            Pack(r) == (if e < 0 || (e == 0 && p.sign == 1) then SIGN else 0)
                       + Round(Ratio(Magnitude(e)))
  {
    hide Normalised, Full, Pack, Round, Ratio, AddAligned, Scale, Smaller, Pow2;
    if Smaller(p, z) {
      SmallerMeansLess(p, z);
      SmallerOnce(p, z);
      OrderedStage(z, p, c, a);
    } else {
      OrderedStage(p, z, a, c);
    }
  }

  lemma OrderedStage(big: Unpacked, small: Unpacked, b: nat, s: nat)
    requires Normalised(big) && Normalised(small) && !Smaller(big, small)
    requires Full(big) == Scale(b, 401) && Full(small) == Scale(s, 401)
    requires big.exp <= 2046 || small.exp <= 2046
    ensures var e := Signed(big.sign, b) + Signed(small.sign, s);
            Pack(AddAligned(big, small)) ==
              (if e < 0 || (e == 0 && big.sign == 1) then SIGN else 0) + Round(Ratio(Magnitude(e)))
    ensures big.sign != small.sign ==> s <= b
  {
    hide Normalised, Full, Pack, Round, Ratio, AddAligned, Scale, Smaller, Pow2;
    NormalisedSign(big);
    NormalisedSign(small);
    if big.sign == small.sign {
      SameSignStage(big, small, b, s);
    } else {
      DifferenceStage(big, small, b, s);
    }
  }

  lemma NormalisedSign(u: Unpacked)
    requires Normalised(u)
    ensures u.sign <= 1 && u.exp <= 3070
  {}

  lemma ScalePositive(n: nat, k: nat)
    requires Scale(n, k) > 0
    ensures n > 0
  {}

  lemma SameSignStage(big: Unpacked, small: Unpacked, b: nat, s: nat)
    requires Normalised(big) && Normalised(small) && !Smaller(big, small) && big.sign == small.sign
    requires Full(big) == Scale(b, 401) && Full(small) == Scale(s, 401)
    ensures b + s > 0
    ensures Pack(AddAligned(big, small)) == big.sign * SIGN + Round(Ratio(b + s))
  {
    hide Normalised, Full, Pack, Round, Ratio, Pow2, AddAligned, Delivers, Smaller, Scale;
    AddAlignedDelivers(big, small);
    FullPositive(small);
    NormalisedSign(big);
    ScalePositive(s, 401);
    ScaleSum(b, s, 401);
    PackDelivered(AddAligned(big, small), big.sign, Full(big) + Full(small), b + s, big.exp);
  }

  lemma DifferenceStage(big: Unpacked, small: Unpacked, b: nat, s: nat)
    requires Normalised(big) && Normalised(small) && !Smaller(big, small)
    requires Full(big) == Scale(b, 401) && Full(small) == Scale(s, 401)
    requires big.sign != small.sign && (big.exp <= 2046 || small.exp <= 2046)
    ensures s <= b
    ensures Pack(AddAligned(big, small)) ==
              big.sign * SIGN + Round(Ratio(b - s))
  {
    hide Normalised, Full, Pack, Round, Ratio, Pow2, AddAligned, Scale, Delivers, Smaller;
    AddAlignedDelivers(big, small);
    NormalisedSign(big);
    EqualExponents(big, small);
    ScaleOrder(b, s, 401);
    PackDelivered(AddAligned(big, small), big.sign, Full(big) - Full(small), b - s, big.exp);
  }

  lemma EqualExponents(big: Unpacked, small: Unpacked)
    requires Normalised(big) && Normalised(small) && !Smaller(big, small)
    ensures Full(big) == Full(small) ==> big.exp == small.exp
  {
    hide Normalised, Full;
    if Smaller(small, big) { SmallerMeansLess(small, big); }
  }

  lemma SmallerOnce(p: Unpacked, z: Unpacked)
    ensures Smaller(p, z) ==> !Smaller(z, p)
  {}

  lemma ScaleSum(a: nat, c: nat, k: nat)
    ensures Scale(a, k) + Scale(c, k) == Scale(a + c, k)
  {
    Distribute(a, c, Pow2(k));
  }

  lemma ScaleOrder(b: nat, s: nat, k: nat)
    requires Scale(s, k) <= Scale(b, k)
    ensures s <= b && Scale(b, k) - Scale(s, k) == Scale(b - s, k)
  {
    if s > b {
      MulMonotone(b + 1, s, Pow2(k));
      Distribute(b, 1, Pow2(k));
    }
    Distribute(b - s, s, Pow2(k));
  }

  /** FMA rounds exactly once, for all finite nonzero operands. */
  lemma FmaRoundsOnce(x: word, y: word, z: word)
    requires FiniteNonzero(x) && FiniteNonzero(y) && FiniteNonzero(z)
    ensures var e := Exact(x, y, z);
            var negative := e < 0 || (e == 0 && SignBit(x) != SignBit(y));
            FMA(x, y, z) == Bits((if negative then SIGN else 0) + Round(Ratio(Magnitude(e))))
  {
    hide Product, Widen, Split, Full, Scale, Pow2, Pack, AddAligned, Exact, Mag, Round, Ratio, FMA, Smaller, MagBits, SignBit, ProductMag, AddendMag, Normalised;
    Operands(x, y, z);
    SignedExact(x, y, z);
    FmaStages(x, y, z);
    NormalisedSign(Product(Split(x), Split(y)));
    SumStage(Product(Split(x), Split(y)), Widen(Split(z)), ProductMag(x, y), AddendMag(z));
  }

  lemma FmaStages(x: word, y: word, z: word)
    requires FiniteNonzero(x) && FiniteNonzero(y) && FiniteNonzero(z)
    ensures var p, w := Product(Split(x), Split(y)), Widen(Split(z));
            FMA(x, y, z) == Bits(Pack(if Smaller(p, w) then AddAligned(w, p) else AddAligned(p, w)))
    ensures Widen(Split(z)).exp <= 2046
  {
    SplitValue(z);
    hide Product, Pack, AddAligned, Mag, Smaller, Split;
  }

  /** So the magnitude of the result is the correctly rounded one. */
  lemma FmaIsCorrectlyRounded(x: word, y: word, z: word)
    requires FiniteNonzero(x) && FiniteNonzero(y) && FiniteNonzero(z)
    ensures FMA(x, y, z).Bits? && CorrectlyRounded(Ratio(Magnitude(Exact(x, y, z))), MagBits(FMA(x, y, z).b))
  {
    hide FMA, Exact, Ratio, Round, CorrectlyRounded;
    FmaRoundsOnce(x, y, z);
    var v := Ratio(Magnitude(Exact(x, y, z)));
    RoundIsCorrect(v);
    assert MagBits(FMA(x, y, z).b) == Round(v);
  }

  /** An exact zero has the sign of the product.  Section 6.3 of IEEE 754-2008
      asks for +0, so the result is the right one exactly if x and y have the
      same sign. */
  lemma ExactZero(x: word, y: word, z: word)
    requires FiniteNonzero(x) && FiniteNonzero(y) && FiniteNonzero(z) && Exact(x, y, z) == 0
    ensures FMA(x, y, z) == Bits(if SignBit(x) == SignBit(y) then 0 else SIGN)
  {
    hide FMA, Exact, Round, Ratio;
    FmaRoundsOnce(x, y, z);
    RatioZero();
    hide Mag;
    RoundExact(0);
  }

  const ONE: word := 0x3FF0_0000_0000_0000

  /** (-1)*1 + 1 is -0. */
  lemma MinusOneTimesOnePlusOne()
    ensures Exact(SIGN + ONE, ONE, ONE) == 0 && FMA(SIGN + ONE, ONE, ONE) == Bits(SIGN)
  {
    hide Pow2, FMA;
    Pow2Values();
    Pow2Add(52, 1022);
    MagOfFields(ONE, 1023, 0);
    ScaleDef(FRAC, 1022);
    hide Mag, Scale;
    assert MagBits(ONE) == ONE && MagBits(SIGN + ONE) == ONE && SignBit(SIGN + ONE) == 1 && SignBit(ONE) == 0;
    var p: int := Pow2(1074);
    assert Value(SIGN + ONE) == -p && Value(ONE) == p;
    assert -p * p + p * p == 0;
    ExactZero(SIGN + ONE, ONE, ONE);
  }

  /** An infinite or NaN addend is returned as it is. */
  lemma InfiniteAddend(x: word, y: word, z: word)
    requires FiniteNonzero(x) && FiniteNonzero(y) && MagBits(z) >= INF
    ensures FMA(x, y, z) == Bits(z)
  {}

  /** From half way between the largest finite magnitude and 2^1024 on, a value
      rounds to infinity. */
  lemma OverflowsHalfWay(v: real)
    requires v >= 0.0
    ensures Round(v) == INF <==> 2.0 * v >= (Mag(INF - 1) + Mag(INF)) as real
  {
    hide Mag, Round;
    RoundIsCorrect(v);
    var c := Round(v);
    MagMonotone(INF - 1, INF);
    if c < INF - 1 { MagMonotone(c, INF - 1); }
  }

  /** With finite factors, the result is NaN only if the addend is, and infinite
      only if the addend is or if the exact sum is beyond the largest finite
      number by half a gap. */
  lemma WhenNotFinite(x: word, y: word, z: word)
    requires FiniteNonzero(x) && FiniteNonzero(y) && MagBits(z) != 0
    ensures FMA(x, y, z).Bits?
    ensures var b := FMA(x, y, z).b;
            && (IsNaN(b) <==> IsNaN(z)) && (IsInf(z) ==> IsInf(b) && SignBit(b) == SignBit(z))
            && (FiniteNonzero(z) ==>
                  (IsInf(b) <==> 2.0 * Ratio(Magnitude(Exact(x, y, z))) >= (Mag(INF - 1) + Mag(INF)) as real))
  {
    hide FMA, Exact, Ratio, Round, Mag, Magnitude;
    if FiniteNonzero(z) {
      FmaRoundsOnce(x, y, z);
      OverflowsHalfWay(Ratio(Magnitude(Exact(x, y, z))));
    } else {
      InfiniteAddend(x, y, z);
    }
  }
}

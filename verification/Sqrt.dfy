/** src/math/sqrt.go: the digit-by-digit square root is correctly rounded. */
module Sqrt {
  import opened Words
  import opened Ieee754

  const UVNAN: word := 0x7FF8_0000_0000_0001

  // ----- the specification -----

  /** c is the magnitude nearest to the square root of x, which is in units of
      2^-2148: x lies strictly inside the squares of the two midpoints around
      c.  A root never falls on a midpoint. */
  ghost predicate NearestRoot(x: nat, c: nat) {
    && 0 < c < INF
    && Square(Mag(c - 1) + Mag(c)) < 4 * x < Square(Mag(c) + Mag(c + 1))
  }

  function Square(a: int): int { a * a }

  /** The radicand of a float, in units of 2^-2148. */
  function Radicand(b: word): nat { Scale(Mag(MagBits(b)), 1074) }

  /** NearestRoot is rounding to nearest of the real root. */
  lemma NearestRootRounds(x: nat, c: nat, root: real)
    requires NearestRoot(x, c) && root >= 0.0 && root * root == x as real
    ensures Round(root) == c
  {
    var lo, hi := Mag(c - 1) + Mag(c), Mag(c) + Mag(c + 1);
    SquareOrder(lo, x, root);
    SquareOrder(hi, x, root);
    hide Mag;
    RoundByInterval(root, c);
  }

  lemma SquareOrder(a: nat, x: nat, root: real)
    requires root >= 0.0 && root * root == x as real
    ensures Square(a) < 4 * x ==> a as real < 2.0 * root
    ensures Square(a) > 4 * x ==> a as real > 2.0 * root
  {
    var v := a as real;
    assert v * v == Square(a) as real;
    assert (2.0 * root) * (2.0 * root) == 4.0 * x as real;
    RealSquares(v, 2.0 * root);
    RealSquares(2.0 * root, v);
  }

  lemma RealSquares(u: real, v: real)
    requires u >= 0.0 && v >= 0.0
    ensures u * u < v * v ==> u < v
  {
    if u >= v {
      assert u * u >= u * v >= v * v;
    }
  }

  // ----- the digit loop -----

  /** After the digits above 2^(k+1): q is the root of y truncated to them, s
      is twice q, and ix is the remainder, scaled. */
  ghost predicate Digits(y: nat, ix: nat, q: nat, s: nat, w: nat) {
    && s == 2 * q
    && ix * w == 2 * (y - q * q)
    && q * q <= y < (q + w) * (q + w)
    && q + w <= 0x40_0000_0000_0000
  }

  lemma DigitBounds(y: nat, ix: nat, q: nat, s: nat, w: nat)
    requires Digits(y, ix, q, s, w) && w > 0
    ensures ix < 4 * q + 2 * w && s == 2 * q && q + w <= 0x40_0000_0000_0000
  {
    assert (q + w) * (q + w) == q * q + 2 * q * w + w * w;
    assert ix * w < (4 * q + 2 * w) * w;
    if ix >= 4 * q + 2 * w {
      MulMonotone(4 * q + 2 * w, ix, w);
    }
  }

  lemma DigitStep(y: nat, ix: nat, q: nat, s: nat, r: nat)
    requires Digits(y, ix, q, s, 2 * r) && r > 0
    ensures var t := s + r;
            if t <= ix then Digits(y, 2 * (ix - t), q + r, t + r, r) else Digits(y, 2 * ix, q, s, r)
  {
    hide Digits;
    if s + r <= ix { DigitTaken(y, ix, q, s, r); } else { DigitSkipped(y, ix, q, s, r); }
  }

  lemma DigitTaken(y: nat, ix: nat, q: nat, s: nat, r: nat)
    requires Digits(y, ix, q, s, 2 * r) && r > 0 && s + r <= ix
    ensures Digits(y, 2 * (ix - (s + r)), q + r, s + r + r, r)
  {
    Doubled(ix, r);
    Doubled(ix - (s + r), r);
    NextSquare(q, r);
    MulMonotone(s + r, ix, r);
    Less(ix, s + r, r);
    assert q + r + r == q + 2 * r;
  }

  lemma DigitSkipped(y: nat, ix: nat, q: nat, s: nat, r: nat)
    requires Digits(y, ix, q, s, 2 * r) && r > 0 && ix < s + r
    ensures Digits(y, 2 * ix, q, s, r)
  {
    Doubled(ix, r);
    NextSquare(q, r);
    MulMonotone(ix + 1, s + r, r);
    Less(ix + 1, 1, r);
  }

  lemma Doubled(a: int, r: int)
    ensures a * (2 * r) == 2 * (a * r) == (2 * a) * r
  {}

  lemma NextSquare(q: int, r: int)
    ensures (q + r) * (q + r) == q * q + (2 * q + r) * r
  {}

  lemma Less(a: int, b: int, r: int)
    ensures (a - b) * r == a * r - b * r
  {}

  lemma DigitsStart(ix0: word)
    requires 0x20_0000_0000_0000 <= ix0 < 0x80_0000_0000_0000
    ensures Digits(ix0 * 0x20_0000_0000_0000, ix0, 0, 0, 0x40_0000_0000_0000)
  {}

  lemma DigitsEnd(y: nat, ix: nat, q: nat, s: nat)
    requires Digits(y, ix, q, s, 1)
    ensures q * q <= y < (q + 1) * (q + 1) && (ix == 0 <==> q * q == y) && q < 0x40_0000_0000_0000
  {}

  /** No word of the loop wraps. */
  lemma DigitWords(y: nat, ix: word, q: word, s: word, r: word)
    requires Digits(y, ix, q, s, 2 * r) && r > 0
    ensures UAdd(s, r) == s + r && Shl(ix, 1) == 2 * ix && Shr(r, 1) == r / 2
    ensures s + r <= ix ==>
              && USub(ix, s + r) == ix - (s + r) && Shl(ix - (s + r), 1) == 2 * (ix - (s + r))
              && UAdd(q, r) == q + r && UAdd(s + r, r) == s + r + r
  {
    hide Digits, UAdd, USub, Shl, Shr;
    DigitBounds(y, ix, q, s, 2 * r);
    NoWrap(s, r);
    NoWrap(s + r, r);
    NoWrap(q, r);
    ByOne(ix);
    ByOne(r);
    if s + r <= ix {
      NoWrap(ix, s + r);
      ByOne(ix - (s + r));
    }
  }

  /** The loop of sqrt: the integer square root of ix * 2^53, and whether it
      left a remainder. */
  method RootDigits(ix0: word) returns (q: word, ix: word)
    requires 0x20_0000_0000_0000 <= ix0 < 0x80_0000_0000_0000
    ensures q * q <= ix0 * 0x20_0000_0000_0000 < (q + 1) * (q + 1)
    ensures ix == 0 <==> q * q == ix0 * 0x20_0000_0000_0000
    ensures q < 0x40_0000_0000_0000
  {
    hide Digits, UAdd, USub, Shr;
    ghost var y := ix0 * 0x20_0000_0000_0000;
    Pow2Values();
    ix := ix0;
    q := 0;
    var s: word := 0;
    var r: word := Shl(1, 53);
    DigitsStart(ix0);
    ghost var w := 2 * r;
    while r != 0
      invariant w == 2 * r || (w == 1 && r == 0)
      invariant Digits(y, ix, q, s, w)
      invariant exists k: nat :: w == Pow2(k)
      decreases r
    {
      DigitWords(y, ix, q, s, r);
      DigitStep(y, ix, q, s, r);
      HalfPower(w);
      var t := UAdd(s, r);
      if t <= ix {
        s := UAdd(t, r);
        ix := USub(ix, t);
        q := UAdd(q, r);
      }
      ix := Shl(ix, 1);
      r := Shr(r, 1);
      w := w / 2;
    }
    DigitsEnd(y, ix, q, s);
  }

  lemma HalfPower(w: nat)
    requires w > 1 && exists k: nat :: w == Pow2(k)
    ensures w % 2 == 0 && exists k: nat :: w / 2 == Pow2(k)
    ensures w / 2 == 1 || w / 2 % 2 == 0
  {
    var k: nat :| w == Pow2(k);
    assert w / 2 == Pow2(k - 1);
  }

  // ----- normalisation and the final rounding -----

  /** Clearing the exponent bits and setting the hidden bit. */
  lemma StripExponent(ix: word)
    requires ix < SIGN
    ensures Or(And(ix, BitNot(Shl(EXP_MASK, 52))), Shl(1, 52)) == FRAC + ix % FRAC
  {
    hide And, Or, BitNot, Shl;
    var e, f := Divide(ix, FRAC);
    FieldShifts();
    ClearExponent(ix, e, f);
    SetHidden(f);
  }

  lemma FieldShifts()
    ensures BitNot(Shl(EXP_MASK, 52)) == 2048 * FRAC + (FRAC - 1) && Shl(1, 52) == FRAC
  {
    Pow2Values();
  }

  lemma ClearExponent(ix: word, e: nat, f: nat)
    requires ix == e * FRAC + f && f < FRAC && e < 2048
    ensures And(ix, 2048 * FRAC + (FRAC - 1)) == f
  {
    Pow2Values();
    hide Pow2, BitAnd;
    HighBitClear(e);
    AndMask(f, 52);
    AndSplit(e, f, 2048, FRAC - 1, 52);
    DivModUnique(f, FRAC, 0, f);
  }

  lemma HighBitClear(e: nat)
    requires e < 2048
    ensures BitAnd(e, 2048) == 0
  {
    Pow2Values();
    AndHighBit(e, 11);
  }

  lemma SetHidden(f: nat)
    requires f < FRAC
    ensures Or(f, FRAC) == FRAC + f
  {
    Pow2Values();
    hide Pow2, BitOr;
    OrDisjoint(1, f, 52);
  }

  lemma HiddenBit(ix: word)
    requires ix < 2 * FRAC
    ensures And(ix, Shl(1, 52)) == 0 <==> ix < FRAC
  {
    hide Pow2, BitAnd, BitNot, Shl;
    Pow2Values();
    FieldShifts();
    var e, f := Divide(ix, FRAC);
    AndSplit(e, f, 1, 0, 52);
    LowBit(e);
    AndNone(f);
  }

  lemma AndNone(f: nat)
    ensures BitAnd(f, 0) == 0
  {}

  lemma LowBit(q: word)
    ensures And(q, 1) == q % 2
  {
    assert Pow2(1) == 2;
    AndMask(q, 1);
  }

  /** The rounded root, as twice a 53-bit significand. */
  function RoundDigits(y: nat, q: nat): nat { if q * q == y then q else q + q % 2 }

  /** Twice the significand is the even number nearest to the root of y: an
      exact odd root cannot be, because y is even. */
  lemma EvenRoot(y: nat, q: nat)
    requires q * q <= y < (q + 1) * (q + 1) && y % 2 == 0 && q > 0
    ensures var m := RoundDigits(y, q);
            m % 2 == 0 && m > 0 && Square(m - 1) < y < Square(m + 1)
    ensures var m := RoundDigits(y, q); q <= m <= q + 1
  {
    OddSquare(q);
    var m := RoundDigits(y, q);
    assert Square(q) == q * q && Square(q + 1) == (q + 1) * (q + 1);
    SquareGrows(q - 1);
    SquareGrows(q);
    SquareGrows(q + 1);
  }

  lemma OddSquare(q: nat)
    ensures q % 2 == 1 ==> q * q % 2 == 1
  {
    var h := q / 2;
    if q % 2 == 1 {
      assert q * q == 2 * (2 * (h * h) + 2 * h) + 1;
    }
  }

  lemma SquareGrows(a: nat)
    ensures Square(a) < Square(a + 1)
  {}

  lemma ScaledSquare(a: nat, y: nat, u: nat, x: nat)
    requires u > 0 && x == y * (u * u)
    ensures Square(a) < y ==> Square(a * u) < x
    ensures Square(a) > y ==> Square(a * u) > x
  {
    assert Square(a * u) == Square(a) * (u * u);
    if Square(a) < y { MulMonotone(Square(a) + 1, y, u * u); }
    if Square(a) > y { MulMonotone(y + 1, Square(a), u * u); }
  }

  /** The packed root, between the squares of its midpoints. */
  lemma PackedRoot(y: nat, q: nat, e: nat, x: nat)
    requires q * q <= y < (q + 1) * (q + 1) && y % 2 == 0
    requires 2 * FRAC <= q < 4 * FRAC && 0 < e < 2045
    requires x == Scale(y, 2 * (e - 1))
    ensures NearestRoot(x, e * FRAC + RoundDigits(y, q) / 2)
  {
    hide Pow2, Scale, Mag, RoundDigits;
    var m := RoundDigits(y, q);
    EvenRoot(y, q);
    var c, u := e * FRAC + m / 2, Pow2(e - 1);
    DoubleScale(y, e - 1);
    HalfScale(m, e);
    GapAbove(m / 2, e);
    UpperMidpoint(m, y, u, x, Mag(c) + Mag(c + 1));
    if m > 2 * FRAC {
      MagEncode(m / 2 - 1, e);
      ScaleStep(m / 2 - 1, e);
      LowerMidpoint(m, y, u, x, Mag(c - 1) + Mag(c));
    } else {
      MagMonotone(c - 1, c);
      StartMidpoint(m, y, u, x, Mag(c - 1) + Mag(c));
    }
  }

  lemma DoubleScale(y: nat, i: nat)
    ensures Scale(y, 2 * i) == y * (Pow2(i) * Pow2(i))
  {
    Pow2Add(i, i);
  }

  lemma HalfScale(m: nat, e: nat)
    requires m % 2 == 0 && e > 0
    ensures Scale(m / 2, e) == m * Pow2(e - 1) && Pow2(e) == 2 * Pow2(e - 1)
  {
    assert m / 2 * (2 * Pow2(e - 1)) == m * Pow2(e - 1);
  }

  lemma UpperMidpoint(m: nat, y: nat, u: nat, x: nat, hi: nat)
    requires u > 0 && y < Square(m + 1) && x == y * (u * u) && 2 * (m * u) + 2 * u <= hi
    ensures 4 * x < Square(hi)
  {
    hide Square;
    ScaledSquare(m + 1, y, u, x);
    var mu := (m + 1) * u;
    assert mu == m * u + u;
    SquareMonotone(2 * mu, hi);
    SquareMonotone(mu, mu);
  }

  lemma LowerMidpoint(m: nat, y: nat, u: nat, x: nat, lo: nat)
    requires u > 0 && m > 0 && Square(m - 1) < y && x == y * (u * u) && lo == 2 * (m * u) - 2 * u
    ensures Square(lo) < 4 * x
  {
    hide Square;
    ScaledSquare(m - 1, y, u, x);
    var mu := (m - 1) * u;
    assert mu == m * u - u;
    SquareMonotone(mu, mu);
  }

  lemma StartMidpoint(m: nat, y: nat, u: nat, x: nat, lo: nat)
    requires m * m <= y && x == y * (u * u) && lo < 2 * (m * u)
    ensures Square(lo) < 4 * x
  {
    var mu := m * u;
    assert Square(mu) == m * m * (u * u);
    MulMonotone(m * m, y, u * u);
    hide Square;
    SquareGrows(lo);
    SquareMonotone(lo + 1, 2 * mu);
    SquareMonotone(mu, mu);
  }

  lemma SquareMonotone(a: nat, b: nat)
    requires a <= b
    ensures Square(a) <= Square(b) && Square(2 * a) == 4 * Square(a)
  {}

  /** What normalisation keeps: the magnitude of x is m * 2^exp, both measured
      from the unit of the smallest subnormal. */
  ghost predicate Normalises(x: word, m: nat, exp: int) {
    && FRAC <= m < 2 * FRAC && -51 <= exp <= 2046
    && Scale(Mag(x), 52) == Scale(m, exp + 51)
  }

  lemma NormalNormalises(x: word)
    requires FRAC <= x < INF
    ensures x % FRAC < FRAC && Normalises(x, FRAC + x % FRAC, x / FRAC)
  {
    var e, f := x / FRAC, x % FRAC;
    hide Mag;
    MagOfFields(x, e, f);
    ScaleScale(FRAC + f, e - 1, 52);
  }

  lemma SubnormalNormalises(x: word, ix: word, k: nat)
    requires 0 < x < FRAC && FRAC <= ix < 2 * FRAC && ix == Scale(x, k)
    ensures Normalises(x, ix, 1 - k)
  {
    if k > 52 {
      Pow2Monotone(53, k);
      Pow2Values();
      MulMonotone(1, x, Pow2(k));
    }
    MagOfFields(x, 0, x);
    ScaleScale(x, k, 52 - k);
  }

  /** The radicand, from the normalised significand and the halved exponent. */
  lemma HalvedExponent(x: word, m: nat, exp: int)
    requires Normalises(x, m, exp) && x < INF
    ensures var e := exp - BIAS; var h := e / 2; var ix := if e % 2 == 1 then 2 * m else m;
            0 < h + 1022 < 2045 && 2 * FRAC <= 2 * ix < 8 * FRAC
            && Radicand(x) == Scale(2 * ix * 0x20_0000_0000_0000, 2 * (h + 1022 - 1))
  {
    var e := exp - BIAS;
    var h := e / 2;
    hide Mag, Scale, Radicand;
    RadicandOf(x, m, exp + 51);
    var ix := if e % 2 == 1 then 2 * m else m;
    if e % 2 == 1 { DoubleIsShift(m, exp + 1072); }
    assert exp + 51 + 1022 == (if e % 2 == 1 then 1 else 0) + 2 * h + 2096;
    ShiftedRadicand(ix, 2 * (h + 1021));
  }

  lemma RadicandOf(x: word, m: nat, k: nat)
    requires x < INF && Scale(Mag(x), 52) == Scale(m, k)
    ensures Radicand(x) == Scale(m, k + 1022)
  {
    hide Mag, Scale;
    assert MagBits(x) == x;
    ScaleScale(Mag(x), 52, 1022);
    ScaleScale(m, k, 1022);
  }

  lemma DoubleScaled(m: nat, k: nat)
    ensures Scale(m, k + 1) == 2 * Scale(m, k)
  {
    MulAssoc(m, 2, Pow2(k));
    MulAssoc(2, m, Pow2(k));
  }

  lemma ShiftedRadicand(ix: nat, k: nat)
    ensures Scale(2 * ix * 0x20_0000_0000_0000, k) == Scale(ix, 54 + k)
  {
    Pow2Values();
    assert Pow2(54) == 2 * Pow2(53);
    ScaleDef(ix, 54);
    ScaleScale(ix, 54, k);
  }

  /** The loop that normalises a subnormal number. */
  method NormaliseSubnormal(x: word) returns (ix: word, exp: int)
    requires 0 < x < FRAC
    ensures FRAC <= ix < 2 * FRAC && Normalises(x, ix, exp)
  {
    hide And, Normalises, Shl, Scale;
    ix := x;
    exp := 0;
    ScaleDef(x, 0);
    HiddenBit(ix);
    while And(ix, Shl(1, 52)) == 0
      invariant 0 < ix < 2 * FRAC && exp <= 0 && ix == Scale(x, -exp)
      invariant And(ix, Shl(1, 52)) == 0 <==> ix < FRAC
      decreases 2 * FRAC - ix
    {
      DoubleScaled(x, -exp);
      ByOne(ix);
      ix := Shl(ix, 1);
      exp := exp - 1;
      HiddenBit(ix);
    }
    SubnormalNormalises(x, ix, -exp);
    exp := exp + 1;
  }

  /** The last rounding, and packing. */
  function RoundRoot(q: word, rest: word, exp: int): word {
    var r := if rest != 0 then UAdd(q, And(q, 1)) else q;
    UAdd(Shr(r, 1), Shl(USub(exp - 1 + BIAS, 0), 52))
  }

  lemma RoundRootBits(y: nat, q: word, rest: word, e: nat)
    requires 2 * FRAC <= q < 4 * FRAC && 0 < e < 2045 && (rest == 0 <==> q * q == y)
    ensures RoundRoot(q, rest, e + 1 - BIAS) == e * FRAC + RoundDigits(y, q) / 2
  {
    hide And, UAdd, USub, Shl, Shr;
    LowBit(q);
    NoWrap(q, q % 2);
    var r := if rest != 0 then q + q % 2 else q;
    assert RoundDigits(y, q) == r;
    ByOne(r);
    NoWrap(e, 0);
    ShiftToExponent(e);
    NoWrap(r / 2, e * FRAC);
  }

  lemma ShiftToExponent(e: nat)
    requires e < 2048
    ensures Shl(e, 52) == e * FRAC
  {
    Pow2Values();
  }

  lemma RootSize(y: nat, q: nat)
    requires 2 * FRAC * (2 * FRAC) <= y < (q + 1) * (q + 1)
    ensures 2 * FRAC <= q
  {
    if q + 1 <= 2 * FRAC {
      MulMonotone(q + 1, 2 * FRAC, q + 1);
      MulMonotone(q + 1, 2 * FRAC, 2 * FRAC);
    }
  }

  /** The square root of src/math/sqrt.go. */
  method Sqrt(x: word) returns (b: word)
    ensures MagBits(x) == 0 || IsNaN(x) || x == INF ==> b == x
    ensures SignBit(x) == 1 && 0 < MagBits(x) <= INF ==> b == UVNAN
    ensures 0 < x < INF ==> NearestRoot(Radicand(x), b)
  {
    if MagBits(x) == 0 || IsNaN(x) || x == INF {
      return x;
    }
    if SignBit(x) == 1 {
      return UVNAN;
    }
    b := PositiveSqrt(x);
  }

  lemma ExponentField(x: word)
    requires x < INF
    ensures And(Shr(x, 52), EXP_MASK) == x / FRAC
  {
    Fields(x);
    hide And, Shr;
    DivModUnique(x, FRAC, And(Shr(x, 52), EXP_MASK), And(x, FRAC_MASK));
  }

  /** Unpacking, halving the exponent, and packing the rounded root. */
  method PositiveSqrt(x: word) returns (b: word)
    requires 0 < x < INF
    ensures NearestRoot(Radicand(x), b)
  {
    hide And, Or, Shr, Shl, BitNot, Normalises, NearestRoot, Radicand, Scale, Mag, RoundRoot, RoundDigits;
    var ix := x;
    ExponentField(x);
    var exp: int := And(Shr(ix, 52), EXP_MASK);
    if exp == 0 {
      ix, exp := NormaliseSubnormal(x);
    } else {
      NormalNormalises(x);
    }
    StripExponent(ix);
    exp := exp - BIAS;
    ix := And(ix, BitNot(Shl(EXP_MASK, 52)));
    ix := Or(ix, Shl(1, 52));
    HalvedExponent(x, ix, exp + BIAS);
    ByOne(ix);
    if exp % 2 == 1 {
      ix := Shl(ix, 1);
    }
    exp := exp / 2;
    ByOne(ix);
    ix := Shl(ix, 1);
    var q, rest := RootDigits(ix);
    b := RoundRoot(q, rest, exp);
    RootPacks(ix, q, rest, exp + 1022, Radicand(x));
  }

  lemma RootPacks(ix: word, q: word, rest: word, e: nat, x: nat)
    requires 2 * FRAC <= ix < 8 * FRAC && 0 < e < 2045
    requires var y := ix * 0x20_0000_0000_0000;
             q * q <= y < (q + 1) * (q + 1) && (rest == 0 <==> q * q == y) && q < 4 * FRAC
             && x == Scale(y, 2 * (e - 1))
    ensures NearestRoot(x, RoundRoot(q, rest, e - 1022))
  {
    hide NearestRoot, Scale, RoundRoot, RoundDigits;
    var y := ix * 0x20_0000_0000_0000;
    RootSize(y, q);
    PackedRoot(y, q, e, x);
    RoundRootBits(y, q, rest, e);
  }
}

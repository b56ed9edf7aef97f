/** The significand FMA hands to its rounding step stands for x*y + z. */
module FmaSum {
  import opened Words
  import opened Ieee754
  import opened DoubleWord
  import opened Sticky
  import opened Fma

  // ----- unpacking -----

  predicate Normal(s: Significand) {
    s.sign <= 1 && FRAC <= s.mantissa < 2 * FRAC && -51 <= s.exp <= 2046
  }

  /** split is exact, and normalises subnormal numbers too. */
  lemma SplitValue(b: word)
    requires 0 < MagBits(b) < INF
    ensures var s := Split(b);
            && Normal(s) && s.sign == SignBit(b)
            && Scale(Mag(MagBits(b)), 52) == Scale(s.mantissa, s.exp + 51)
  {
    var e, f := And(Shr(b, 52), EXP_MASK), And(b, FRAC_MASK);
    Fields(b);
    MagOfFields(MagBits(b), e, f);
    if e == 0 {
      hide Mag, And;
      SplitSubnormal(f);
    } else {
      hide Mag, And;
      SplitNormal(f, e);
    }
  }

  lemma SplitNormal(f: word, e: nat)
    requires f < FRAC && e > 0
    ensures Or(f, Shl(1, 52)) == FRAC + f
    ensures Scale(Scale(FRAC + f, e - 1), 52) == Scale(FRAC + f, e + 51)
  {
    Pow2Values();
    OrDisjoint(1, f, 52);
    ScaleScale(FRAC + f, e - 1, 52);
  }

  lemma SplitSubnormal(f: word)
    requires 0 < f < FRAC
    ensures var n := USub(LeadingZeros64(f), 11);
            && 1 <= n <= 52 && FRAC <= Shl(f, n) < 2 * FRAC
            && Scale(f, 52) == Scale(Shl(f, n), 52 - n)
  {
    hide Len, Pow2, Scale, Shl;
    var n := 53 - Len(f);
    NormalizedRange(f, Len(f));
    LenBound(f);
    ShlSmallWord(f, n);
    ScaleScale(f, n, 52 - n);
  }

  lemma ShlSmallWord(x: word, n: nat)
    requires n < 64 && Scale(x, n) < W
    ensures Shl(x, n) == Scale(x, n)
  {}

  lemma NormalizedRange(f: nat, k: nat)
    requires 0 < f < FRAC && k == Len(f)
    ensures 1 <= k <= 52 && FRAC <= Scale(f, 53 - k) < 2 * FRAC
  {
    Pow2Values();
    if k > 52 { Pow2Monotone(52, k - 1); }
    Pow2Add(k - 1, 53 - k);
    Pow2Add(k, 53 - k);
    hide Len;
    MulMonotone(Pow2(k - 1), f, Pow2(53 - k));
    MulMonotone(f + 1, Pow2(k), Pow2(53 - k));
    Distribute(f, 1, Pow2(53 - k));
  }

  // ----- the product, and the widened addend -----

  /** Bit 126 leads, and the lowest 21 bits are still free. */
  predicate Normalised(u: Unpacked) {
    && u.sign <= 1 && SIGN / 2 <= u.hi < SIGN && -1125 <= u.exp <= 3070
    && Val((u.hi, u.lo)) % 0x20_0000 == 0
  }

  /** An unpacked magnitude in units of 2^-(2148 + 401). */
  function Full(u: Unpacked): nat {
    if u.exp >= -1400 then Scale(Val((u.hi, u.lo)), u.exp + 1400) else 0
  }

  lemma ScaleMul(a: nat, i: nat, b: nat, j: nat)
    ensures Scale(a, i) * Scale(b, j) == Scale(a * b, i + j)
  {
    Pow2Add(i, j);
    var p, q := Pow2(i), Pow2(j);
    hide Pow2;
    assert a * p * (b * q) == a * b * (p * q);
  }

  /** The exact product of two split numbers, in the common unit. */
  lemma ExactProduct(mx: nat, x: nat, ex: int, my: nat, y: nat, ey: int)
    requires ex >= -51 && ey >= -51
    requires Scale(mx, 52) == Scale(x, ex + 51) && Scale(my, 52) == Scale(y, ey + 51)
    ensures Scale(mx * my, 401) == Scale(x * y, ex + ey + 399)
  {
    hide Scale, Pow2;
    ScaleMul(mx, 52, my, 52);
    ScaleMul(x, ex + 51, y, ey + 51);
    ScaleScale(mx * my, 104, 297);
    ScaleScale(x * y, ex + ey + 102, 297);
  }

  lemma ScaledProduct(x: nat, y: nat)
    ensures x * 1024 * (y * 2048) == x * y * 0x20_0000
  {}

  lemma ProductRange(x: nat, y: nat)
    requires FRAC <= x < 2 * FRAC && FRAC <= y < 2 * FRAC
    ensures FRAC * FRAC <= x * y < 2 * FRAC * (2 * FRAC)
  {
    MulMonotone(FRAC, x, y);
    MulMonotone(FRAC, y, FRAC);
    MulMonotone(x, 2 * FRAC - 1, y);
    MulMonotone(y, 2 * FRAC - 1, 2 * FRAC - 1);
  }

  lemma ShiftedWords(x: word, y: word)
    requires FRAC <= x < 2 * FRAC && FRAC <= y < 2 * FRAC
    ensures Shl(x, 10) == x * 1024 && Shl(y, 11) == y * 2048
  {
    Pow2Values();
  }

  lemma MulWords(x: word, y: word)
    requires FRAC <= x < 2 * FRAC && FRAC <= y < 2 * FRAC
    ensures var p := Mul64(Shl(x, 10), Shl(y, 11));
            && Val(p) == x * y * 0x20_0000
            && SIGN / 4 <= p.0 < SIGN
  {
    hide Shl, Mul64;
    ShiftedWords(x, y);
    ScaledProduct(x, y);
    ProductRange(x, y);
    WideRange(Mul64(x * 1024, y * 2048), x * y);
  }

  lemma WideRange(p: dword, xy: nat)
    requires Val(p) == xy * 0x20_0000 && FRAC * FRAC <= xy < 2 * FRAC * (2 * FRAC)
    ensures SIGN / 4 <= p.0 < SIGN
  {}

  lemma TopBitClear(hi: word)
    requires SIGN / 4 <= hi < SIGN
    ensures And(Shr(BitNot(hi), 62), 1) == if hi < SIGN / 2 then 1 else 0
  {
    Pow2Values();
    AndMask(Shr(BitNot(hi), 62), 1);
    assert BitNot(hi) / Pow2(62) == if hi < SIGN / 2 then 3 else 2;
  }

  /** shl is exact when nothing is shifted out. */
  lemma ShlExact(u: dword, n: nat)
    requires n < 128 && Scale(Val(u), n) < W * W
    ensures Val(ShlD(u.0, u.1, n)) == Scale(Val(u), n)
  {
    ShlValue(u.0, u.1, n);
  }

  /** The product of two split numbers, in the unit of Full. */
  function ProductAmount(x: Significand, y: Significand): nat {
    var e := x.exp + y.exp + 399;
    if e >= 0 then Scale(x.mantissa * y.mantissa, e) else 0
  }

  /** The product is exact. */
  lemma ProductValue(x: Significand, y: Significand)
    requires Normal(x) && Normal(y)
    ensures var u := Product(x, y);
            && Normalised(u) && (u.sign == 0 <==> x.sign == y.sign)
            && Full(u) == ProductAmount(x, y)
  {
    var p := Mul64(Shl(x.mantissa, 10), Shl(y.mantissa, 11));
    MulWords(x.mantissa, y.mantissa);
    TopBitClear(p.0);
    XorSign(x.sign, y.sign);
    var i := if p.0 < SIGN / 2 then 1 else 0;
    ShlOne(p, i);
    hide Mul64, Shl, Shr, And, Xor, BitNot, ShlD, Scale, Val, Pow2;
    ShiftedProduct(p, ShlD(p.0, p.1, i), x.mantissa * y.mantissa, i, x.exp + y.exp - 1022);
  }

  lemma ShiftedProduct(p: dword, r: dword, xy: nat, i: nat, e: int)
    requires i <= 1 && e >= -1124 && Val(p) == xy * 0x20_0000
    requires Val(r) == Scale(Val(p), i)
    ensures Val(r) % 0x20_0000 == 0
    ensures Scale(Val(r), e - i + 1400) == Scale(xy, e + 1421)
  {
    assert Scale(Val(p), i) == if i == 1 then 2 * Val(p) else Val(p);
    DivModUnique(Val(r), 0x20_0000, if i == 1 then 2 * xy else xy, 0);
    Pow2Values();
    ScaleDef(xy, 21);
    hide Scale, Pow2, Val;
    ScaleScale(Val(p), i, e - i + 1400);
    ScaleScale(xy, 21, e + 1400);
  }

  lemma ShlOne(p: dword, i: nat)
    requires i <= 1 && p.0 < SIGN && (i == 1 ==> p.0 < SIGN / 2)
    ensures var r := ShlD(p.0, p.1, i);
            && Val(r) == Scale(Val(p), i)
            && (if i == 1 then 2 * p.0 <= r.0 <= 2 * p.0 + 1 else r == p)
  {
    assert Scale(Val(p), i) == if i == 1 then 2 * Val(p) else Val(p);
    ShlExact(p, i);
  }

  lemma XorSign(a: word, b: word)
    requires a <= 1 && b <= 1
    ensures Xor(a, b) <= 1 && (Xor(a, b) == 0 <==> a == b)
  {}

  lemma WidenWord(m: word)
    requires FRAC <= m < 2 * FRAC
    ensures var h := Shl(m, 10);
            SIGN / 2 <= h < SIGN && Val((h, 0)) == Scale(m, 10) * W
  {
    Pow2Values();
    ShlSmallWord(m, 10);
  }

  lemma WidenValue(m: nat, z: Significand)
    requires Normal(z) && Scale(m, 52) == Scale(z.mantissa, z.exp + 51)
    ensures var u := Widen(z);
            Normalised(u) && u.sign == z.sign && Full(u) == Scale(m, 1475)
  {
    hide Scale, Pow2, Shl, Val;
    WidenWord(z.mantissa);
    ScaleScale(m, 52, 1423);
    ScaleScale(z.mantissa, z.exp + 51, 1423);
    WidenScale(z.mantissa, z.exp + 1400);
  }

  lemma WidenScale(m: nat, e: nat)
    ensures Scale(Scale(m, 10) * W, e) == Scale(m, e + 74)
    ensures Scale(m, 10) * W % 0x20_0000 == 0
  {
    ScaleScale(m, 10, 64);
    Pow2Values();
    ScaleScale(m, 74, e);
  }

  // ----- alignment -----

  /** p is not below z, in the order FMA uses to swap its operands. */
  lemma SwapOrder(p: Unpacked, z: Unpacked)
    ensures !Smaller(p, z) ==>
              p.exp > z.exp || (p.exp == z.exp && Val((p.hi, p.lo)) >= Val((z.hi, z.lo)))
    ensures Smaller(p, z) ==>
              z.exp > p.exp || (z.exp == p.exp && Val((z.hi, z.lo)) > Val((p.hi, p.lo)))
  {}

  function Aligned(z: Unpacked, d: nat): nat {
    StickyShift(Val((z.hi, z.lo)), d)
  }

  /** The aligned significand stands for z; if it had to drop a one, it is
      small. */
  lemma AlignedStands(z: Unpacked, d: nat)
    requires Normalised(z)
    ensures var a := Aligned(z, d); var k := z.exp + 1400 + d;
            && Stands(a, Full(z), k)
            && (d == 0 ==> a == Val((z.hi, z.lo)))
            && (d > 0 ==> a <= SIGN / 2 * W)
            && (a * Pow2(k) != Full(z) ==> a <= SIGN / 8 * W)
  {
    var v := Val((z.hi, z.lo));
    var k := z.exp + 1400;
    ScaleDef(v, k);
    hide Scale, Pow2, StickyShift, Stands;
    assert Stands(v, Full(z), k) by { ExactStands(v, Full(z), k); }
    Sticky.Shift(v, Full(z), k, d);
    assert v < SIGN * W;
    Pow2Values();
    if d == 0 { UnshiftedSticky(v); }
    if d > 0 { StickyBound(v, d, 1, SIGN / 2 * W); }
    if d > 21 { StickyBound(v, d, 3, SIGN / 8 * W); } else { ExactShift(v, k, d); }
  }

  lemma ExactStands(t: nat, n: nat, k: nat)
    requires n == t * Pow2(k)
    ensures Stands(t, n, k)
  {}

  lemma UnshiftedSticky(v: nat)
    ensures StickyShift(v, 0) == v
  {}

  lemma StickyBound(v: nat, d: nat, j: nat, h: nat)
    requires j <= d && v < h * Pow2(j)
    ensures StickyShift(v, d) <= h
  {
    Pow2Monotone(j, d);
    var q, r := Divide(v, Pow2(d));
    MulMonotone(Pow2(j), Pow2(d), h);
    if q >= h { MulMonotone(h, q, Pow2(d)); }
  }

  lemma ExactDivision(v: nat, d: nat) returns (q: nat)
    requires v % 0x20_0000 == 0 && d <= 21
    ensures v == q * Pow2(d) && v / Pow2(d) == q && v % Pow2(d) == 0
  {
    Pow2Values();
    Pow2Add(21 - d, d);
    var r, p := v / 0x20_0000, Pow2(21 - d);
    assert v == r * 0x20_0000;
    hide Pow2;
    MulAssoc(r, p, Pow2(d));
    q := r * p;
    DivModUnique(v, Pow2(d), q, 0);
  }

  lemma ExactSticky(v: nat, d: nat)
    requires v % Pow2(d) == 0
    ensures StickyShift(v, d) == v / Pow2(d)
  {}

  lemma ExactShift(v: nat, k: nat, d: nat)
    requires v % 0x20_0000 == 0 && d <= 21
    ensures StickyShift(v, d) * Pow2(k + d) == v * Pow2(k)
  {
    hide Pow2, StickyShift;
    var q := ExactDivision(v, d);
    ExactSticky(v, d);
    Pow2Add(d, k);
    MulAssoc(q, Pow2(d), Pow2(k));
  }

  // ----- adding and subtracting -----

  /** What FMA's sum stage owes its rounding stage: a normalised significand
      that stands for n, or a zero one when n is zero. */
  ghost predicate Delivers(s: Significand, sign: word, n: nat, top: int) {
    && s.sign == sign
    && (n > 0 ==> SIGN / 2 <= s.mantissa < SIGN && -1465 <= s.exp && Stands(s.mantissa, n, s.exp + 1465))
    && (n == 0 ==> s.mantissa == 0 && s.exp == top - 128)
  }

  lemma DifferenceWords(p: dword, a: dword)
    requires Val(a) <= Val(p)
    ensures var lo := Sub64(p.1, a.1, 0); var hi := Sub64(p.0, a.0, lo.1);
            Val((hi.0, lo.0)) == Val(p) - Val(a)
  {}

  lemma TopBit(hi: word)
    ensures Shr(hi, 63) == (if hi >= SIGN then 1 else 0) && Shr(BitNot(hi), 63) == 1 - Shr(hi, 63)
  {
    Pow2Values();
  }

  lemma HighPart(hi: word, lo: word)
    requires SIGN / 2 <= hi
    ensures var n := if hi >= SIGN then 65 else 64;
            Val((hi, lo)) / Pow2(n) == (if hi >= SIGN then hi / 2 else hi) && SIGN / 2 <= Val((hi, lo)) / Pow2(n) < SIGN
  {
    Pow2Values();
    assert Pow2(65) == 2 * W;
  }

  lemma StickyRange(v: nat, n: nat)
    requires SIGN / 2 <= v / Pow2(n) < SIGN
    ensures SIGN / 2 <= StickyShift(v, n) < SIGN
  {}

  /** Compressing a sum into one word. */
  lemma CompressSum(hi: word, lo: word)
    requires SIGN / 2 <= hi
    ensures var n := 64 + Shr(hi, 63);
            ShrCompress(hi, lo, n).1 == StickyShift(Val((hi, lo)), n)
            && SIGN / 2 <= StickyShift(Val((hi, lo)), n) < SIGN
  {
    hide ShrCompress, Shr, Val, StickyShift, Pow2, BitNot;
    var n := 64 + Shr(hi, 63);
    TopBit(hi);
    ShrCompressValue(hi, lo, n);
    HighPart(hi, lo);
    StickyRange(Val((hi, lo)), n);
    StickyWord(ShrCompress(hi, lo, n), StickyShift(Val((hi, lo)), n));
  }

  lemma StickyWord(u: dword, v: nat)
    requires Val(u) == v < W
    ensures u.1 == v
  {}

  lemma HighSum(p: dword, a: dword)
    requires SIGN / 2 <= p.0 < SIGN && a.0 < SIGN
    ensures var lo := Add64(p.1, a.1, 0); var hi := Add64(p.0, a.0, lo.1);
            SIGN / 2 <= hi.0 && Val((hi.0, lo.0)) == Val(p) + Val(a)
  {}

  lemma EvenMultiple(v: nat)
    requires v % 0x20_0000 == 0
    ensures v % 2 == 0
  {
    var q := v / 0x20_0000;
    DivModUnique(v, 2, q * 0x10_0000, 0);
  }

  lemma NormalisedRange(hi: word, lo: word)
    requires SIGN / 2 <= hi < SIGN
    ensures SIGN / 2 * W <= Val((hi, lo)) < SIGN * W
  {}

  lemma NormalisedValue(p: Unpacked)
    requires Normalised(p)
    ensures var v := Val((p.hi, p.lo));
            v % 2 == 0 && SIGN / 2 * W <= v < SIGN * W && Full(p) == Scale(v, p.exp + 1400)
  {
    hide Val, Scale;
    EvenMultiple(Val((p.hi, p.lo)));
    NormalisedRange(p.hi, p.lo);
  }

  lemma AddedParts(p: Unpacked, a: dword, h: word, l: word) returns (m: word)
    requires var lo := Add64(p.lo, a.1, 0); lo.0 == l && Add64(p.hi, a.0, lo.1).0 == h
    requires SIGN / 2 <= h
    ensures Shr(h, 63) <= 1 && m == StickyShift(Val((h, l)), 64 + Shr(h, 63)) && SIGN / 2 <= m < SIGN
    ensures Added(p, a) == Significand(p.sign, p.exp - 1 + Shr(h, 63), m)
  {
    hide Add64, ShrCompress, StickyShift, Val, Shr, BitNot;
    TopBit(h);
    CompressSum(h, l);
    m := StickyShift(Val((h, l)), 64 + Shr(h, 63));
  }

  lemma AddedDelivers(p: Unpacked, a: dword, n: nat)
    requires Normalised(p) && a.0 < SIGN && n > 0 && Stands(Val(a), n, p.exp + 1400)
    ensures Delivers(Added(p, a), p.sign, Full(p) + n, p.exp)
  {
    hide Stands, Add64, Scale, Added, Val, Shr, StickyShift, Pow2, Full;
    var k := p.exp + 1400;
    var v := Val((p.hi, p.lo));
    NormalisedValue(p);
    HighSum((p.hi, p.lo), a);
    ScaleDef(v, k);
    AddEven(v, Val(a), n, k);
    var lo := Add64(p.lo, a.1, 0);
    var hi := Add64(p.hi, a.0, lo.1).0;
    var m := AddedParts(p, a, hi, lo.0);
    Sticky.Shift(Val((hi, lo.0)), Full(p) + n, k, 64 + Shr(hi, 63));
  }

  // Cancellation: shifting left loses nothing, because a significand that had
  // to drop a one cannot cancel by more than one bit.

  lemma FoldLow(m: dword)
    ensures Or(m.0, NonZero(m.1)) == StickyShift(Val(m), 64)
  {
    Pow2Values();
    DivModUnique(Val(m), W, m.0, m.1);
    OrBit(m.0, NonZero(m.1));
  }

  lemma ShiftCancel(t: nat, s: nat)
    requires s <= 64
    ensures StickyShift(Scale(t, s), 64) == StickyShift(t, 64 - s)
  {
    var p, d := Pow2(s), Pow2(64 - s);
    Pow2Add(s, 64 - s);
    CutShift(t, p, d);
    var q, r := Divide(t, d);
    MulMonotone(1, p, r);
  }

  /** Normalising a nonzero difference keeps what it stands for. */
  lemma NormaliseDifference(hi: word, lo: word, n: nat, k: nat) returns (s: nat, m: nat)
    requires 0 < Val((hi, lo)) < SIGN * W && k >= 128 && Stands(Val((hi, lo)), n, k)
    requires n != Val((hi, lo)) * Pow2(k) ==> SIGN / 4 * W <= Val((hi, lo))
    ensures s < 128 && s + 1 == LeadingZeros(hi, lo)
    ensures m == StickyShift(Val(ShlD(hi, lo, s)), 64)
    ensures SIGN / 2 <= m < SIGN && Stands(m, n, k - s + 64)
  {
    var v := Val((hi, lo));
    LeadingZerosValue(hi, lo);
    var l: int := LeadingZeros(hi, lo);
    hide Stands, StickyShift, LeadingZeros, ShlD, Val, Scale, Pow2;
    NormalisedShift(v, l - 1);
    s := l - 1;
    m := StickyShift(Scale(v, s), 64);
    ShlExact((hi, lo), s);
    ShiftedStands(v, n, k, s);
  }

  lemma ShiftedStands(v: nat, n: nat, k: nat, s: nat)
    requires s < 127 && k >= 128 && Stands(v, n, k) && v < Pow2(127 - s)
    requires n != v * Pow2(k) ==> SIGN / 4 * W <= v
    ensures Stands(StickyShift(Scale(v, s), 64), n, k - s + 64)
  {
    hide Stands, StickyShift, Pow2;
    if n == v * Pow2(k) {
      ExactScaled(v, n, k, s);
      hide Scale;
      Sticky.Shift(Scale(v, s), n, k - s, 64);
    } else {
      NearlyNormal(v, s);
      ShiftCancel(v, s);
      hide Scale;
      Sticky.Shift(v, n, k, 64 - s);
    }
  }

  lemma ExactScaled(v: nat, n: nat, k: nat, s: nat)
    requires s <= k && n == v * Pow2(k)
    ensures Stands(Scale(v, s), n, k - s)
  {
    ScaleScale(v, s, k - s);
    ScaleDef(Scale(v, s), k - s);
  }

  lemma NormalisedShift(v: nat, s: int)
    requires -1 <= s <= 127 && 0 < v < SIGN * W && v < Pow2(127 - s) && (s < 127 ==> Pow2(126 - s) <= v)
    ensures 0 <= s < 127 && SIGN / 2 * W <= Scale(v, s) < SIGN * W
    ensures SIGN / 2 <= StickyShift(Scale(v, s), 64) < SIGN
  {
    Pow2Values();
    Pow2Add(63, 64);
    Pow2Add(62, 64);
    assert Pow2(0) == 1;
    if 0 <= s < 127 {
      Pow2Add(127 - s, s);
      Pow2Add(126 - s, s);
      MulMonotone(v + 1, Pow2(127 - s), Pow2(s));
      Distribute(v, 1, Pow2(s));
      MulMonotone(Pow2(126 - s), v, Pow2(s));
    }
  }

  lemma NearlyNormal(v: nat, s: nat)
    requires s < 127 && SIGN / 4 * W <= v < Pow2(127 - s)
    ensures s <= 1
  {
    if s > 1 {
      Pow2Monotone(127 - s, 125);
      Pow2Values();
      Pow2Add(61, 64);
    }
  }

  lemma SubtractedDelivers(p: Unpacked, a: dword, n: nat)
    requires Normalised(p) && p.exp <= 2046 + 1024 && Stands(Val(a), n, p.exp + 1400)
    requires Val(a) <= Val((p.hi, p.lo))
    requires n != Val(a) * Pow2(p.exp + 1400) ==> Val(a) <= SIGN / 4 * W
    ensures n <= Full(p) && Delivers(Subtracted(p, a), p.sign, Full(p) - n, p.exp)
  {
    hide Stands, Scale, Pow2, Delivers, Subtracted, Normalised, Full, Val;
    var k := p.exp + 1400;
    var v := Val((p.hi, p.lo));
    NormalisedValue(p);
    ExponentRange(p);
    var t, d := DifferenceStands(v, Val(a), n, k);
    NormalisedDifference(p, a, t, d, k);
  }

  lemma ExponentRange(p: Unpacked)
    requires Normalised(p)
    ensures -1125 <= p.exp <= 3070
  {}

  lemma DifferenceStands(v: nat, a: nat, n: nat, k: nat) returns (t: nat, d: nat)
    requires v % 2 == 0 && SIGN / 2 * W <= v && Stands(a, n, k) && a <= v
    requires n != a * Pow2(k) ==> a <= SIGN / 4 * W
    ensures t + a == v && d + n == Scale(v, k)
    ensures Stands(t, d, k) && (d != t * Pow2(k) ==> SIGN / 4 * W <= t)
  {
    SubEven(v, a, n, k);
    ScaleDef(v, k);
    hide Stands, Scale, Pow2;
    if n == a * Pow2(k) { DifferenceExact(v, a, n, k); }
    t, d := v - a, v * Pow2(k) - n;
  }

  lemma NormalisedDifference(p: Unpacked, a: dword, t: nat, d: nat, k: nat)
    requires k == p.exp + 1400 >= 275 && t + Val(a) == Val((p.hi, p.lo)) < SIGN * W
    requires Stands(t, d, k) && (d != t * Pow2(k) ==> SIGN / 4 * W <= t)
    ensures Delivers(Subtracted(p, a), p.sign, d, p.exp)
  {
    hide Sub64, Stands, Val, Subtracted, StickyShift, ShlD, LeadingZeros, Pow2;
    DifferenceWords((p.hi, p.lo), a);
    var lo := Sub64(p.lo, a.1, 0);
    var hi := Sub64(p.hi, a.0, lo.1);
    if t == 0 {
      CancelsToZero(p, a);
      ZeroStands(d, k);
    } else {
      var s, m := NormaliseDifference(hi.0, lo.0, d, k);
      SubtractedParts(p, a, s);
      StandsForPositive(m, d, k - s + 64);
    }
  }

  lemma ZeroStands(n: nat, k: nat)
    requires Stands(0, n, k)
    ensures n == 0
  {}

  lemma StandsForPositive(m: nat, n: nat, k: nat)
    requires m > 0 && Stands(m, n, k)
    ensures n > 0
  {
    if m % 2 == 1 { MulMonotone(0, m - 1, Pow2(k)); }
    MulMonotone(1, m, Pow2(k));
  }

  lemma SmallDifference(s: nat)
    requires s < 128
    ensures USub(s + 1, 1) == s
  {}

  lemma SubtractedParts(p: Unpacked, a: dword, s: nat)
    requires var lo := Sub64(p.lo, a.1, 0); var hi := Sub64(p.hi, a.0, lo.1);
             LeadingZeros(hi.0, lo.0) == s + 1 && s < 128
    ensures var lo := Sub64(p.lo, a.1, 0); var hi := Sub64(p.hi, a.0, lo.1);
            var m := StickyShift(Val(ShlD(hi.0, lo.0, s)), 64);
            m < W && Subtracted(p, a) == Significand(p.sign, p.exp - s - 1, m)
  {
    hide Sub64, ShlD, LeadingZeros, StickyShift, Val, Or, NonZero, USub;
    var lo := Sub64(p.lo, a.1, 0);
    var hi := Sub64(p.hi, a.0, lo.1);
    FoldLow(ShlD(hi.0, lo.0, s));
    SmallDifference(s);
  }

  lemma DifferenceExact(v: nat, a: nat, n: nat, k: nat)
    requires a <= v && n == a * Pow2(k)
    ensures v * Pow2(k) - n == (v - a) * Pow2(k)
  {
    Distribute(v - a, a, Pow2(k));
  }

  lemma CancelsToZero(p: Unpacked, a: dword)
    requires Val(a) == Val((p.hi, p.lo))
    ensures Subtracted(p, a) == Significand(p.sign, p.exp - 128, 0)
  {
  }

  /** The sum stage, for operands in FMA's order. */
  lemma AddAlignedDelivers(p: Unpacked, z: Unpacked)
    requires Normalised(p) && Normalised(z) && !Smaller(p, z)
    ensures p.sign == z.sign ==> Delivers(AddAligned(p, z), p.sign, Full(p) + Full(z), p.exp)
    ensures p.sign != z.sign ==>
              Full(z) <= Full(p) && Delivers(AddAligned(p, z), p.sign, Full(p) - Full(z), p.exp)
  {
    FullPositive(z);
    var a := AlignedOperand(p, z);
    hide Stands, Full, Delivers, Added, Subtracted, ShrCompress, Val, Pow2, USub, Smaller;
    if p.sign == z.sign {
      AddedDelivers(p, a, Full(z));
    } else {
      SubtractedDelivers(p, a, Full(z));
    }
  }

  lemma AlignedOperand(p: Unpacked, z: Unpacked) returns (a: dword)
    requires Normalised(p) && Normalised(z) && !Smaller(p, z)
    ensures a == ShrCompress(z.hi, z.lo, USub(p.exp, z.exp))
    ensures a.0 < SIGN && Val(a) <= Val((p.hi, p.lo)) && Stands(Val(a), Full(z), p.exp + 1400)
    ensures Full(z) != Val(a) * Pow2(p.exp + 1400) ==> Val(a) <= SIGN / 4 * W
  {
    SwapOrder(p, z);
    var d := p.exp - z.exp;
    assert USub(p.exp, z.exp) == d;
    a := ShrCompress(z.hi, z.lo, d);
    ShrCompressValue(z.hi, z.lo, d);
    hide Stands, Full, ShrCompress, StickyShift, Pow2, USub;
    AlignedStands(z, d);
  }

  lemma FullPositive(u: Unpacked)
    requires Normalised(u)
    ensures Full(u) > 0
  {
    MulMonotone(1, Val((u.hi, u.lo)), Pow2(u.exp + 1400));
  }
}

/** The two-word helpers of src/math/fma.go, and what they compute on the
    128-bit value of a pair of words. */
module DoubleWord {
  import opened Words

  type dword = (word, word)

  function Val(u: dword): nat { u.0 * W + u.1 }

  function Zero(x: word): word { if x == 0 then 1 else 0 }

  function NonZero(x: word): word { if x != 0 then 1 else 0 }

  function ShlD(u1: word, u2: word, n: nat): dword
  {
    (Or(Or(Shl(u1, n), Shr(u2, USub(64, n))), Shl(u2, USub(n, 64))), Shl(u2, n))
  }

  function ShrD(u1: word, u2: word, n: nat): dword
  {
    (Shr(u1, n), Or(Or(Shr(u2, n), Shl(u1, USub(64, n))), Shr(u1, USub(n, 64))))
  }

  /** `1<<n - 1`: the low n bits, or all of them. */
  function Mask(n: nat): word { USub(Shl(1, n), 1) }

  function ShrCompress(u1: word, u2: word, n: nat): dword
  {
    if n == 0 then (u1, u2)
    else if n == 64 then (0, Or(u1, NonZero(u2)))
    else if n >= 128 then (0, NonZero(Or(u1, u2)))
    else if n < 64 then
      var r := ShrD(u1, u2, n);
      (r.0, Or(r.1, NonZero(And(u2, Mask(n)))))
    else
      var r := ShrD(u1, u2, n);
      (r.0, Or(r.1, NonZero(Or(And(u1, Mask(n - 64)), u2))))
  }

  function LeadingZeros(u1: word, u2: word): nat {
    var l := LeadingZeros64(u1);
    if l == 64 then l + LeadingZeros64(u2) else l
  }

  // ----- what they compute -----

  /** A right shift that remembers, in bit zero, whether it dropped a one. */
  function StickyShift(v: nat, n: nat): nat {
    var q := v / Pow2(n);
    if v % Pow2(n) == 0 then q else q / 2 * 2 + 1
  }

  lemma PowSplit(n: nat)
    requires n <= 64
    ensures Pow2(n) * Pow2(64 - n) == W
  {
    Pow2Values();
    Pow2Add(n, 64 - n);
  }

  lemma Distribute(a: int, b: int, c: int)
    ensures (a + b) * c == a * c + b * c
    ensures c * (a + b) == c * a + c * b
  {}

  /** A number below p * q cut into a part below p and a part below q. */
  lemma Cut(u: nat, p: nat, q: nat)
    requires p > 0 && q > 0
    ensures u < p * q ==> u / q < p
    ensures u % q * p + p <= p * q
  {
    var c, d := Divide(u, q);
    if c >= p {
      MulMonotone(p, c, q);
    }
    Distribute(d, 1, p);
    MulMonotone(d + 1, q, p);
  }

  lemma CutShift(u: nat, p: nat, q: nat)
    requires p > 0 && q > 0
    ensures u * p / (p * q) == u / q && u * p % (p * q) == u % q * p
  {
    var c, d := Divide(u, q);
    Cut(u, p, q);
    Distribute(c * q, d, p);
    MulAssoc(c, p, q);
    MulAssoc(c, q, p);
    MulMonotone(0, d, p);
    DivModUnique(u * p, p * q, c, d * p);
  }

  /** Shifting a double word, given the high and low parts of the products. */
  lemma ShlArith(v: nat, u1: nat, u2: nat, p: nat, w: nat, c: nat, dp: nat, e: nat, lo: nat)
    requires v == u1 * w + u2
    requires u1 * p == c * w + dp && u2 * p == e * w + lo
    requires dp + e < w && lo < w
    ensures w * w > 0 && v * p % (w * w) == (dp + e) * w + lo
  {
    var hi := dp + e;
    ShlRegroup(u1, u2, p, w, c, dp, e, lo);
    TwoDigits(hi, lo, w);
    DivModUnique(v * p, w * w, c, hi * w + lo);
  }

  lemma TwoDigits(hi: nat, lo: nat, w: nat)
    requires hi < w && lo < w
    ensures 0 <= hi * w + lo < w * w
  {
    MulMonotone(hi + 1, w, w);
    Distribute(hi, 1, w);
  }

  lemma ShlRegroup(u1: nat, u2: nat, p: nat, w: nat, c: nat, dp: nat, e: nat, lo: nat)
    requires u1 * p == c * w + dp && u2 * p == e * w + lo
    ensures (u1 * w + u2) * p == c * (w * w) + ((dp + e) * w + lo)
  {
    assert (u1 * w + u2) * p == u1 * p * w + u2 * p;
    Distribute(c * w, dp, w);
    Distribute(dp, e, w);
    MulAssoc(c, w, w);
  }

  lemma WordCut(u: word, n: nat)
    requires n < 64
    ensures var p, q := Pow2(n), Pow2(64 - n);
            Shl(u, n) == u % q * p && u / q < p && u % q * p + p <= W
            && u * p == u / q * W + u % q * p
            && Shr(u, 64 - n) == u / q
  {
    var p, q := Pow2(n), Pow2(64 - n);
    PowSplit(n);
    Cut(u, p, q);
    CutShift(u, p, q);
    if n == 0 { DivModUnique(u, W, 0, u); }
  }

  lemma ShlParts(u1: word, u2: word, n: nat, d: nat, e: nat)
    requires n < 64 && e < Pow2(n)
    requires Shl(u1, n) == d * Pow2(n) && Shr(u2, 64 - n) == e
    ensures ShlD(u1, u2, n) == (Shl(u1, n) + e, Shl(u2, n))
  {
    ShiftCounts(n);
    OrDisjoint(d, e, n);
    OrBit(Shl(u1, n) + e, 0);
  }

  lemma ShiftCounts(n: nat)
    ensures n < 64 ==> USub(n, 64) > 64
    ensures 64 <= n < W ==> USub(n, 64) == n - 64
    ensures n <= 64 ==> USub(64, n) == 64 - n
    ensures 64 < n < W - 64 ==> USub(64, n) > 64
  {}

  lemma ShlSmall(u1: word, u2: word, n: nat)
    requires n < 64
    ensures Val(ShlD(u1, u2, n)) == Val((u1, u2)) * Pow2(n) % (W * W)
  {
    var p, q := Pow2(n), Pow2(64 - n);
    WordCut(u1, n);
    WordCut(u2, n);
    ShlParts(u1, u2, n, u1 % q, u2 / q);
    ShlArith(Val((u1, u2)), u1, u2, p, W, u1 / q, Shl(u1, n), u2 / q, Shl(u2, n));
  }

  lemma ShlLargeParts(u1: word, u2: word, n: nat)
    requires 64 <= n < 128
    ensures ShlD(u1, u2, n) == (Shl(u2, n - 64), 0)
  {
    ShiftCounts(n);
    OrIdempotent(u2);
    OrBit(Shl(u2, n - 64), 0);
    ShiftByZero(u2);
  }

  lemma ShiftByZero(u: word)
    ensures Shl(u, 0) == u && Shr(u, 0) == u
  {}

  lemma ShlLarge(u1: word, u2: word, n: nat)
    requires 64 <= n < 128
    ensures Val(ShlD(u1, u2, n)) == Val((u1, u2)) * Pow2(n) % (W * W)
  {
    var k := n - 64;
    ShlLargeParts(u1, u2, n);
    Pow2Values();
    WordCut(u2, k);
    Pow2Add(64, k);
    ShlLargeArith(Val((u1, u2)), u1, u2, Pow2(k), Pow2(n), W, u2 / Pow2(64 - k), Shl(u2, k));
  }

  lemma ShlLargeArith(v: nat, u1: nat, u2: nat, p: nat, wp: nat, w: nat, e: nat, lo: nat)
    requires v == u1 * w + u2 && wp == w * p && u2 * p == e * w + lo && lo < w
    ensures w * w > 0 && v * wp % (w * w) == lo * w
  {
    TwoDigits(lo, 0, w);
    assert v * p == u1 * w * p + u2 * p;
    assert v * wp == v * p * w;
    assert v * wp == (u1 * p + e) * (w * w) + lo * w;
    DivModUnique(v * wp, w * w, u1 * p + e, lo * w);
  }

  /** shl multiplies by 2^n, modulo 2^128. */
  lemma ShlValue(u1: word, u2: word, n: nat)
    requires n < 128
    ensures Val(ShlD(u1, u2, n)) == Val((u1, u2)) * Pow2(n) % (W * W)
  {
    if n < 64 { ShlSmall(u1, u2, n); } else { ShlLarge(u1, u2, n); }
  }

  lemma ShrArith(v: nat, u1: nat, u2: nat, p: nat, w: nat, c: nat, d: nat, dq: nat, e: nat, f: nat)
    requires v == u1 * w + u2 && u1 == c * p + d && u2 == e * p + f && f < p && d * w == dq * p
    ensures v / p == c * w + dq + e && v % p == f
  {
    assert u1 * w == c * p * w + d * w;
    assert c * p * w == c * w * p;
    assert v == (c * w + dq + e) * p + f;
    DivModUnique(v, p, c * w + dq + e, f);
  }

  lemma ShrCut(u1: word, u2: word, n: nat)
    requires 0 < n < 64
    ensures u2 / Pow2(n) < Pow2(64 - n)
    ensures Shl(u1, 64 - n) == u1 % Pow2(n) * Pow2(64 - n)
    ensures u1 % Pow2(n) * W == Shl(u1, 64 - n) * Pow2(n)
  {
    var p, q, d := Pow2(n), Pow2(64 - n), u1 % Pow2(n);
    PowSplit(n);
    Cut(u2, q, p);
    WordCut(u1, 64 - n);
    assert d * (p * q) == d * q * p;
  }

  lemma ShrParts(u1: word, u2: word, n: nat, d: nat, e: nat)
    requires 0 < n < 64 && e < Pow2(64 - n)
    requires Shl(u1, 64 - n) == d * Pow2(64 - n) && Shr(u2, n) == e
    ensures ShrD(u1, u2, n) == (Shr(u1, n), Shl(u1, 64 - n) + e)
  {
    ShiftCounts(n);
    OrDisjoint(d, e, 64 - n);
    OrBit(Shl(u1, 64 - n) + e, 0);
  }

  lemma ShrSmall(u1: word, u2: word, n: nat)
    requires 0 < n < 64
    ensures Val(ShrD(u1, u2, n)) == Val((u1, u2)) / Pow2(n)
    ensures Val((u1, u2)) % Pow2(n) == u2 % Pow2(n)
  {
    var c, d := Divide(u1, Pow2(n));
    var e, f := Divide(u2, Pow2(n));
    ShrCut(u1, u2, n);
    ShrParts(u1, u2, n, d, e);
    ShrArith(Val((u1, u2)), u1, u2, Pow2(n), W, c, d, Shl(u1, 64 - n), e, f);
  }

  lemma ShrLarge(u1: word, u2: word, n: nat)
    requires 64 <= n < 128
    ensures Val(ShrD(u1, u2, n)) == Val((u1, u2)) / Pow2(n) == u1 / Pow2(n - 64)
    ensures Val((u1, u2)) % Pow2(n) == u1 % Pow2(n - 64) * W + u2
  {
    var k := n - 64;
    ShrLargeParts(u1, u2, n);
    Pow2Values();
    Pow2Add(64, k);
    ShrLargeArith(Val((u1, u2)), u1, u2, W, Pow2(k), Pow2(n));
  }

  lemma ShrLargeParts(u1: word, u2: word, n: nat)
    requires 64 <= n < 128
    ensures ShrD(u1, u2, n) == (0, u1 / Pow2(n - 64))
  {
    ShiftCounts(n);
    ShiftByZero(u1);
    OrIdempotent(u1);
    OrBit(Shr(u1, n - 64), 0);
  }

  lemma ShrLargeArith(v: nat, u1: nat, u2: nat, w: nat, p: nat, wp: nat)
    requires p > 0 && u2 < w && v == u1 * w + u2 && wp == w * p
    ensures wp > 0 && v / wp == u1 / p && v % wp == u1 % p * w + u2
  {
    DivModUnique(v, w, u1, u2);
    DivDiv(v, w, p);
  }

  lemma StickyBit(hi: word, lo: word, bit: nat)
    requires bit <= 1
    ensures Val((hi, Or(lo, bit))) == if bit == 0 then Val((hi, lo)) else Val((hi, lo)) / 2 * 2 + 1
  {
    OrBit(lo, bit);
    DivModUnique(Val((hi, lo)), 2, hi * (W / 2) + lo / 2, lo % 2);
  }

  /** shrcompress is the sticky shift of the 128-bit value, for every count. */
  lemma ShrCompressValue(u1: word, u2: word, n: nat)
    ensures Val(ShrCompress(u1, u2, n)) == StickyShift(Val((u1, u2)), n)
  {
    var v := Val((u1, u2));
    if n == 0 {
      assert v / 1 == v && v % 1 == 0;
    } else if n >= 128 {
      OrZero(u1, u2);
      Pow2Monotone(128, n);
      Pow2Values();
      Pow2Add(64, 64);
      TwoDigits(u1, u2, W);
      DivModUnique(v, Pow2(n), 0, v);
    } else if n < 64 {
      ShrSmall(u1, u2, n);
      MaskValue(u2, n);
      var r := ShrD(u1, u2, n);
      StickyBit(r.0, r.1, NonZero(And(u2, Mask(n))));
    } else {
      ShrCompressLarge(u1, u2, n);
    }
  }

  lemma MaskValue(u: word, n: nat)
    requires n < 64
    ensures And(u, Mask(n)) == u % Pow2(n)
  {
    var p := Pow2(n);
    AndMask(u, n);
    assert p < W by {
      Pow2Values();
      Pow2Monotone(n, 63);
    }
    DivModUnique(1 * p, W, 0, p);
    DivModUnique(p - 1, W, 0, p - 1);
    assert Mask(n) == p - 1;
  }

  lemma ShrCompressLarge(u1: word, u2: word, n: nat)
    requires 64 <= n < 128
    ensures Val(ShrCompress(u1, u2, n)) == StickyShift(Val((u1, u2)), n)
  {
    ShrLarge(u1, u2, n);
    MaskValue(u1, n - 64);
    if n == 64 {
      assert u1 / 1 == u1 && u1 % 1 == 0;
      OrBit(u1, NonZero(u2));
    } else {
      OrZero(And(u1, Mask(n - 64)), u2);
      var r := ShrD(u1, u2, n);
      StickyBit(r.0, r.1, NonZero(Or(And(u1, Mask(n - 64)), u2)));
    }
  }

  /** lz locates the leading one of the 128-bit value. */
  lemma LeadingZerosValue(u1: word, u2: word)
    ensures var v, l := Val((u1, u2)), LeadingZeros(u1, u2);
            && l <= 128 && (l == 128 <==> v == 0)
            && v < Pow2(128 - l) && (v > 0 ==> Pow2(127 - l) <= v)
  {
    if u1 > 0 {
      HighWordLength(u1, u2);
    }
  }

  lemma HighWordLength(u1: word, u2: word)
    requires u1 > 0
    ensures var v, k := Val((u1, u2)), Len(u1);
            0 < k <= 64 && Pow2(63 + k) <= v < Pow2(64 + k)
  {
    hide Pow2;
    var k := Len(u1);
    LenBound(u1);
    Pow2Values();
    Pow2Add(64, k);
    Pow2Add(64, k - 1);
    MulMonotone(u1 + 1, Pow2(k), W);
    MulMonotone(Pow2(k - 1), u1, W);
  }
}

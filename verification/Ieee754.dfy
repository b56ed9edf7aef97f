/** The binary64 format of IEEE 754-2008 and its rounding to nearest, ties to
    even (section 4.3.1), as a reference for the integer algorithms of the
    other modules.

    A magnitude is measured in units of 2^-1074, the smallest subnormal, so it
    is a natural number.  The encoding of infinity takes part as if it were
    2^1024: a result that lies past the midpoint between the largest finite
    number and 2^1024, or on it, overflows, as section 7.4 demands. */
module Ieee754 {
  import opened Words

  const FRAC: nat := 0x10_0000_0000_0000        // 2^52
  const SIGN: nat := 0x8000_0000_0000_0000      // 2^63
  const INF: nat := 0x7FF0_0000_0000_0000       // encoding of +infinity

  const EXP_MASK: word := 0x7FF
  const FRAC_MASK: word := FRAC - 1
  const BIAS := 1023

  function Abs(r: real): real { if r < 0.0 then -r else r }

  // ----- decoding -----

  function SignBit(b: word): nat { b / SIGN }

  function MagBits(b: word): nat { b % SIGN }

  predicate IsNaN(b: word) { MagBits(b) > INF }

  predicate IsInf(b: word) { MagBits(b) == INF }

  predicate IsFinite(b: word) { MagBits(b) < INF }

  function Scale(m: nat, e: nat): nat { m * Pow2(e) }

  lemma ScaleDef(q: nat, e: nat)
    ensures Scale(q, e) == q * Pow2(e)
  {}

  /** The magnitude encoded by exponent and fraction bits. */
  function Mag(c: nat): nat {
    var e, f := c / FRAC, c % FRAC;
    if e == 0 then f else Scale(FRAC + f, e - 1)
  }

  function Value(b: word): int {
    Signed(SignBit(b), Mag(MagBits(b)))
  }

  function Signed(sign: nat, m: int): int { if sign == 0 then m else -m }

  function Ulp(c: nat): (u: nat)
    ensures u > 0
  {
    var e := c / FRAC;
    Pow2(if e == 0 then 0 else e - 1)
  }

  lemma MagStep(c: nat)
    ensures Mag(c + 1) == Mag(c) + Ulp(c)
  {
    var e, f := c / FRAC, c % FRAC;
    if f + 1 < FRAC {
      DivModUnique(c + 1, FRAC, e, f + 1);
    } else {
      DivModUnique(c + 1, FRAC, e + 1, 0);
    }
  }

  lemma {:induction false} MagMonotone(c: nat, d: nat)
    requires c < d
    ensures Mag(c) < Mag(d)
    decreases d
  {
    MagStep(d - 1);
    if c < d - 1 {
      MagMonotone(c, d - 1);
    }
  }

  lemma DoubleIsShift(m: nat, k: nat)
    ensures Scale(m, k + 1) == Scale(2 * m, k)
  {
    MulAssoc(m, 2, Pow2(k));
  }

  lemma EncodedFields(m: nat, e: nat, carry: nat)
    requires FRAC <= m <= 2 * FRAC && carry == if m < 2 * FRAC then 0 else 1
    ensures (e * FRAC + m) / FRAC == e + 1 + carry
    ensures (e * FRAC + m) % FRAC == m - FRAC - carry * FRAC
  {
    DivModUnique(e * FRAC + m, FRAC, e + 1 + carry, m - FRAC - carry * FRAC);
  }

  /** Encoding: a significand m and a scale 2^e, where m may also have just
      carried out of its 53 bits, are the bits e * 2^52 + m. */
  lemma MagEncode(m: nat, e: nat)
    requires m <= 2 * FRAC && (e == 0 || FRAC <= m)
    ensures Mag(e * FRAC + m) == Scale(m, e)
  {
    if m < FRAC {
      MagOfFields(m, 0, m);
    } else if m < 2 * FRAC {
      MagOfFields(e * FRAC + m, e + 1, m - FRAC);
    } else {
      MagOfFields(e * FRAC + m, e + 2, 0);
      MulAssoc(FRAC, 2, Pow2(e));
    }
  }

  lemma MagOfFields(c: nat, e: nat, f: nat)
    requires f < FRAC && c == e * FRAC + f
    ensures Mag(c) == if e == 0 then f else Scale(FRAC + f, e - 1)
  {
    DivModUnique(c, FRAC, e, f);
  }

  lemma ScaleScale(x: nat, a: nat, b: nat)
    ensures Scale(Scale(x, a), b) == Scale(x, a + b)
  {
    Pow2Add(a, b);
    MulAssoc(x, Pow2(a), Pow2(b));
  }

  lemma Fields(b: word)
    ensures var e, f := And(Shr(b, 52), EXP_MASK), And(b, FRAC_MASK);
            e < 2048 && f < FRAC && MagBits(b) == e * FRAC + f && Shr(b, 63) == SignBit(b) <= 1
  {
    Pow2Values();
    AndMask(b / FRAC, 11);
    AndMask(b, 52);
    hide BitAnd, Pow2;
    DivDiv(b, FRAC, 2048);
  }

  lemma ScaleStep(q: nat, e: nat)
    ensures Scale(q + 1, e) == Scale(q, e) + Pow2(e)
  {
    assert (q + 1) * Pow2(e) == q * Pow2(e) + Pow2(e);
  }

  /** The magnitude of a packed significand, and the gap above. */
  lemma GapAbove(q: nat, e: nat)
    requires q <= 2 * FRAC && (e == 0 || FRAC <= q)
    ensures var c := e * FRAC + q;
            Mag(c) == Scale(q, e) && Mag(c + 1) >= Scale(q, e) + Pow2(e)
  {
    hide Mag;
    var c := e * FRAC + q;
    MagEncode(q, e);
    MagStep(c);
    if FRAC <= q {
      var carry := if q < 2 * FRAC then 0 else 1;
      EncodedFields(q, e, carry);
      Pow2Monotone(e, e + carry);
    }
  }

  // ----- rounding -----

  /** c is the correctly rounded magnitude of the real v. */
  ghost predicate CorrectlyRounded(v: real, c: nat) {
    && c <= INF
    && forall d | 0 <= d <= INF && d != c ::
         && Abs(v - Mag(c) as real) <= Abs(v - Mag(d) as real)
         && (Abs(v - Mag(c) as real) == Abs(v - Mag(d) as real) ==> c % 2 == 0)
  }

  /** The greatest encoding up to c whose magnitude is at most v. */
  function Below(v: real, c: nat): (r: nat)
    requires v >= 0.0
    ensures r <= c && Mag(r) as real <= v
    ensures r < c ==> v < Mag(r + 1) as real
  {
    if Mag(c) as real <= v then c
    else
      assert c > 0;
      Below(v, c - 1)
  }

  /** Round to nearest, ties to even. */
  function Round(v: real): (r: nat)
    requires v >= 0.0
    ensures r <= INF
  {
    var c := Below(v, INF);
    if c == INF then INF
    else
      var down, up := v - Mag(c) as real, Mag(c + 1) as real - v;
      if down < up || (down == up && c % 2 == 0) then c else c + 1
  }

  /** v lies within the half gaps around c. */
  ghost predicate InRoundingInterval(v: real, c: nat) {
    && c <= INF
    && (c > 0 ==>
          var t := (Mag(c - 1) + Mag(c)) as real;
          t < 2.0 * v || (t == 2.0 * v && c % 2 == 0))
    && (c < INF ==>
          var t := (Mag(c) + Mag(c + 1)) as real;
          2.0 * v < t || (t == 2.0 * v && c % 2 == 0))
  }

  lemma IntervalIsCorrect(v: real, c: nat)
    requires v >= 0.0 && InRoundingInterval(v, c)
    ensures CorrectlyRounded(v, c)
  {
    forall d | 0 <= d <= INF && d != c
      ensures Abs(v - Mag(c) as real) <= Abs(v - Mag(d) as real)
      ensures Abs(v - Mag(c) as real) == Abs(v - Mag(d) as real) ==> c % 2 == 0
    {
      if d < c {
        MagMonotone(d, c);
        if d < c - 1 { MagMonotone(d, c - 1); }
      } else {
        MagMonotone(c, d);
        if c + 1 < d { MagMonotone(c + 1, d); }
      }
    }
  }

  /** The one of c and c + 1 that is nearer to v, the even one on a tie. */
  lemma NearerNeighbour(v: real, c: nat, r: nat)
    requires c < INF && Mag(c) as real <= v < Mag(c + 1) as real
    requires var down, up := v - Mag(c) as real, Mag(c + 1) as real - v;
             r == if down < up || (down == up && c % 2 == 0) then c else c + 1
    ensures InRoundingInterval(v, r)
  {
    if r == c {
      if c > 0 { MagMonotone(c - 1, c); }
    } else {
      MagMonotone(c + 1, c + 2);
    }
  }

  /** Round is correct rounding. */
  lemma RoundIsCorrect(v: real)
    requires v >= 0.0
    ensures CorrectlyRounded(v, Round(v))
  {
    var c := Below(v, INF);
    if c == INF {
      MagMonotone(INF - 1, INF);
    } else {
      NearerNeighbour(v, c, Round(v));
    }
    IntervalIsCorrect(v, Round(v));
  }

  lemma BetweenIsNearer(v: real, c: nat, d: nat)
    requires c + 1 < d && Abs(v - Mag(c) as real) == Abs(v - Mag(d) as real)
    ensures Abs(v - Mag(c + 1) as real) < Abs(v - Mag(c) as real)
  {
    MagMonotone(c, c + 1);
    MagMonotone(c + 1, d);
  }

  /** Correct rounding determines the encoding. */
  lemma CorrectlyRoundedUnique(v: real, c: nat, d: nat)
    requires CorrectlyRounded(v, c) && CorrectlyRounded(v, d)
    ensures c == d
  {
    if c + 1 < d {
      BetweenIsNearer(v, c, d);
    } else if d + 1 < c {
      BetweenIsNearer(v, d, c);
    }
  }

  /** The rounding interval characterises Round. */
  lemma RoundByInterval(v: real, c: nat)
    requires v >= 0.0 && InRoundingInterval(v, c)
    ensures Round(v) == c
  {
    IntervalIsCorrect(v, c);
    RoundIsCorrect(v);
    CorrectlyRoundedUnique(v, c, Round(v));
  }

  /** What is representable is not changed by rounding. */
  lemma RoundExact(c: nat)
    requires c <= INF
    ensures Round(Mag(c) as real) == c
  {
    MagStep(c);
    if c > 0 { MagStep(c - 1); }
    RoundByInterval(Mag(c) as real, c);
  }
}

/** Why one sticky bit is enough: a short significand that stands for a long
    one through shifts, sums and differences, up to the final rounding. */
module Sticky {
  import opened Words
  import opened DoubleWord

  /** t stands for n / 2^k: it is equal to it, or it is odd and n / 2^k lies
      strictly between its two even neighbours. */
  ghost predicate Stands(t: nat, n: nat, k: nat) {
    || n == t * Pow2(k)
    || (t % 2 == 1 && (t - 1) * Pow2(k) < n < (t + 1) * Pow2(k))
  }

  /** Shifting right with a sticky bit keeps what a significand stands for. */
  lemma Shift(t: nat, n: nat, k: nat, j: nat)
    requires Stands(t, n, k)
    ensures Stands(StickyShift(t, j), n, k + j)
  {
    hide Pow2, StickyShift;
    var q, r := Divide(t, Pow2(j));
    Pow2Add(k, j);
    ShiftArith(t, n, Pow2(k), Pow2(j), Pow2(k + j), q, r);
    StickyParts(t, j, q, r);
    if r > 0 { ToEvenNeighbours(n, q, StickyShift(t, j), Pow2(k + j)); }
  }

  /** The sticky bit is exact, or makes the quotient odd. */
  lemma StickyParts(t: nat, j: nat, q: nat, r: nat)
    requires q == t / Pow2(j) && r == t % Pow2(j) && t == q * Pow2(j) + r
    ensures r == 0 ==> StickyShift(t, j) == q
    ensures r > 0 ==> StickyShift(t, j) % 2 == 1 && q <= StickyShift(t, j) <= q + 1
    ensures j == 0 ==> Pow2(j) == 1
    ensures j > 0 && t % 2 == 1 ==> r > 0
  {
    if j > 0 && t % 2 == 1 {
      OddRemainder(t, Pow2(j - 1), q, r);
    }
  }

  /** From between two neighbours to between two even ones. */
  lemma ToEvenNeighbours(n: nat, q: nat, m: nat, p: nat)
    requires q * p < n < (q + 1) * p && m > 0 && q <= m <= q + 1
    ensures (m - 1) * p < n < (m + 1) * p
  {
    MulMonotone(m - 1, q, p);
    MulMonotone(q + 1, m + 1, p);
  }

  lemma OddRemainder(t: nat, h: nat, q: nat, r: nat)
    requires t == q * (2 * h) + r && t % 2 == 1
    ensures r > 0
  {
    MulAssoc(q, 2, h);
    assert q * (2 * h) == 2 * (q * h);
  }

  lemma ShiftArith(t: nat, n: nat, p: nat, d: nat, pd: nat, q: nat, r: nat)
    requires p > 0 && d > 0 && pd == p * d && t == q * d + r && r < d
    ensures r == 0 && n == t * p ==> n == q * pd
    ensures r > 0 && (n == t * p || (t - 1) * p < n < (t + 1) * p) ==> q * pd < n < (q + 1) * pd
    ensures d == 1 ==> pd == p && q == t && r == 0
  {
    assert q * pd == q * d * p && (q + 1) * pd == (q * d + d) * p;
    assert (t - 1) * p >= q * d * p || r == 0 by {
      if r > 0 { MulMonotone(q * d, t - 1, p); }
    }
    MulMonotone(t + 1, q * d + d, p);
    assert t * p == (t - 1) * p + p == (t + 1) * p - p;
  }

  /** A significand that is not below 2^a stands for nothing below 2^(a + k). */
  lemma Bounds(t: nat, n: nat, k: nat, lo: nat, hi: nat)
    requires Stands(t, n, k) && lo % 2 == 0 && hi % 2 == 0 && lo <= t
    ensures lo * Pow2(k) <= n
    ensures lo < t ==> lo * Pow2(k) < n
    ensures t <= hi ==> n <= hi * Pow2(k)
    ensures t < hi ==> n < hi * Pow2(k)
  {
    var p := Pow2(k);
    MulMonotone(lo, t, p);
    if lo < t {
      MulMonotone(lo + 1, t, p);
      Distribute(lo, 1, p);
    }
    if t % 2 == 1 {
      MulMonotone(lo, t - 1, p);
    }
    if t <= hi {
      MulMonotone(t, hi, p);
      if t % 2 == 1 { MulMonotone(t + 1, hi, p); }
    }
    if t < hi {
      MulMonotone(t + 1, hi, p);
      Distribute(t, 1, p);
    }
  }

  /** Adding to, or subtracting from, an even significand. */
  lemma AddEven(s: nat, t: nat, n: nat, k: nat)
    requires Stands(t, n, k) && s % 2 == 0
    ensures Stands(s + t, s * Pow2(k) + n, k)
  {
    var p := Pow2(k);
    Distribute(s, t, p);
    if t % 2 == 1 {
      Distribute(s, t - 1, p);
      Distribute(s, t + 1, p);
    }
  }

  lemma SubEven(s: nat, t: nat, n: nat, k: nat)
    requires Stands(t, n, k) && s % 2 == 0 && t <= s
    ensures n <= s * Pow2(k) && Stands(s - t, s * Pow2(k) - n, k)
  {
    var p := Pow2(k);
    Bounds(t, n, k, 0, s);
    Distribute(s - t, t, p);
    if t % 2 == 1 {
      Distribute(s - t + 1, t - 1, p);
      Distribute(s - t - 1, t + 1, p);
    }
  }
}

/** 64-bit words as naturals, and the word operations of Go and of its
    math/bits package.  The bitwise operators are defined bit by bit on
    naturals, so that every fact about them below is proved by induction. */
module Words {

  const W: nat := 0x1_0000_0000_0000_0000

  type word = x: nat | x < W

  function Pow2(n: nat): (p: nat)
    ensures p > 0
  {
    if n == 0 then 1 else 2 * Pow2(n - 1)
  }

  lemma {:induction false} Pow2Add(a: nat, b: nat)
    ensures Pow2(a + b) == Pow2(a) * Pow2(b)
  {
    if a > 0 {
      Pow2Add(a - 1, b);
    }
  }

  lemma Pow2Values()
    ensures Pow2(1) == 2 && Pow2(3) == 8 && Pow2(9) == 512 && Pow2(10) == 1024 && Pow2(11) == 2048
    ensures Pow2(21) == 0x20_0000 && Pow2(52) == 0x10_0000_0000_0000 && Pow2(53) == 0x20_0000_0000_0000
    ensures Pow2(62) == 0x4000_0000_0000_0000 && Pow2(63) == 0x8000_0000_0000_0000 && Pow2(64) == W
  {
    assert Pow2(10) == 1024 && Pow2(11) == 2048 && Pow2(9) == 512;
    Pow2Add(10, 11);
    Pow2Add(21, 10);
    Pow2Add(21, 31);
    Pow2Add(52, 10);
    assert Pow2(53) == 2 * Pow2(52) && Pow2(63) == 2 * Pow2(62) && Pow2(64) == 2 * Pow2(63);
  }

  lemma {:induction false} Pow2Monotone(a: nat, b: nat)
    requires a <= b
    ensures Pow2(a) <= Pow2(b)
    ensures a < b ==> 2 * Pow2(a) <= Pow2(b)
  {
    if a < b {
      Pow2Monotone(a, b - 1);
    }
  }

  // ----- division -----

  /** A quotient and a remainder determine division. */
  lemma DivModUnique(x: int, d: int, q: int, r: int)
    requires d > 0 && 0 <= r < d && x == q * d + r
    ensures x / d == q && x % d == r
  {
    var k := q - x / d;
    assert k * d == x % d - r;
    MulBounds(k, d);
  }

  lemma MulBounds(k: int, d: int)
    requires d > 0
    ensures k > 0 ==> k * d >= d
    ensures k < 0 ==> k * d <= -d
  {}

  lemma MulAssoc(a: int, b: int, c: int)
    ensures a * (b * c) == a * b * c
  {}

  lemma MulMonotone(a: int, b: int, c: int)
    requires a <= b && c >= 0
    ensures a * c <= b * c && c * a <= c * b
  {}

  lemma DivAtMost(x: nat, d: nat)
    requires d > 0
    ensures 0 <= x / d <= x
  {
    var q := x / d;
    MulMonotone(1, d, q);
  }

  lemma Divide(x: nat, d: nat) returns (q: nat, r: nat)
    requires d > 0
    ensures q == x / d && r == x % d && r < d && x == q * d + r
  {
    q, r := x / d, x % d;
  }

  lemma DivDiv(x: nat, a: nat, b: nat)
    requires a > 0 && b > 0
    ensures a * b > 0 && x / (a * b) == x / a / b
    ensures x % (a * b) == (x / a % b) * a + x % a
  {
    var q, r := Divide(x, a);
    var p, s := Divide(q, b);
    TwoDigits(x, a, b, q, p, s, r);
    DivModUnique(x, a * b, p, s * a + r);
  }

  /** A number with two digits s and r, and the rest p. */
  lemma TwoDigits(x: nat, a: nat, b: nat, q: nat, p: nat, s: nat, r: nat)
    requires x == q * a + r && q == p * b + s && r < a && s < b
    ensures a * b > 0 && x == p * (a * b) + (s * a + r)
    ensures 0 <= s * a + r < a * b
  {
    MulMonotone(s + 1, b, a);
    assert (s + 1) * a == s * a + a;
    MulMonotone(0, s, a);
    assert (p * b + s) * a == p * b * a + s * a;
    assert p * b * a == p * (a * b);
  }

  // ----- bitwise operators -----

  function BitAnd(a: nat, b: nat): (r: nat)
    ensures r <= a && r <= b
  {
    if a == 0 || b == 0 then 0
    else 2 * BitAnd(a / 2, b / 2) + (if a % 2 == 1 && b % 2 == 1 then 1 else 0)
  }

  function BitOr(a: nat, b: nat): nat
    decreases a + b
  {
    if a == 0 then b else if b == 0 then a
    else 2 * BitOr(a / 2, b / 2) + (if a % 2 == 1 || b % 2 == 1 then 1 else 0)
  }

  function BitXor(a: nat, b: nat): nat
    decreases a + b
  {
    if a == 0 then b else if b == 0 then a
    else 2 * BitXor(a / 2, b / 2) + (if a % 2 != b % 2 then 1 else 0)
  }

  function Or(a: word, b: word): word {
    Pow2Values();
    OrBound(a, b, 64);
    BitOr(a, b)
  }

  function Xor(a: word, b: word): word {
    Pow2Values();
    XorBound(a, b, 64);
    BitXor(a, b)
  }

  function And(a: word, b: word): word { BitAnd(a, b) }

  function BitNot(a: word): word { W - 1 - a }

  /** Oring into zero bits is adding. */
  lemma {:induction false} OrDisjoint(a: nat, b: nat, n: nat)
    requires b < Pow2(n)
    ensures BitOr(a * Pow2(n), b) == a * Pow2(n) + b
    ensures BitOr(b, a * Pow2(n)) == a * Pow2(n) + b
  {
    if a == 0 || b == 0 || n == 0 {
      assert a == 0 ==> a * Pow2(n) == 0;
    } else {
      var h := Pow2(n - 1);
      assert a * Pow2(n) == 2 * (a * h);
      assert a * Pow2(n) != 0;
      OrDisjoint(a, b / 2, n - 1);
    }
  }

  lemma ModDouble(x: nat, h: nat)
    requires h > 0
    ensures x % (2 * h) == 2 * (x / 2 % h) + x % 2
    ensures (2 * h - 1) / 2 == h - 1 && (2 * h - 1) % 2 == 1
  {
    DivDiv(x, 2, h);
  }

  lemma {:induction false} OrBound(a: nat, b: nat, n: nat)
    requires a < Pow2(n) && b < Pow2(n)
    ensures BitOr(a, b) < Pow2(n)
  {
    if a != 0 && b != 0 {
      OrBound(a / 2, b / 2, n - 1);
    }
  }

  lemma {:induction false} XorBound(a: nat, b: nat, n: nat)
    requires a < Pow2(n) && b < Pow2(n)
    ensures BitXor(a, b) < Pow2(n)
  {
    if a != 0 && b != 0 {
      XorBound(a / 2, b / 2, n - 1);
    }
  }

  lemma {:induction false} OrIdempotent(a: nat)
    ensures BitOr(a, a) == a
  {
    if a > 0 { OrIdempotent(a / 2); }
  }

  lemma {:induction false} OrZero(a: nat, b: nat)
    ensures BitOr(a, b) == 0 <==> a == 0 && b == 0
    decreases a + b
  {
    if a > 0 && b > 0 { OrZero(a / 2, b / 2); }
  }

  lemma AndStep(a: nat, h: nat, bit: nat)
    requires bit <= 1
    ensures BitAnd(a, 2 * h + bit) == 2 * BitAnd(a / 2, h) + (if bit == 1 then a % 2 else 0)
  {
    assert (2 * h + bit) / 2 == h && (2 * h + bit) % 2 == bit;
  }

  /** Anding with a block of ones is a remainder. */
  lemma {:induction false} AndMask(x: nat, n: nat)
    ensures BitAnd(x, Pow2(n) - 1) == x % Pow2(n)
  {
    if n == 0 {
      assert x % 1 == 0;
    } else {
      AndMask(x / 2, n - 1);
      AndMaskStep(x, Pow2(n - 1));
    }
  }

  lemma AndMaskStep(x: nat, h: nat)
    requires h > 0 && BitAnd(x / 2, h - 1) == x / 2 % h
    ensures BitAnd(x, 2 * h - 1) == x % (2 * h)
  {
    hide BitAnd;
    ModDouble(x, h);
    AndStep(x, h - 1, 1);
  }

  lemma OrBit(x: nat, b: nat)
    requires b <= 1
    ensures BitOr(x, b) == if b == 0 then x else x / 2 * 2 + 1
    ensures BitOr(b, x) == BitOr(x, b)
  {
    if b == 1 && x > 0 {
      assert BitOr(x / 2, 0) == x / 2 == BitOr(0, x / 2);
    }
  }

  lemma {:induction false} XorZero(a: nat, b: nat)
    ensures BitXor(a, b) == 0 <==> a == b
    decreases a + b
  {
    if a > 0 && b > 0 {
      XorZero(a / 2, b / 2);
    }
  }

  lemma AndAlmostOnes(x: nat, n: nat)
    requires n > 0 && x < Pow2(n)
    ensures BitAnd(x, Pow2(n) - 1) == x && BitAnd(x, Pow2(n) - 2) == x / 2 * 2
  {
    var h := Pow2(n - 1);
    assert Pow2(n) == 2 * h;
    hide Pow2, BitAnd;
    AndMask(x, n);
    DivModUnique(x, 2 * h, 0, x);
    AndMask(x / 2, n - 1);
    DivModUnique(x / 2, h, 0, x / 2);
    AndStep(x, h - 1, 0);
  }

  /** Anding acts on the high and the low bits separately. */
  lemma {:induction false} AndSplit(a: nat, b: nat, c: nat, d: nat, n: nat)
    requires b < Pow2(n) && d < Pow2(n)
    ensures BitAnd(a * Pow2(n) + b, c * Pow2(n) + d) == BitAnd(a, c) * Pow2(n) + BitAnd(b, d)
  {
    if n > 0 {
      AndSplit(a, b / 2, c, d / 2, n - 1);
      AndSplitStep(a, b, c, d, Pow2(n - 1));
    } else {
      assert BitAnd(b, d) == 0;
    }
  }

  lemma AndSplitStep(a: nat, b: nat, c: nat, d: nat, h: nat)
    requires BitAnd(a * h + b / 2, c * h + d / 2) == BitAnd(a, c) * h + BitAnd(b / 2, d / 2)
    ensures BitAnd(a * (2 * h) + b, c * (2 * h) + d) == BitAnd(a, c) * (2 * h) + BitAnd(b, d)
  {
    hide BitAnd;
    var x, y := a * (2 * h) + b, c * (2 * h) + d;
    HalfOfSplit(a, b, h);
    HalfOfSplit(c, d, h);
    assert BitAnd(x, y) == 2 * (BitAnd(a, c) * h + BitAnd(b / 2, d / 2)) + (if b % 2 == 1 && d % 2 == 1 then 1 else 0) by {
      AndHalves(x, y);
    }
    AndHalves(b, d);
  }

  lemma HalfOfSplit(a: nat, b: nat, h: nat)
    ensures (a * (2 * h) + b) / 2 == a * h + b / 2 && (a * (2 * h) + b) % 2 == b % 2
  {
    assert a * (2 * h) == 2 * (a * h);
  }

  lemma AndHalves(a: nat, b: nat)
    ensures BitAnd(a, b) == 2 * BitAnd(a / 2, b / 2) + (if a % 2 == 1 && b % 2 == 1 then 1 else 0)
  {}

  lemma {:induction false} AndHighBit(a: nat, n: nat)
    requires a < Pow2(n)
    ensures BitAnd(a, Pow2(n)) == 0
  {
    if n > 0 && a > 0 {
      AndHighBit(a / 2, n - 1);
    }
  }

  /** Masking with the complement of a bit clears bit zero. */
  lemma ClearBit(x: word, b: nat)
    requires b <= 1
    ensures BitAnd(x, BitNot(b)) == if b == 0 then x else x / 2 * 2
  {
    Pow2Values();
    AndAlmostOnes(x, 64);
  }

  // ----- shifts, with a count that is itself an unsigned word -----

  function Shl(x: word, n: nat): word {
    if n >= 64 then 0 else x * Pow2(n) % W
  }

  function Shr(x: word, n: nat): word {
    if n >= 64 then 0
    else
      DivAtMost(x, Pow2(n));
      x / Pow2(n)
  }

  /** Unsigned subtraction wraps, so a negative shift count is enormous. */
  function USub(a: int, b: int): word { (a - b) % W }

  function UAdd(a: int, b: int): word { (a + b) % W }

  lemma NoWrap(a: int, b: int)
    ensures 0 <= a + b < W ==> UAdd(a, b) == a + b
    ensures 0 <= a - b < W ==> USub(a, b) == a - b
  {}

  lemma ByOne(x: word)
    ensures 2 * x < W ==> Shl(x, 1) == 2 * x
    ensures Shr(x, 1) == x / 2
  {
    assert Pow2(1) == 2;
  }

  // ----- math/bits -----

  function Len(x: nat): (n: nat)
    ensures x < Pow2(n)
    ensures n == 0 || Pow2(n - 1) <= x
  {
    if x == 0 then 0 else 1 + Len(x / 2)
  }

  function LeadingZeros64(x: word): (n: nat)
    ensures n <= 64
    ensures n == 64 <==> x == 0
  {
    LenBound(x);
    64 - Len(x)
  }

  lemma LenBound(x: word)
    ensures Len(x) <= 64
  {
    Pow2Values();
    if Len(x) > 64 {
      Pow2Monotone(64, Len(x) - 1);
    }
  }

  function Mul64(x: word, y: word): (r: (word, word))
    ensures r.0 * W + r.1 == x * y
  {
    MulMonotone(y, W - 1, x);
    var p := x * y;
    (p / W, p % W)
  }

  /** Sum and carry. */
  function Add64(x: word, y: word, c: nat): (r: (word, nat))
    requires c <= 1
    ensures r.1 <= 1 && r.1 * W + r.0 == x + y + c
  {
    ((x + y + c) % W, (x + y + c) / W)
  }

  /** Difference and borrow. */
  function Sub64(x: word, y: word, c: nat): (r: (word, nat))
    requires c <= 1
    ensures r.1 <= 1 && r.0 - r.1 * W == x - y - c
  {
    ((x - y - c) % W, if x < y + c then 1 else 0)
  }
}

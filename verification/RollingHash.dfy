/** src/bytes/bytes.go: the hash of Rabin-Karp search, with the arithmetic of
    uint32. */
module RollingHash {
  import opened Basics
  import Words

  const WORD := 0x1_0000_0000
  const PRIME_RK := 16777619

  type word = x: nat | x < WORD

  function Wrap(x: int): word { x % WORD }

  /** b to the power e. */
  function Power(b: nat, e: nat): nat { if e == 0 then 1 else b * Power(b, e - 1) }

  /** The polynomial in PRIME_RK with the bytes of s as coefficients, the last
      one constant. */
  function Poly(s: seq<byte>): nat {
    if s == [] then 0 else Poly(s[..|s| - 1]) * PRIME_RK + s[|s| - 1]
  }

  function Hash(s: seq<byte>): word { Wrap(Poly(s)) }

  function Reverse(s: seq<byte>): seq<byte> { if s == [] then [] else Reverse(s[1..]) + [s[0]] }

  // ----- arithmetic modulo WORD -----

  lemma WrapUnique(x: int, k: int, r: word)
    requires x == WORD * k + r
    ensures Wrap(x) == r
  {}

  /** Two numbers that differ by a multiple of WORD. */
  lemma WrapSame(x: int, y: int, k: int)
    requires x == y + WORD * k
    ensures Wrap(x) == Wrap(y)
  {
    WrapUnique(x, y / WORD + k, y % WORD);
  }

  lemma WrapMul(a: nat, b: nat)
    ensures Wrap(Wrap(a) * b) == Wrap(a * b)
  {
    var q := a / WORD;
    calc {
      a * b;
      (WORD * q + Wrap(a)) * b;
      WORD * (q * b) + Wrap(a) * b;
    }
    WrapSame(a * b, Wrap(a) * b, q * b);
  }

  lemma WrapWrap(a: int)
    ensures Wrap(Wrap(a)) == Wrap(a)
  {}

  lemma SameMul(a: nat, a': nat, b: nat, b': nat)
    requires Wrap(a) == Wrap(a') && Wrap(b) == Wrap(b')
    ensures Wrap(a * b) == Wrap(a' * b')
  {
    hide Wrap;
    WrapMul(a, b);
    WrapMul(a', b);
    WrapMulRight(a', b);
    WrapMulRight(a', b');
  }

  lemma WrapMulRight(a: nat, b: nat)
    ensures Wrap(a * Wrap(b)) == Wrap(a * b)
  {
    var q := b / WORD;
    calc {
      a * b;
      a * (WORD * q + Wrap(b));
      WORD * (a * q) + a * Wrap(b);
    }
    WrapSame(a * b, a * Wrap(b), a * q);
  }

  lemma WrapAdd(a: int, b: int)
    ensures Wrap(Wrap(a) + b) == Wrap(a + b) && Wrap(b + Wrap(a)) == Wrap(a + b)
  {
    WrapSame(a + b, Wrap(a) + b, a / WORD);
  }

  lemma {:induction false} WrapPower(b: nat, e: nat)
    ensures Wrap(Power(Wrap(b), e)) == Wrap(Power(b, e))
  {
    hide Wrap;
    if e > 0 {
      WrapPower(b, e - 1);
      WrapWrap(b);
      SameMul(b, Wrap(b), Power(b, e - 1), Power(Wrap(b), e - 1));
    }
  }

  lemma {:induction false} PowerSquare(b: nat, e: nat)
    ensures Power(b * b, e) == Power(b, 2 * e)
  {
    if e > 0 {
      PowerSquare(b, e - 1);
      var p := Power(b, 2 * e - 2);
      assert Power(b, 2 * e) == b * Power(b, 2 * e - 1) == b * (b * p);
      assert b * b * p == b * (b * p);
    }
  }

  // ----- rolling -----

  lemma PolyLast(s: seq<byte>, c: byte)
    ensures Poly(s + [c]) == Poly(s) * PRIME_RK + c
  {
    assert (s + [c])[..|s|] == s;
  }

  lemma {:induction false} PolyFirst(c: byte, s: seq<byte>)
    ensures Poly([c] + s) == c * Power(PRIME_RK, |s|) + Poly(s)
  {
    if s == [] {
      assert [c] + s == [c];
      assert [c][..0] == [];
    } else {
      var t, d := s[..|s| - 1], s[|s| - 1];
      PolyFirst(c, t);
      assert [c] + s == ([c] + t) + [d];
      PolyLast([c] + t, d);
      var p := Power(PRIME_RK, |t|);
      assert Power(PRIME_RK, |s|) == PRIME_RK * p;
      assert c * (PRIME_RK * p) == c * p * PRIME_RK;
    }
  }

  /** One step of the search: append next, drop first. */
  function Roll(h: word, pow: word, first: byte, next: byte): word {
    Wrap(Wrap(Wrap(h * PRIME_RK) + next) - Wrap(pow * first))
  }

  lemma PolyRoll(w: seq<byte>, next: byte, x: seq<byte>)
    requires |w| > 0 && x == w[1..] + [next]
    ensures w[0] * Power(PRIME_RK, |w|) + Poly(x) == Poly(w) * PRIME_RK + next
  {
    hide Power, Poly;
    assert [w[0]] + x == w + [next];
    PolyFirst(w[0], x);
    PolyLast(w, next);
  }

  /** The wrapped arithmetic is that of the integers, wrapped once. */
  lemma RollWraps(h: nat, p: nat, first: byte, next: byte, firstP: nat)
    requires firstP == first * p
    ensures Roll(Wrap(h), Wrap(p), first, next) == Wrap(h * PRIME_RK + next - firstP)
  {
    hide Wrap;
    WrapMul(h, PRIME_RK);
    WrapAdd(h * PRIME_RK, next);
    WrapMul(p, first);
    assert p * first == firstP;
    WrapLess(h * PRIME_RK + next, firstP);
  }

  lemma WrapLess(a: int, b: int)
    ensures Wrap(Wrap(a) - Wrap(b)) == Wrap(a - b)
  {
    WrapSame(a - b, Wrap(a) - Wrap(b), a / WORD - b / WORD);
  }

  lemma RollHash(w: seq<byte>, next: byte, pow: word)
    requires |w| > 0 && pow == Wrap(Power(PRIME_RK, |w|))
    ensures Roll(Hash(w), pow, w[0], next) == Hash(w[1..] + [next])
  {
    hide Wrap, Power, Poly, Roll;
    var p := Power(PRIME_RK, |w|);
    PolyRoll(w, next, w[1..] + [next]);
    RollWraps(Poly(w), p, w[0], next, w[0] * p);
  }

  // ----- hashStr and hashStrRev -----

  /** The squaring loop: the n-th power of the prime. */
  method PrimePower(n: nat) returns (pow: word)
    ensures pow == Wrap(Power(PRIME_RK, n))
  {
    pow := 1;
    var sq: word := PRIME_RK;
    var i := n;
    while i > 0
      invariant Wrap(pow * Power(sq, i)) == Wrap(Power(PRIME_RK, n))
    {
      PowerStep(pow, sq, i);
      if i % 2 == 1 {
        pow := Wrap(pow * sq);
      }
      sq := Wrap(sq * sq);
      i := i / 2;
    }
  }

  lemma PowerHalves(sq: nat, i: nat)
    requires i > 0
    ensures Power(sq, i) == if i % 2 == 1 then sq * Power(sq * sq, i / 2) else Power(sq * sq, i / 2)
  {
    PowerSquare(sq, i / 2);
  }

  lemma PowerStep(pow: word, sq: word, i: nat)
    requires i > 0
    ensures Wrap((if i % 2 == 1 then Wrap(pow * sq) else pow) * Power(Wrap(sq * sq), i / 2)) == Wrap(pow * Power(sq, i))
  {
    hide Wrap, Power;
    var p, p' := Power(sq * sq, i / 2), Power(Wrap(sq * sq), i / 2);
    PowerHalves(sq, i);
    WrapPower(sq * sq, i / 2);
    if i % 2 == 1 {
      OddStep(pow, sq, p, p');
    } else {
      SameMul(pow, pow, p, p');
    }
  }

  lemma OddStep(pow: nat, sq: nat, p: nat, p': nat)
    requires Wrap(p) == Wrap(p')
    ensures Wrap(Wrap(pow * sq) * p') == Wrap(pow * (sq * p))
  {
    hide Wrap;
    var q := pow * sq;
    WrapWrap(q);
    SameMul(Wrap(q), q, p', p);
    Words.MulAssoc(pow, sq, p);
  }

  method HashStr(sep: seq<byte>) returns (hash: word, pow: word)
    ensures hash == Hash(sep) && pow == Wrap(Power(PRIME_RK, |sep|))
  {
    hash := HashOf(sep);
    pow := PrimePower(|sep|);
  }

  method HashOf(s: seq<byte>) returns (hash: word)
    ensures hash == Hash(s)
  {
    hash := 0;
    for i := 0 to |s|
      invariant hash == Hash(s[..i])
    {
      HashLast(s[..i], s[i]);
      assert s[..i + 1] == s[..i] + [s[i]];
      hash := Wrap(Wrap(hash * PRIME_RK) + s[i]);
    }
    assert s[..|s|] == s;
  }

  lemma HashLast(s: seq<byte>, c: byte)
    ensures Hash(s + [c]) == Wrap(Wrap(Hash(s) * PRIME_RK) + c)
  {
    PolyLast(s, c);
    WrapMul(Poly(s), PRIME_RK);
    WrapAdd(Poly(s) * PRIME_RK, c);
  }

  method HashStrRev(sep: seq<byte>) returns (hash: word, pow: word)
    ensures hash == Hash(Reverse(sep)) && pow == Wrap(Power(PRIME_RK, |sep|))
  {
    hash := HashOfRev(sep);
    pow := PrimePower(|sep|);
  }

  method HashOfRev(s: seq<byte>) returns (hash: word)
    ensures hash == Hash(Reverse(s))
  {
    hash := 0;
    for i := |s| downto 0
      invariant hash == Hash(Reverse(s[i..]))
    {
      assert s[i..][1..] == s[i + 1..];
      HashLast(Reverse(s[i + 1..]), s[i]);
      hash := Wrap(Wrap(hash * PRIME_RK) + s[i]);
    }
    assert s[0..] == s;
  }

  lemma {:induction false} ReverseLast(s: seq<byte>, c: byte)
    ensures Reverse(s + [c]) == [c] + Reverse(s)
  {
    if s == [] {
      assert s + [c] == [c];
    } else {
      ReverseLast(s[1..], c);
      assert (s + [c])[1..] == s[1..] + [c];
    }
  }

  lemma {:induction false} ReverseLength(s: seq<byte>)
    ensures |Reverse(s)| == |s|
  {
    if s != [] { ReverseLength(s[1..]); }
  }
}

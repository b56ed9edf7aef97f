/** src/unicode/utf8/utf8.go: the decoder and the encoder of section 4 of
    RFC 3629. */
module Utf8 {
  import opened Basics

  const RUNE_SELF := 0x80
  const RUNE_ERROR := 0xFFFD
  const MAX_RUNE := 0x10FFFF

  /** The length of an encoding that starts with b; 0 if there is none. */
  function Length(b: byte): (n: nat)
    ensures n <= 4
  {
    if b < RUNE_SELF then 1
    else if 0xC2 <= b <= 0xDF then 2
    else if 0xE0 <= b <= 0xEF then 3
    else if 0xF0 <= b <= 0xF4 then 4
    else 0
  }

  predicate Continues(b: byte) { 0x80 <= b <= 0xBF }

  /** b1 may follow b0. */
  predicate Second(b0: byte, b1: byte) {
    && (if b0 == 0xE0 then 0xA0 else if b0 == 0xF0 then 0x90 else 0x80) <= b1
    && b1 <= (if b0 == 0xED then 0x9F else if b0 == 0xF4 then 0x8F else 0xBF)
  }

  /** Six more bits, from a continuation byte. */
  function Bits(r: nat, b: nat): nat { r * 64 + b % 64 }

  function DecodeRune(p: seq<byte>): (r: (int, nat))
    ensures r.1 <= |p| && (p != [] ==> r.1 >= 1)
  {
    if p == [] then (RUNE_ERROR, 0)
    else
      var sz := Length(p[0]);
      if sz == 1 then (p[0] as int, 1)
      else if sz == 0 || |p| < sz || !Second(p[0], p[1]) then (RUNE_ERROR, 1)
      else if sz == 2 then (Bits(p[0] % 32, p[1]), 2)
      else if !Continues(p[2]) then (RUNE_ERROR, 1)
      else if sz == 3 then (Bits(Bits(p[0] % 16, p[1]), p[2]), 3)
      else if !Continues(p[3]) then (RUNE_ERROR, 1)
      else (Bits(Bits(Bits(p[0] % 8, p[1]), p[2]), p[3]), 4)
  }

  /** Whether more bytes cannot change how p starts. */
  predicate FullRune(p: seq<byte>) {
    p != [] &&
    (|p| >= Length(p[0]) || (|p| > 1 && !Second(p[0], p[1])) || (|p| > 2 && !Continues(p[2])))
  }

  function EncodeRune(r: int): (p: seq<byte>)
    ensures 1 <= |p| <= 4
  {
    if 0 <= r < 0x80 then [r]
    else if 0 <= r < 0x800 then [0xC0 + r / 64, 0x80 + r % 64]
    else if !IsScalar(r) then [0xEF, 0xBF, 0xBD]
    else if r < 0x10000 then [0xE0 + r / 64 / 64, 0x80 + r / 64 % 64, 0x80 + r % 64]
    else [0xF0 + r / 64 / 64 / 64, 0x80 + r / 64 / 64 % 64, 0x80 + r / 64 % 64, 0x80 + r % 64]
  }

  /** A code point that has an encoding. */
  predicate IsScalar(r: int) { 0 <= r <= MAX_RUNE && !(0xD800 <= r <= 0xDFFF) }

  /** The runes of p, one U+FFFD for each byte that starts no encoding. */
  function DecodeAll(p: seq<byte>): seq<int>
    decreases |p|
  {
    if p == [] then []
    else
      var (r, n) := DecodeRune(p);
      [r] + DecodeAll(p[n..])
  }

  lemma Split64(r: nat) returns (q: nat, d: nat)
    ensures q == r / 64 && d == r % 64 && r == q * 64 + d && d < 64
  {
    q, d := r / 64, r % 64;
  }

  lemma Bits64(q: nat, d: nat)
    requires d < 64
    ensures Bits(q, 0x80 + d) == q * 64 + d
  {}

  lemma Decode2(a: nat, b: nat, rest: seq<byte>)
    requires 2 <= a < 32 && b < 64
    ensures DecodeRune([0xC0 + a as byte, 0x80 + b] + rest) == (a * 64 + b, 2)
  {
    Bits64(a, b);
    assert (0xC0 + a) % 32 == a;
  }

  lemma Decode3(a: nat, b: nat, c: nat, rest: seq<byte>)
    requires a < 16 && b < 64 && c < 64 && (a == 0 ==> b >= 32) && (a == 13 ==> b < 32)
    ensures DecodeRune([0xE0 + a as byte, 0x80 + b, 0x80 + c] + rest) == ((a * 64 + b) * 64 + c, 3)
  {
    Bits64(a, b);
    Bits64(a * 64 + b, c);
    assert (0xE0 + a) % 16 == a;
  }

  lemma Decode4(a: nat, b: nat, c: nat, d: nat, rest: seq<byte>)
    requires a < 5 && b < 64 && c < 64 && d < 64 && (a == 0 ==> b >= 16) && (a == 4 ==> b < 16)
    ensures DecodeRune([0xF0 + a as byte, 0x80 + b, 0x80 + c, 0x80 + d] + rest) == (((a * 64 + b) * 64 + c) * 64 + d, 4)
  {
    Bits64(a, b);
    Bits64(a * 64 + b, c);
    Bits64((a * 64 + b) * 64 + c, d);
    assert (0xF0 + a) % 8 == a;
  }

  /** EncodeRune's inverse, on every code point. */
  lemma DecodeEncoded(r: int, rest: seq<byte>)
    requires IsScalar(r)
    ensures DecodeRune(EncodeRune(r) + rest) == (r, |EncodeRune(r)|)
  {
    hide DecodeRune;
    if r < 0x80 {
      DecodeAscii([r] + rest);
    } else {
      var r1, d := Split64(r);
      var r2, c := Split64(r1);
      var r3, b := Split64(r2);
      if r < 0x800 {
        Decode2(r1, d, rest);
      } else if r < 0x10000 {
        Decode3(r2, c, d, rest);
      } else {
        Decode4(r3, b, c, d, rest);
      }
    }
  }

  lemma DecodeAscii(p: seq<byte>)
    requires p != [] && p[0] < RUNE_SELF
    ensures DecodeRune(p) == (p[0] as int, 1)
  {}

  lemma Unbits(r: nat, b: byte)
    requires Continues(b)
    ensures Bits(r, b) / 64 == r && 0x80 + Bits(r, b) % 64 == b
    ensures Bits(r, b) == r * 64 + (b - 0x80)
  {}

  lemma Encode2(a: byte, b: byte)
    requires Length(a) == 2 && Continues(b)
    ensures var r := Bits(a % 32, b); IsScalar(r) && EncodeRune(r) == [a, b]
  {
    Unbits(a % 32, b);
    assert 0xC0 + a % 32 == a;
  }

  lemma Encode3(a: byte, b: byte, c: byte)
    requires Length(a) == 3 && Second(a, b) && Continues(c)
    ensures var r := Bits(Bits(a % 16, b), c); IsScalar(r) && EncodeRune(r) == [a, b, c]
  {
    var q := Bits(a % 16, b);
    Unbits(a % 16, b);
    Unbits(q, c);
    assert 0xE0 + a % 16 == a;
    hide Bits;
  }

  lemma Encode4(a: byte, b: byte, c: byte, d: byte)
    requires Length(a) == 4 && Second(a, b) && Continues(c) && Continues(d)
    ensures var r := Bits(Bits(Bits(a % 8, b), c), d); IsScalar(r) && EncodeRune(r) == [a, b, c, d]
  {
    hide Bits;
    var p := Bits(a % 8, b);
    var q := Bits(p, c);
    Unbits(a % 8, b);
    Unbits(p, c);
    Unbits(q, d);
    assert 0xF0 + a % 8 == a;
  }

  /** What is decoded is a code point, and its only encoding: no overlong form
      and no surrogate is taken. */
  lemma EncodeDecoded(p: seq<byte>)
    requires p != []
    ensures var (r, n) := DecodeRune(p);
            IsScalar(r) && ((r == RUNE_ERROR && n == 1) || EncodeRune(r) == p[..n])
  {
    hide EncodeRune, Bits;
    var n := DecodeRune(p).1;
    if n == 2 {
      Encode2(p[0], p[1]);
      assert p[..n] == [p[0], p[1]];
    } else if n == 3 {
      Encode3(p[0], p[1], p[2]);
      assert p[..n] == [p[0], p[1], p[2]];
    } else if n == 4 {
      Encode4(p[0], p[1], p[2], p[3]);
      assert p[..n] == [p[0], p[1], p[2], p[3]];
    } else if p[0] < RUNE_SELF {
      EncodeAscii(p[0]);
      assert p[..n] == [p[0]];
    }
  }

  lemma EncodeAscii(b: byte)
    requires b < RUNE_SELF
    ensures IsScalar(b) && EncodeRune(b) == [b]
  {}

  /** More bytes do not change a full rune. */
  lemma FullRuneStable(p: seq<byte>, q: seq<byte>)
    requires FullRune(p)
    ensures DecodeRune(p + q) == DecodeRune(p) && FullRune(p + q)
  {}

  /** An incomplete encoding is short, and its other bytes are continuations. */
  lemma Incomplete(p: seq<byte>)
    requires p != [] && !FullRune(p)
    ensures |p| <= 3 && DecodeRune(p) == (RUNE_ERROR, 1)
    ensures forall k :: 0 < k < |p| ==> Continues(p[k])
  {}
}

/** src/math/fma.go: fused multiply-add, computed with one rounding. */
module Fma {
  import opened Words
  import opened Ieee754
  import opened DoubleWord

  // ----- the algorithm -----

  /** Sign, exponent and a two-word significand. */
  datatype Unpacked = Unpacked(sign: word, exp: int, hi: word, lo: word)

  datatype Significand = Significand(sign: word, exp: int, mantissa: word)

  /** What FMA returns: bits it computed itself, or the hardware's x*y + z. */
  datatype Outcome = Hardware | Bits(b: word)

  function Split(b: word): Significand {
    var sign := Shr(b, 63);
    var exp: int := And(Shr(b, 52), EXP_MASK);
    var mantissa := And(b, FRAC_MASK);
    if exp == 0 then
      var shift := USub(LeadingZeros64(mantissa), 11);
      Significand(sign, 1 - shift, Shl(mantissa, shift))
    else
      Significand(sign, exp, Or(mantissa, Shl(1, 52)))
  }

  /** The product of two significands, normalised to bit 62 of the high word. */
  function Product(x: Significand, y: Significand): Unpacked {
    var pe := x.exp + y.exp - BIAS + 1;
    var p := Mul64(Shl(x.mantissa, 10), Shl(y.mantissa, 11));
    var is62zero := And(Shr(BitNot(p.0), 62), 1);
    var n := ShlD(p.0, p.1, is62zero);
    Unpacked(Xor(x.sign, y.sign), pe - is62zero, n.0, n.1)
  }

  function Widen(z: Significand): Unpacked {
    Unpacked(z.sign, z.exp, Shl(z.mantissa, 10), 0)
  }

  predicate Smaller(p: Unpacked, z: Unpacked) {
    p.exp < z.exp || (p.exp == z.exp && (p.hi < z.hi || (p.hi == z.hi && p.lo < z.lo)))
  }

  /** Aligns z with p, and adds or subtracts. */
  function AddAligned(p: Unpacked, z: Unpacked): Significand {
    var a := ShrCompress(z.hi, z.lo, USub(p.exp, z.exp));
    if p.sign == z.sign then Added(p, a) else Subtracted(p, a)
  }

  /** The sum of the magnitudes, normalised to one word. */
  function Added(p: Unpacked, a: dword): Significand {
    var lo := Add64(p.lo, a.1, 0);
    var hi := Add64(p.hi, a.0, lo.1);
    var pe := p.exp - Shr(BitNot(hi.0), 63);
    var m := ShrCompress(hi.0, lo.0, 64 + Shr(hi.0, 63));
    Significand(p.sign, pe, m.1)
  }

  /** The difference of the magnitudes, normalised to one word. */
  function Subtracted(p: Unpacked, a: dword): Significand {
    var lo := Sub64(p.lo, a.1, 0);
    var hi := Sub64(p.hi, a.0, lo.1);
    var nz := LeadingZeros(hi.0, lo.0);
    var m := ShlD(hi.0, lo.0, USub(nz, 1));
    Significand(p.sign, p.exp - nz, Or(m.0, NonZero(m.1)))
  }

  /** Rounds to nearest, ties to even, and packs. */
  function Pack(r: Significand): word {
    if r.exp > 1022 + BIAS || (r.exp == 1022 + BIAS && Shr(UAdd(r.mantissa, 512), 63) == 1) then
      Or(Shl(r.sign, 63), INF)
    else if r.exp < 0 then
      var n := -r.exp;
      PackRounded(r.sign, 0, Or(Shr(r.mantissa, n), NonZero(And(r.mantissa, Mask(n)))))
    else
      PackRounded(r.sign, r.exp, r.mantissa)
  }

  function PackRounded(sign: word, exp: word, m: word): word {
    var q := And(Shr(UAdd(m, 512), 10), BitNot(Zero(Xor(And(m, 1023), 512))));
    var pe := if NonZero(q) == 1 then exp else 0;
    UAdd(Shl(sign, 63) + Shl(pe, 52), q)
  }

  function FMA(x: word, y: word, z: word): Outcome {
    if MagBits(x) == 0 || MagBits(y) == 0 || MagBits(z) == 0 || MagBits(x) >= INF || MagBits(y) >= INF
    then Hardware
    else if MagBits(z) >= INF then Bits(z)
    else
      var p, z' := Product(Split(x), Split(y)), Widen(Split(z));
      Bits(Pack(if Smaller(p, z') then AddAligned(z', p) else AddAligned(p, z')))
  }
}

/*
 * The IEEE 754 binary interchange encodings the conversions produce
 * (IEEE 754-2008, section 3.4): a sign bit, a biased exponent field and a
 * trailing significand ("mantissa") field, packed from the most significant
 * bit down. binary32 has an 8-bit exponent field and a 23-bit mantissa;
 * binary64 has an 11-bit exponent field and a 52-bit mantissa.
 */
module Ieee {

  // ---------------------------------------------------------------------
  // binary32
  // ---------------------------------------------------------------------

  function Sign32(r: bv32): bv32
  {
    r >> 31
  }

  function Exponent32(r: bv32): bv32
  {
    (r >> 23) & 0xff
  }

  function Mantissa32(r: bv32): bv32
  {
    r & 0x7f_ffff
  }

  /** The encoding with the given fields. */
  function Encode32(sign: bv32, exponent: bv32, mantissa: bv32): (r: bv32)
    requires sign < 2 && exponent < 0x100 && mantissa < 0x80_0000
    ensures Sign32(r) == sign && Exponent32(r) == exponent && Mantissa32(r) == mantissa
  {
    (sign << 31) | (exponent << 23) | mantissa
  }

  /** An all-ones exponent with a non-zero mantissa: a NaN. */
  predicate IsNan32(r: bv32)
  {
    Exponent32(r) == 0xff && Mantissa32(r) != 0
  }

  /** An all-ones exponent with a zero mantissa: an infinity. */
  predicate IsInfinite32(r: bv32)
  {
    Exponent32(r) == 0xff && Mantissa32(r) == 0
  }

  /** Every word is the encoding of its own fields. */
  lemma Encode32Fields(r: bv32)
    ensures Encode32(Sign32(r), Exponent32(r), Mantissa32(r)) == r
  {
  }

  // ---------------------------------------------------------------------
  // binary64
  // ---------------------------------------------------------------------

  function Sign64(r: bv64): bv64
  {
    r >> 63
  }

  function Exponent64(r: bv64): bv64
  {
    (r >> 52) & 0x7ff
  }

  function Mantissa64(r: bv64): bv64
  {
    r & 0xf_ffff_ffff_ffff
  }

  /** The encoding with the given fields. */
  function Encode64(sign: bv64, exponent: bv64, mantissa: bv64): (r: bv64)
    requires sign < 2 && exponent < 0x800 && mantissa < 0x10_0000_0000_0000
    ensures Sign64(r) == sign && Exponent64(r) == exponent && Mantissa64(r) == mantissa
  {
    (sign << 63) | (exponent << 52) | mantissa
  }

  /** An all-ones exponent with a non-zero mantissa: a NaN. */
  predicate IsNan64(r: bv64)
  {
    Exponent64(r) == 0x7ff && Mantissa64(r) != 0
  }

  /** An all-ones exponent with a zero mantissa: an infinity. */
  predicate IsInfinite64(r: bv64)
  {
    Exponent64(r) == 0x7ff && Mantissa64(r) == 0
  }

  /** Every word is the encoding of its own fields. */
  lemma Encode64Fields(r: bv64)
    ensures Encode64(Sign64(r), Exponent64(r), Mantissa64(r)) == r
  {
  }
}

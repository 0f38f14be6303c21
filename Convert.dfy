/*
 * The four conversions of `src/convert/mod.rs`, from IBM System/360
 * hexadecimal floating point to IEEE 754 binary floating point, on bit
 * patterns.
 *
 * An IBM number is a sign bit, a 7-bit exponent of 16 biased by 64 and a
 * fraction of 24 (single) or 56 (double) bits read as 0.f. Each conversion
 * splits the word, returns the signed zero when the fraction is zero,
 * normalises the fraction so that its leading one sits at the top of the
 * field (turning the hexadecimal exponent into a binary one), rebiases the
 * exponent and assembles the IEEE word, rounding half to even where bits
 * are dropped.
 *
 * Rust's `i32` exponent arithmetic never leaves a few hundred either side
 * of zero, so exponents are Dafny `int`s; shift amounts are `nat`s; the
 * `u32`/`u64` words are `bv32`/`bv64`, whose `+` wraps as `wrapping_add`
 * does.
 */
module Convert {
  import opened Bits
  import opened Rounding
  import opened Ieee

  // ---------------------------------------------------------------------
  // split
  // ---------------------------------------------------------------------

  /** `split`'s masks for `u32`, computed from `u32::MAX` as `split` computes them. */
  const Max32: bv32 := 0xffff_ffff
  const SignMask32: bv32 := Max32 & !(Max32 >> 1)
  const FractionMask32: bv32 := Max32 >> 8
  const ExponentMask32: bv32 := !SignMask32 & !FractionMask32

  /** `split`'s masks for `u64`. */
  const Max64: bv64 := 0xffff_ffff_ffff_ffff
  const SignMask64: bv64 := Max64 & !(Max64 >> 1)
  const FractionMask64: bv64 := Max64 >> 8
  const ExponentMask64: bv64 := !SignMask64 & !FractionMask64

  /** A word taken apart: the sign bit in place, the exponent slid right, the fraction in place. */
  datatype Parts32 = Parts32(sign: bv32, exponent: bv32, fraction: bv32)
  datatype Parts64 = Parts64(sign: bv64, exponent: bv64, fraction: bv64)

  /**
   * `split` for `u32`: the three parts put back together give the word,
   * and each stays in its own field.
   */
  function Split32(ibm: bv32): (p: Parts32)
    ensures p.sign | (p.exponent << 24) | p.fraction == ibm
    ensures p.sign & 0x7fff_ffff == 0 && p.exponent < 0x80 && p.fraction >> 24 == 0
  {
    Parts32(ibm & SignMask32, (ibm & ExponentMask32) >> 24, ibm & FractionMask32)
  }

  /** `split` for `u64`. */
  function Split64(ibm: bv64): (p: Parts64)
    ensures p.sign | (p.exponent << 56) | p.fraction == ibm
    ensures p.sign & 0x7fff_ffff_ffff_ffff == 0 && p.exponent < 0x80 && p.fraction >> 56 == 0
  {
    Parts64(ibm & SignMask64, (ibm & ExponentMask64) >> 56, ibm & FractionMask64)
  }

  // ---------------------------------------------------------------------
  // Normalisation
  // ---------------------------------------------------------------------

  /** A fraction with its leading one moved to the top of its field, and the binary exponent to match. */
  datatype Normalised32 = Normalised32(exponent: int, fraction: bv32)
  datatype Normalised64 = Normalised64(exponent: int, fraction: bv64)

  /** `leading_zeros() - 8`: how far a non-zero 24-bit fraction is shifted to normalise it. */
  function NormShift32(fraction: bv32): (s: nat)
    requires fraction != 0 && fraction >> 24 == 0
    ensures s < 24
    ensures ShiftLeft32(fraction, s) >> 23 == 1
  {
    NormalisingShift32(fraction);
    LeadingZeros32(fraction) - 8
  }

  /** `leading_zeros() - 8` for a non-zero 56-bit fraction. */
  function NormShift64(fraction: bv64): (s: nat)
    requires fraction != 0 && fraction >> 56 == 0
    ensures s < 56
    ensures ShiftLeft64(fraction, s) >> 55 == 1
  {
    NormalisingShift64(fraction);
    LeadingZeros64(fraction) - 8
  }

  /**
   * The normalisation step shared by the conversions: the hexadecimal
   * exponent times four, less the shift, is the binary exponent of the
   * shifted fraction. The shifted fraction has its leading one in bit 23
   * and loses none of its bits, so the value `fraction * 16^exponent` is
   * unchanged.
   */
  function Normalise32(exponent: bv32, fraction: bv32): (n: Normalised32)
    requires exponent < 0x80 && fraction != 0 && fraction >> 24 == 0
    ensures n.fraction >> 23 == 1
    ensures ShiftRight32(n.fraction, NormShift32(fraction)) == fraction
    ensures n.exponent + NormShift32(fraction) == ((exponent << 2) as int)
  {
    var shift := NormShift32(fraction);
    NormaliseKeepsBits32(fraction, shift);
    Normalised32(((exponent << 2) as int) - shift, Shl32(fraction, shift))
  }

  /** The normalisation step for 56-bit fractions; the leading one ends in bit 55. */
  function Normalise64(exponent: bv64, fraction: bv64): (n: Normalised64)
    requires exponent < 0x80 && fraction != 0 && fraction >> 56 == 0
    ensures n.fraction >> 55 == 1
    ensures ShiftRight64(n.fraction, NormShift64(fraction)) == fraction
    ensures n.exponent + NormShift64(fraction) == ((exponent << 2) as int)
  {
    var shift := NormShift64(fraction);
    NormaliseKeepsBits64(fraction, shift);
    Normalised64(((exponent << 2) as int) - shift, Shl64(fraction, shift))
  }

  /** The normalising shift only moves zeros out at the top. */
  lemma NormaliseKeepsBits32(fraction: bv32, shift: nat)
    requires fraction != 0 && fraction >> 24 == 0 && shift == NormShift32(fraction)
    ensures ShiftRight32(ShiftLeft32(fraction, shift), shift) == fraction
  {
    LeadingZerosAreZero32(fraction, 32, shift);
    ShiftLeftUndo32(fraction, shift);
  }

  lemma NormaliseKeepsBits64(fraction: bv64, shift: nat)
    requires fraction != 0 && fraction >> 56 == 0 && shift == NormShift64(fraction)
    ensures ShiftRight64(ShiftLeft64(fraction, shift), shift) == fraction
  {
    LeadingZerosAreZero64(fraction, 64, shift);
    ShiftLeftUndo64(fraction, shift);
  }

  /**
   * A 24-bit fraction whose top digit is zero has at least 12 leading
   * zeros, and shifting it left one digit removes exactly four of them.
   */
  lemma DigitLeadingZeros32(fraction: bv32)
    requires fraction != 0 && fraction >> 20 == 0
    ensures 12 <= LeadingZeros32(fraction) < 32
    ensures LeadingZeros32(fraction << 4) == LeadingZeros32(fraction) - 4
  {
    NormalisingShift32(fraction);
    ShiftRight32By20(fraction, 20);
    ZerosAreLeadingZeros32(fraction, 32, 12);
    LeadingZerosShift32(fraction, 32, 4);
    ShiftLeft32By4(fraction, 4);
    LeadingZerosWithinMore32(fraction << 4, 28, 32);
  }

  lemma DigitLeadingZeros64(fraction: bv64)
    requires fraction != 0 && fraction >> 52 == 0
    ensures 12 <= LeadingZeros64(fraction) < 64
    ensures LeadingZeros64(fraction << 4) == LeadingZeros64(fraction) - 4
  {
    NormalisingShift64(fraction);
    ShiftRight64By52(fraction, 52);
    ZerosAreLeadingZeros64(fraction, 64, 12);
    LeadingZerosShift64(fraction, 64, 4);
    ShiftLeft64By4(fraction, 4);
    LeadingZerosWithinMore64(fraction << 4, 60, 64);
  }

  /**
   * One turn of the normalisation loop on a fraction whose top digit is
   * zero: shifting out that digit leaves four fewer bits to shift, and
   * the same normalised fraction.
   */
  lemma DigitStep32(fraction: bv32)
    requires fraction != 0 && fraction >> 20 == 0
    ensures fraction << 4 != 0 && (fraction << 4) >> 24 == 0
    ensures NormShift32(fraction) >= 4 && NormShift32(fraction << 4) == NormShift32(fraction) - 4
    ensures ShiftLeft32(fraction << 4, NormShift32(fraction << 4)) == ShiftLeft32(fraction, NormShift32(fraction))
  {
    DigitLeadingZeros32(fraction);
    assert fraction << 4 != 0 && (fraction << 4) >> 24 == 0;
    ShiftLeft32By4(fraction, 4);
    ShiftLeft32Add(fraction, 4, NormShift32(fraction) - 4);
  }

  lemma DigitStep64(fraction: bv64)
    requires fraction != 0 && fraction >> 52 == 0
    ensures fraction << 4 != 0 && (fraction << 4) >> 56 == 0
    ensures NormShift64(fraction) >= 4 && NormShift64(fraction << 4) == NormShift64(fraction) - 4
    ensures ShiftLeft64(fraction << 4, NormShift64(fraction << 4)) == ShiftLeft64(fraction, NormShift64(fraction))
  {
    DigitLeadingZeros64(fraction);
    assert fraction << 4 != 0 && (fraction << 4) >> 56 == 0;
    ShiftLeft64By4(fraction, 4);
    ShiftLeft64Add(fraction, 4, NormShift64(fraction) - 4);
  }

  /**
   * The same number written with one hexadecimal digit more in the
   * fraction and one less in the exponent normalises to the same binary
   * exponent and fraction.
   */
  lemma Normalise32Reencode(exponent: bv32, fraction: bv32)
    requires 1 <= exponent < 0x80 && fraction != 0 && fraction >> 20 == 0
    ensures fraction << 4 != 0 && (fraction << 4) >> 24 == 0
    ensures Normalise32(exponent - 1, fraction << 4) == Normalise32(exponent, fraction)
  {
    DigitStep32(fraction);
    assert ((exponent - 1) << 2) as int == ((exponent << 2) as int) - 4;
  }

  lemma Normalise64Reencode(exponent: bv64, fraction: bv64)
    requires 1 <= exponent < 0x80 && fraction != 0 && fraction >> 52 == 0
    ensures fraction << 4 != 0 && (fraction << 4) >> 56 == 0
    ensures Normalise64(exponent - 1, fraction << 4) == Normalise64(exponent, fraction)
  {
    DigitStep64(fraction);
    assert ((exponent - 1) << 2) as int == ((exponent << 2) as int) - 4;
  }

  // ---------------------------------------------------------------------
  // ibm32ieee32
  // ---------------------------------------------------------------------

  /** IBM single to IEEE binary32 (`ibm32ieee32`). */
  function Ibm32Ieee32(ibm: bv32): bv32
  {
    var p := Split32(ibm);
    if p.fraction == 0 then p.sign
    else
      var n := Normalise32(p.exponent, p.fraction);
      Ieee32FromNormalised(p.sign, n.exponent - 131, n.fraction)
  }

  /**
   * The part of `ibm32ieee32` after normalisation. `e` is the biased IEEE
   * exponent less one: the hidden bit of `fraction` is left in place, and
   * adding it carries one into the exponent field.
   */
  function Ieee32FromNormalised(sign: bv32, e: int, fraction: bv32): bv32
  {
    if e >= 254 then
      sign + 0x7f80_0000
    else if e >= 0 then
      sign + ((e as bv32) << 23) + fraction
    else if e >= -32 then
      sign + RoundingShift32(fraction, -1 - e)
    else
      sign
  }

  /**
   * What `ibm32ieee32` is meant to produce for a normalised number with
   * sign bit `s`, fraction `fraction` (leading one in bit 23) and biased
   * binary32 exponent `e + 1`: an infinity above the largest exponent 254;
   * the fields themselves in the normal range; below it, the fraction
   * scaled to the subnormal unit 2^-149 (a right shift by `-e` places) and
   * rounded half to even, which is zero once every bit is shifted out and
   * the smallest normal number when the rounding carries.
   */
  function Single32(s: bv32, e: int, fraction: bv32): bv32
    requires s < 2 && fraction >> 24 == 0
  {
    if e >= 254 then
      Encode32(s, 0xff, 0)
    else if e >= 0 then
      ExponentBits32(e);
      Encode32(s, (e as bv32) + 1, fraction & 0x7f_ffff)
    else
      (s << 31) | RoundTiesToEven32(fraction, -1 - e)
  }

  /** The reference for `ibm32ieee32`: the signed zero, or `Single32` of the normalised number. */
  function Ibm32Ieee32Reference(ibm: bv32): bv32
  {
    var p := Split32(ibm);
    if p.fraction == 0 then
      Encode32(p.sign >> 31, 0, 0)
    else
      var n := Normalise32(p.exponent, p.fraction);
      Single32(p.sign >> 31, n.exponent - 131, n.fraction)
  }

  /** `ibm32ieee32` computes its reference on every input. */
  lemma Ibm32Ieee32MatchesReference(ibm: bv32)
    ensures Ibm32Ieee32(ibm) == Ibm32Ieee32Reference(ibm)
  {
    var p := Split32(ibm);
    if p.fraction != 0 {
      var n := Normalise32(p.exponent, p.fraction);
      var e := n.exponent - 131;
      Ibm32Ieee32Unfold(ibm, p, n, e);
      Ibm32Ieee32ReferenceUnfold(ibm, p, n, e);
      Ieee32FromNormalisedMeaning(p.sign, e, n.fraction);
    } else {
      SignedZero32(p.sign);
    }
  }

  /** `ibm32ieee32` of a word with a non-zero fraction, unfolded to its tail. */
  lemma Ibm32Ieee32Unfold(ibm: bv32, p: Parts32, n: Normalised32, e: int)
    requires p == Split32(ibm) && p.fraction != 0
    requires n == Normalise32(p.exponent, p.fraction) && e == n.exponent - 131
    ensures Ibm32Ieee32(ibm) == Ieee32FromNormalised(p.sign, e, n.fraction)
  {
  }

  /** `Ibm32Ieee32Reference` of a word with a non-zero fraction, unfolded to `Single32`. */
  lemma Ibm32Ieee32ReferenceUnfold(ibm: bv32, p: Parts32, n: Normalised32, e: int)
    requires p == Split32(ibm) && p.fraction != 0
    requires n == Normalise32(p.exponent, p.fraction) && e == n.exponent - 131
    ensures Ibm32Ieee32Reference(ibm) == Single32(p.sign >> 31, e, n.fraction)
  {
  }

  /** The tail of `ibm32ieee32` computes `Single32`, branch by branch. */
  lemma Ieee32FromNormalisedMeaning(sign: bv32, e: int, fraction: bv32)
    requires sign & 0x7fff_ffff == 0 && fraction >> 23 == 1
    ensures Ieee32FromNormalised(sign, e, fraction) == Single32(sign >> 31, e, fraction)
  {
    if e >= 254 {
      Overflow32(sign);
    } else if e >= 0 {
      Normal32(sign, e, fraction);
    } else if e >= -32 {
      Subnormal32(sign, e, fraction);
    } else {
      Underflow32(sign, e, fraction);
    }
  }

  lemma Overflow32(sign: bv32)
    requires sign & 0x7fff_ffff == 0
    ensures sign + 0x7f80_0000 == Encode32(sign >> 31, 0xff, 0)
  {
  }

  lemma SignedZero32(sign: bv32)
    requires sign & 0x7fff_ffff == 0
    ensures sign == Encode32(sign >> 31, 0, 0)
  {
  }

  lemma Normal32(sign: bv32, e: int, fraction: bv32)
    requires sign & 0x7fff_ffff == 0 && fraction >> 23 == 1 && 0 <= e < 254
    ensures Ieee32FromNormalised(sign, e, fraction) == Single32(sign >> 31, e, fraction)
  {
    var b := e as bv32;
    ExponentBits32(e);
    NormalFields32(sign, b, fraction);
  }

  /** Adding the exponent on top of the hidden bit carries it into the exponent field. */
  lemma NormalFields32(sign: bv32, b: bv32, fraction: bv32)
    requires sign & 0x7fff_ffff == 0 && fraction >> 23 == 1 && b < 254
    ensures sign + (b << 23) + fraction == Encode32(sign >> 31, b + 1, fraction & 0x7f_ffff)
  {
  }

  lemma Subnormal32(sign: bv32, e: int, fraction: bv32)
    requires sign & 0x7fff_ffff == 0 && fraction >> 24 == 0 && -32 <= e < 0
    ensures Ieee32FromNormalised(sign, e, fraction) == Single32(sign >> 31, e, fraction)
  {
    SubnormalUnfold32(sign, e, fraction);
    RoundingTrick32(fraction, -1 - e);
    RoundTiesToEvenBound32(fraction, -1 - e);
    SignJoin32(sign, RoundTiesToEven32(fraction, -1 - e));
  }

  /** Both sides of `Subnormal32`, unfolded. */
  lemma SubnormalUnfold32(sign: bv32, e: int, fraction: bv32)
    requires fraction >> 24 == 0 && -32 <= e < 0
    ensures Ieee32FromNormalised(sign, e, fraction) == sign + RoundingShift32(fraction, -1 - e)
    ensures Single32(sign >> 31, e, fraction) == ((sign >> 31) << 31) | RoundTiesToEven32(fraction, -1 - e)
  {
  }

  /** Adding a magnitude of at most 2^23 to a sign word sets the bits the encoding sets. */
  lemma SignJoin32(sign: bv32, y: bv32)
    requires sign & 0x7fff_ffff == 0 && y <= 0x80_0000
    ensures sign + y == ((sign >> 31) << 31) | y
  {
  }

  lemma Underflow32(sign: bv32, e: int, fraction: bv32)
    requires sign & 0x7fff_ffff == 0 && fraction >> 24 == 0 && e < -32
    ensures Ieee32FromNormalised(sign, e, fraction) == Single32(sign >> 31, e, fraction)
  {
    var k: nat := -1 - e;
    RoundTiesToEvenBeyond32(fraction, k);
  }

  /** Rounding away 24 bits or more of a 24-bit word leaves zero. */
  lemma RoundTiesToEvenBeyond32(x: bv32, k: nat)
    requires x >> 24 == 0 && k >= 24
    ensures RoundTiesToEven32(x, k) == 0
  {
    var j := k + 1;
    ShiftRight32Beyond(x, k);
    ShiftRight32Beyond(x, j);
  }

  /** An exponent in the normal range stays below 254 as a word. */
  lemma ExponentBits32(e: int)
    requires 0 <= e < 254
    ensures e as bv32 < 254
  {
  }

  /** Rounding a 24-bit word by one place or more gives at most 2^23. */
  lemma RoundTiesToEvenBound32(x: bv32, k: nat)
    requires x >> 24 == 0
    ensures RoundTiesToEven32(x, k) <= 0x80_0000
  {
    var y, j := x >> 1, k + 1;
    ShiftRight32Unfold(x, y, k, j);
    ShiftRight32Le(y, k);
  }

  /** `Single32` sets the sign bit to `s` and the rest does not depend on it. */
  lemma Single32Sign(s: bv32, e: int, fraction: bv32)
    requires s < 2 && fraction >> 24 == 0
    ensures Single32(s, e, fraction) == (s << 31) | Single32(0, e, fraction)
    ensures Single32(0, e, fraction) >> 31 == 0
  {
    if e < 0 {
      RoundTiesToEvenBound32(fraction, -1 - e);
    } else if e < 254 {
      ExponentBits32(e);
    }
  }

  /** `Single32` never produces a NaN. */
  lemma Single32NotNan(s: bv32, e: int, fraction: bv32)
    requires s < 2 && fraction >> 24 == 0
    ensures !IsNan32(Single32(s, e, fraction))
  {
    if e < 0 {
      RoundTiesToEvenBound32(fraction, -1 - e);
    } else if e < 254 {
      ExponentBits32(e);
    }
  }

  /** Zero law: a zero fraction gives the zero of the same sign, whatever the exponent. */
  lemma Ibm32Ieee32Zero(ibm: bv32)
    requires ibm & 0x00ff_ffff == 0
    ensures Ibm32Ieee32(ibm) == ibm & 0x8000_0000
  {
  }

  /** `ibm32ieee32` never produces a NaN. */
  lemma Ibm32Ieee32NotNan(ibm: bv32)
    ensures !IsNan32(Ibm32Ieee32(ibm))
  {
    Ibm32Ieee32MatchesReference(ibm);
    var p := Split32(ibm);
    if p.fraction != 0 {
      var n := Normalise32(p.exponent, p.fraction);
      Single32NotNan(p.sign >> 31, n.exponent - 131, n.fraction);
    }
  }

  /** Clearing the sign bit leaves the exponent and the fraction alone. */
  lemma Split32Sign(ibm: bv32)
    ensures Split32(ibm & 0x7fff_ffff) == Split32(ibm).(sign := 0)
  {
  }

  /**
   * The sign is added on top of a magnitude that has the sign bit clear, so
   * `wrapping_add` acts as a bitwise or: the result is the sign bit of the
   * input over the conversion of its absolute value.
   */
  lemma Ibm32Ieee32Magnitude(ibm: bv32)
    ensures Ibm32Ieee32(ibm & 0x7fff_ffff) >> 31 == 0
    ensures Ibm32Ieee32(ibm) == (ibm & 0x8000_0000) | Ibm32Ieee32(ibm & 0x7fff_ffff)
  {
    var m := ibm & 0x7fff_ffff;
    Ibm32Ieee32MatchesReference(ibm);
    Ibm32Ieee32MatchesReference(m);
    Split32Sign(ibm);
    var p := Split32(ibm);
    if p.fraction != 0 {
      var n := Normalise32(p.exponent, p.fraction);
      var e := n.exponent - 131;
      Ibm32Ieee32ReferenceUnfold(ibm, p, n, e);
      Ibm32Ieee32ReferenceUnfold(m, p.(sign := 0), n, e);
      Single32Sign(p.sign >> 31, e, n.fraction);
    }
  }

  /** A non-zero input converts to `Single32` of its normalised parts. */
  lemma Ibm32Ieee32IsSingle(ibm: bv32, p: Parts32, n: Normalised32, e: int)
    requires p == Split32(ibm) && p.fraction != 0
    requires n == Normalise32(p.exponent, p.fraction) && e == n.exponent - 131
    ensures Ibm32Ieee32(ibm) == Single32(p.sign >> 31, e, n.fraction)
  {
    Ibm32Ieee32MatchesReference(ibm);
    Ibm32Ieee32ReferenceUnfold(ibm, p, n, e);
  }

  /**
   * How `ibm32ieee32` classifies a non-zero number by `e`, its biased
   * binary32 exponent less one (see `Ibm32Ieee32IsSingle`): infinity from
   * 254 up, a normal number with exponent field `e + 1` and the fraction's
   * trailing bits from 0 to 253, a subnormal number (or, after rounding up,
   * the smallest normal one) from -32 to -1, and a signed zero below.
   */
  lemma Single32Classes(s: bv32, e: int, fraction: bv32)
    requires s < 2 && fraction >> 24 == 0
    ensures Sign32(Single32(s, e, fraction)) == s
    ensures e >= 254 ==> IsInfinite32(Single32(s, e, fraction))
    ensures 0 <= e < 254 ==> 1 <= Exponent32(Single32(s, e, fraction)) <= 254
    ensures 0 <= e < 254 ==> Mantissa32(Single32(s, e, fraction)) == fraction & 0x7f_ffff
    ensures -32 <= e < 0 ==> Exponent32(Single32(s, e, fraction)) <= 1
    ensures e < -32 ==> Single32(s, e, fraction) == s << 31
  {
    if e < 0 {
      var k: nat := -1 - e;
      RoundTiesToEvenBound32(fraction, k);
      if e < -32 {
        RoundTiesToEvenBeyond32(fraction, k);
      }
    } else if e < 254 {
      ExponentBits32(e);
    }
  }

  /** The largest IBM single, about 7.2e75, overflows to infinity. */
  lemma Ibm32Ieee32Overflows()
    ensures Ibm32Ieee32(0x78ff_ffff) == 0x7f80_0000
  {
    ShiftRight32By23(0xff_ffff, 23);
    LeadingZerosExact32(0xff_ffff, 8);
  }

  /** 2^-16, written with five leading zero hexadecimal digits, converts exactly. */
  lemma Ibm32Ieee32Unnormalised()
    ensures Ibm32Ieee32(0x4100_0010) == 0x3780_0000
  {
    var p := Split32(0x4100_0010);
    assert p == Parts32(0, 0x41, 0x10);
    ShiftRight32By4(0x10, 4);
    LeadingZerosExact32(0x10, 27);
    ShiftLeft32By19(0x10, 19);
    var n := Normalise32(0x41, 0x10);
    assert n == Normalised32(241, 0x80_0000);
    Ibm32Ieee32Unfold(0x4100_0010, p, n, 110);
  }

  // ---------------------------------------------------------------------
  // ibm64ieee32
  // ---------------------------------------------------------------------

  /** Rust's `as u32` on a `u64`: the low 32 bits. */
  function Truncate32(x: bv64): (r: bv32)
    ensures r as bv64 == x & 0xffff_ffff
  {
    (x & 0xffff_ffff) as bv32
  }

  /** IBM double to IEEE binary32 (`ibm64ieee32`). */
  function Ibm64Ieee32(ibm: bv64): bv32
  {
    var p := Split64(ibm);
    var sign := Truncate32(p.sign >> 32);
    if p.fraction == 0 then sign
    else
      var n := Normalise64(p.exponent, p.fraction);
      Ieee32FromNormalised64(sign, n.exponent - 131, n.fraction)
  }

  /**
   * The part of `ibm64ieee32` after normalisation; the leading one of
   * `fraction` is in bit 55, and 32 bits are rounded away in the normal
   * range.
   */
  function Ieee32FromNormalised64(sign: bv32, e: int, fraction: bv64): bv32
  {
    if e >= 254 then
      sign + 0x7f80_0000
    else if e >= 0 then
      sign + ((e as bv32) << 23) + Truncate32(NormalFraction64To32(fraction))
    else if e >= -32 then
      // `round_up` is a `u32` widened to `u64` here: 0 or 1 either way.
      sign + Truncate32(RoundingShift64(fraction, 31 - e))
    else
      sign
  }

  /**
   * The normal branch of `ibm64ieee32` drops the low 32 bits of the 56-bit
   * fraction: the mask 0x1_7fff_ffff selects the 31 sticky bits below the
   * rounding bit (bit 31) and the parity bit above it (bit 32).
   */
  function NormalFraction64To32(fraction: bv64): bv64
  {
    RoundStep64(fraction, 0x1_7fff_ffff, fraction >> 31)
  }

  /**
   * What `ibm64ieee32` is meant to produce for a normalised number with
   * sign bit `s`, a 56-bit fraction `fraction` (leading one in bit 55) and
   * biased binary32 exponent `e + 1`: an infinity above exponent 254; in
   * the normal range the fraction rounded half to even to 24 bits, where a
   * carry out of the 24 bits moves to the next exponent (and to infinity
   * from the largest one); below it, the fraction scaled to the subnormal
   * unit and rounded half to even.
   */
  function Single32From64(s: bv32, e: int, fraction: bv64): bv32
    requires s < 2 && fraction >> 56 == 0
  {
    if e >= 254 then
      Encode32(s, 0xff, 0)
    else if e >= 0 then
      ExponentBits32(e);
      Carry32(s, e as bv32, RoundTiesToEven64(fraction, 31))
    else
      (s << 31) | Truncate32(RoundTiesToEven64(fraction, 31 - e))
  }

  /**
   * The binary32 number with sign bit `s`, biased exponent `b + 1` and a
   * significand `m` rounded to 24 bits: when the rounding carried out to
   * 2^24, the number moves to the next exponent with a zero mantissa.
   */
  function Carry32(s: bv32, b: bv32, m: bv64): bv32
    requires s < 2 && b < 254
  {
    if m == 0x100_0000 then Encode32(s, b + 2, 0)
    else Encode32(s, b + 1, Truncate32(m) & 0x7f_ffff)
  }

  /** The reference for `ibm64ieee32`. */
  function Ibm64Ieee32Reference(ibm: bv64): bv32
  {
    var p := Split64(ibm);
    if p.fraction == 0 then
      Encode32(Truncate32(p.sign >> 63), 0, 0)
    else
      var n := Normalise64(p.exponent, p.fraction);
      Single32From64(Truncate32(p.sign >> 63), n.exponent - 131, n.fraction)
  }

  /** `ibm64ieee32` computes its reference on every input. */
  lemma Ibm64Ieee32MatchesReference(ibm: bv64)
    ensures Ibm64Ieee32(ibm) == Ibm64Ieee32Reference(ibm)
  {
    var p := Split64(ibm);
    var sign := Truncate32(p.sign >> 32);
    SignWord32(p.sign, sign);
    if p.fraction != 0 {
      var n := Normalise64(p.exponent, p.fraction);
      var e := n.exponent - 131;
      Ibm64Ieee32Unfold(ibm, p, sign, n, e);
      Ibm64Ieee32ReferenceUnfold(ibm, p, n, e);
      Ieee32FromNormalised64Meaning(sign, e, n.fraction);
    } else {
      SignedZero32(sign);
    }
  }

  /** The sign of a double, moved to the top of a single. */
  lemma SignWord32(sign: bv64, s: bv32)
    requires sign & 0x7fff_ffff_ffff_ffff == 0 && s == Truncate32(sign >> 32)
    ensures s & 0x7fff_ffff == 0 && s >> 31 == Truncate32(sign >> 63)
  {
  }

  lemma Ibm64Ieee32Unfold(ibm: bv64, p: Parts64, sign: bv32, n: Normalised64, e: int)
    requires p == Split64(ibm) && p.fraction != 0 && sign == Truncate32(p.sign >> 32)
    requires n == Normalise64(p.exponent, p.fraction) && e == n.exponent - 131
    ensures Ibm64Ieee32(ibm) == Ieee32FromNormalised64(sign, e, n.fraction)
  {
  }

  lemma Ibm64Ieee32ReferenceUnfold(ibm: bv64, p: Parts64, n: Normalised64, e: int)
    requires p == Split64(ibm) && p.fraction != 0
    requires n == Normalise64(p.exponent, p.fraction) && e == n.exponent - 131
    ensures Ibm64Ieee32Reference(ibm) == Single32From64(Truncate32(p.sign >> 63), e, n.fraction)
  {
  }

  /** The tail of `ibm64ieee32` computes `Single32From64`, branch by branch. */
  lemma Ieee32FromNormalised64Meaning(sign: bv32, e: int, fraction: bv64)
    requires sign & 0x7fff_ffff == 0 && fraction >> 55 == 1
    ensures Ieee32FromNormalised64(sign, e, fraction) == Single32From64(sign >> 31, e, fraction)
  {
    if e >= 254 {
      Overflow32(sign);
    } else if e >= 0 {
      NormalMeaning64To32(sign, e, fraction);
    } else if e >= -32 {
      Subnormal64To32(sign, e, fraction);
    } else {
      Underflow64To32(sign, e, fraction);
    }
  }

  lemma NormalMeaning64To32(sign: bv32, e: int, fraction: bv64)
    requires sign & 0x7fff_ffff == 0 && fraction >> 55 == 1 && 0 <= e < 254
    ensures Ieee32FromNormalised64(sign, e, fraction) == Single32From64(sign >> 31, e, fraction)
  {
    NormalUnfold64To32(sign, e, fraction);
    Normal64To32(sign, e, fraction);
  }

  /** The normal branch of `ibm64ieee32` rounds to 24 bits and carries as `Carry32` does. */
  lemma Normal64To32(sign: bv32, e: int, fraction: bv64)
    requires sign & 0x7fff_ffff == 0 && fraction >> 55 == 1 && 0 <= e < 254
    ensures e as bv32 < 254
    ensures sign + ((e as bv32) << 23) + Truncate32(NormalFraction64To32(fraction))
            == Carry32(sign >> 31, e as bv32, RoundTiesToEven64(fraction, 31))
  {
    NormalRounding64To32(fraction);
    NormalCarry64To32(sign, e, fraction);
  }

  /** Adding the significand rounded to 24 bits on top of the exponent gives `Carry32`. */
  lemma NormalCarry64To32(sign: bv32, e: int, fraction: bv64)
    requires sign & 0x7fff_ffff == 0 && 0 <= e < 254 && fraction >> 55 == 1
    ensures e as bv32 < 254
    ensures sign + ((e as bv32) << 23) + Truncate32(RoundTiesToEven64(fraction, 31))
            == Carry32(sign >> 31, e as bv32, RoundTiesToEven64(fraction, 31))
  {
    ExponentBits32(e);
    NormalRoundingBounds64To32(fraction);
    var m := RoundTiesToEven64(fraction, 31);
    if m == 0x100_0000 {
      CarriedFields32(sign, e);
    } else {
      NormalFields64To32(sign, e, m);
    }
  }

  /** Both sides of `Normal64To32`, unfolded. */
  lemma NormalUnfold64To32(sign: bv32, e: int, fraction: bv64)
    requires fraction >> 55 == 1 && 0 <= e < 254
    ensures e as bv32 < 254
    ensures Ieee32FromNormalised64(sign, e, fraction) == sign + ((e as bv32) << 23) + Truncate32(NormalFraction64To32(fraction))
    ensures Single32From64(sign >> 31, e, fraction) == Carry32(sign >> 31, e as bv32, RoundTiesToEven64(fraction, 31))
  {
    ExponentBits32(e);
  }

  /** The normal branch's literal mask and shift are the rounding shift with `k == 31`. */
  lemma NormalRounding64To32(fraction: bv64)
    requires fraction >> 55 == 1
    ensures NormalFraction64To32(fraction) == RoundTiesToEven64(fraction, 31)
  {
    NormalShift64To32(fraction);
    RoundingTrick64(fraction, 31);
  }

  /** The normal branch's constant mask `0x1_7fff_ffff` is the rounding shift's mask for `k = 31`. */
  lemma NormalShift64To32(fraction: bv64)
    ensures NormalFraction64To32(fraction) == RoundingShift64(fraction, 31)
  {
    RoundMask64To32();
    ShiftRight64By31(fraction, 31);
  }

  /** The mask of the bits below the kept 24 and the rounding bit, as a machine shift computes it. */
  lemma RoundMask64To32()
    ensures !Shl64(0xffff_ffff_ffff_fffd, 31) == 0x1_7fff_ffff
  {
    ShiftLeft64By31(0xffff_ffff_ffff_fffd, 31);
  }

  /** A 56-bit fraction with its leading one in bit 55 rounds to between 2^23 and 2^24. */
  lemma NormalRoundingBounds64To32(fraction: bv64)
    requires fraction >> 55 == 1
    ensures 0x80_0000 <= RoundTiesToEven64(fraction, 31) <= 0x100_0000
  {
    ShiftRight64By32(fraction, 32);
  }

  /**
   * Adding the exponent on top of the rounded significand carries its
   * leading one into the exponent field.
   */
  lemma NormalFields64To32(sign: bv32, e: int, m: bv64)
    requires sign & 0x7fff_ffff == 0 && 0 <= e < 254 && 0x80_0000 <= m < 0x100_0000
    ensures e as bv32 < 254
    ensures sign + ((e as bv32) << 23) + Truncate32(m) == Carry32(sign >> 31, e as bv32, m)
  {
    ExponentBits32(e);
  }

  /** A significand rounded up to 2^24 carries one further, into the next exponent. */
  lemma CarriedFields32(sign: bv32, e: int)
    requires sign & 0x7fff_ffff == 0 && 0 <= e < 254
    ensures e as bv32 < 254
    ensures sign + ((e as bv32) << 23) + Truncate32(0x100_0000) == Carry32(sign >> 31, e as bv32, 0x100_0000)
  {
    ExponentBits32(e);
  }

  lemma Subnormal64To32(sign: bv32, e: int, fraction: bv64)
    requires sign & 0x7fff_ffff == 0 && fraction >> 56 == 0 && -32 <= e < 0
    ensures Ieee32FromNormalised64(sign, e, fraction) == Single32From64(sign >> 31, e, fraction)
  {
    SubnormalUnfold64To32(sign, e, fraction);
    RoundingTrick64(fraction, 31 - e);
    RoundTiesToEvenBound64(fraction, 31 - e);
    SignJoin64To32(sign, RoundTiesToEven64(fraction, 31 - e));
  }

  /** Both sides of `Subnormal64To32`, unfolded. */
  lemma SubnormalUnfold64To32(sign: bv32, e: int, fraction: bv64)
    requires fraction >> 56 == 0 && -32 <= e < 0
    ensures Ieee32FromNormalised64(sign, e, fraction) == sign + Truncate32(RoundingShift64(fraction, 31 - e))
    ensures Single32From64(sign >> 31, e, fraction)
            == ((sign >> 31) << 31) | Truncate32(RoundTiesToEven64(fraction, 31 - e))
  {
  }

  lemma SignJoin64To32(sign: bv32, y: bv64)
    requires sign & 0x7fff_ffff == 0 && y <= 0x100_0000
    ensures sign + Truncate32(y) == ((sign >> 31) << 31) | Truncate32(y)
  {
  }

  lemma Underflow64To32(sign: bv32, e: int, fraction: bv64)
    requires sign & 0x7fff_ffff == 0 && fraction >> 56 == 0 && e < -32
    ensures Ieee32FromNormalised64(sign, e, fraction) == Single32From64(sign >> 31, e, fraction)
  {
    var k: nat := 31 - e;
    RoundTiesToEvenBeyond64(fraction, k);
  }

  /** Rounding away 56 bits or more of a 56-bit word leaves zero. */
  lemma RoundTiesToEvenBeyond64(x: bv64, k: nat)
    requires x >> 56 == 0 && k >= 56
    ensures RoundTiesToEven64(x, k) == 0
  {
    var j := k + 1;
    ShiftRight64Beyond(x, k);
    ShiftRight64Beyond(x, j);
  }

  /** Rounding a 56-bit word by 32 places or more gives at most 2^24. */
  lemma RoundTiesToEvenBound64(x: bv64, k: nat)
    requires x >> 56 == 0 && k >= 31
    ensures RoundTiesToEven64(x, k) <= 0x100_0000
  {
    var a, b := 32, k - 31;
    ShiftRight64Add(x, a, b);
    ShiftRight64By32(x, a);
    ShiftRight64Le(x >> 32, b);
  }

  /** Rounding a 56-bit word by 33 places or more gives at most 2^23. */
  lemma RoundTiesToEvenSubnormalBound64(x: bv64, k: nat)
    requires x >> 56 == 0 && k >= 32
    ensures RoundTiesToEven64(x, k) <= 0x80_0000
  {
    var a, b := 33, k - 32;
    ShiftRight64Add(x, a, b);
    ShiftRight64Last(x, 32);
    ShiftRight64By32(x, 32);
    ShiftRight64Le(ShiftRight64(x, a), b);
  }

  /*
   * How `ibm64ieee32` classifies a non-zero number by `e`, its biased
   * binary32 exponent less one, in four lemmas: infinity from 254 up; from
   * 0 to 253 a normal number whose exponent field is `e + 1`, or `e + 2`
   * when the rounding carried out of the 24 bits (which makes `e == 253`
   * an infinity), and whose mantissa is the rounded significand's trailing
   * bits; a subnormal number (or the smallest normal one) from -32 to -1;
   * a signed zero below.
   */

  lemma Single32From64Overflow(s: bv32, e: int, fraction: bv64)
    requires s < 2 && fraction >> 55 == 1 && e >= 254
    ensures IsInfinite32(Single32From64(s, e, fraction))
    ensures Sign32(Single32From64(s, e, fraction)) == s
  {
  }

  lemma Single32From64Normal(s: bv32, e: int, fraction: bv64)
    requires s < 2 && fraction >> 55 == 1 && 0 <= e < 254
    ensures Sign32(Single32From64(s, e, fraction)) == s
    ensures Exponent32(Single32From64(s, e, fraction))
            == (e as bv32) + (if RoundTiesToEven64(fraction, 31) == 0x100_0000 then 2 else 1)
    ensures Mantissa32(Single32From64(s, e, fraction)) == Truncate32(RoundTiesToEven64(fraction, 31)) & 0x7f_ffff
  {
    NormalRoundingBounds64To32(fraction);
    var m := RoundTiesToEven64(fraction, 31);
    Carry32Fields(s, e, m);
  }

  lemma Single32From64Subnormal(s: bv32, e: int, fraction: bv64)
    requires s < 2 && fraction >> 55 == 1 && -32 <= e < 0
    ensures Sign32(Single32From64(s, e, fraction)) == s
    ensures Exponent32(Single32From64(s, e, fraction)) <= 1
  {
    var k: nat := 31 - e;
    RoundTiesToEvenSubnormalBound64(fraction, k);
  }

  lemma Single32From64Underflow(s: bv32, e: int, fraction: bv64)
    requires s < 2 && fraction >> 55 == 1 && e < -32
    ensures Single32From64(s, e, fraction) == s << 31
  {
    var k: nat := 31 - e;
    RoundTiesToEvenBeyond64(fraction, k);
  }

  /** The fields of `Carry32`: a carry adds one to the exponent and clears the mantissa. */
  lemma Carry32Fields(s: bv32, e: int, m: bv64)
    requires s < 2 && 0 <= e < 254 && 0x80_0000 <= m <= 0x100_0000
    ensures e as bv32 < 254
    ensures Sign32(Carry32(s, e as bv32, m)) == s
    ensures Exponent32(Carry32(s, e as bv32, m)) == (e as bv32) + (if m == 0x100_0000 then 2 else 1)
    ensures Mantissa32(Carry32(s, e as bv32, m)) == Truncate32(m) & 0x7f_ffff
  {
    ExponentBits32(e);
  }

  /** `Single32From64` never produces a NaN: a carry into exponent 255 leaves a zero mantissa. */
  lemma Single32From64NotNan(s: bv32, e: int, fraction: bv64)
    requires s < 2 && fraction >> 55 == 1
    ensures !IsNan32(Single32From64(s, e, fraction))
  {
    if e >= 254 {
      Single32From64Overflow(s, e, fraction);
    } else if e >= 0 {
      Single32From64Normal(s, e, fraction);
    } else if e >= -32 {
      Single32From64Subnormal(s, e, fraction);
    } else {
      Single32From64Underflow(s, e, fraction);
    }
  }

  /** `ibm64ieee32` never produces a NaN. */
  lemma Ibm64Ieee32NotNan(ibm: bv64)
    ensures !IsNan32(Ibm64Ieee32(ibm))
  {
    Ibm64Ieee32MatchesReference(ibm);
    var p := Split64(ibm);
    var s := Truncate32(p.sign >> 63);
    if p.fraction != 0 {
      var n := Normalise64(p.exponent, p.fraction);
      var e := n.exponent - 131;
      Ibm64Ieee32ReferenceUnfold(ibm, p, n, e);
      Single32From64NotNan(s, e, n.fraction);
    }
  }

  /** Zero law: a zero fraction gives the single zero of the same sign. */
  lemma Ibm64Ieee32Zero(ibm: bv64)
    requires ibm & 0x00ff_ffff_ffff_ffff == 0
    ensures Ibm64Ieee32(ibm) == Truncate32(ibm >> 32) & 0x8000_0000
  {
  }

  /** The sign bit `s` sits on top of the conversion of the magnitude. */
  lemma Single32From64Sign(s: bv32, e: int, fraction: bv64)
    requires s < 2 && fraction >> 55 == 1
    ensures Single32From64(s, e, fraction) == (s << 31) | Single32From64(0, e, fraction)
    ensures Single32From64(0, e, fraction) >> 31 == 0
  {
    if e < 0 {
      var k: nat := 31 - e;
      RoundTiesToEvenBound64(fraction, k);
      var y := RoundTiesToEven64(fraction, k);
      SignJoinBits32(s, y);
    } else if e < 254 {
      NormalRoundingBounds64To32(fraction);
      var m := RoundTiesToEven64(fraction, 31);
      Carry32Sign(s, e, m);
    }
  }

  lemma SignJoinBits32(s: bv32, y: bv64)
    requires s < 2 && y <= 0x100_0000
    ensures (s << 31) | Truncate32(y) == (s << 31) | ((0 << 31) | Truncate32(y))
    ensures ((0 << 31) | Truncate32(y)) >> 31 == 0
  {
  }

  lemma Carry32Sign(s: bv32, e: int, m: bv64)
    requires s < 2 && 0 <= e < 254 && 0x80_0000 <= m <= 0x100_0000
    ensures e as bv32 < 254
    ensures Carry32(s, e as bv32, m) == (s << 31) | Carry32(0, e as bv32, m)
    ensures Carry32(0, e as bv32, m) >> 31 == 0
  {
    ExponentBits32(e);
  }

  /** Clearing the sign bit of an IBM double leaves the exponent and the fraction alone. */
  lemma Split64Sign(ibm: bv64)
    ensures Split64(ibm & 0x7fff_ffff_ffff_ffff) == Split64(ibm).(sign := 0)
  {
  }

  /**
   * As for `ibm32ieee32`, the sign is added on top of a magnitude whose
   * sign bit is clear: the result is the input's sign bit over the
   * conversion of its absolute value.
   */
  lemma Ibm64Ieee32Magnitude(ibm: bv64)
    ensures Ibm64Ieee32(ibm & 0x7fff_ffff_ffff_ffff) >> 31 == 0
    ensures Ibm64Ieee32(ibm) == (Truncate32(ibm >> 32) & 0x8000_0000) | Ibm64Ieee32(ibm & 0x7fff_ffff_ffff_ffff)
  {
    var m := ibm & 0x7fff_ffff_ffff_ffff;
    Ibm64Ieee32MatchesReference(ibm);
    Ibm64Ieee32MatchesReference(m);
    Split64Sign(ibm);
    var p := Split64(ibm);
    if p.fraction != 0 {
      var n := Normalise64(p.exponent, p.fraction);
      var e := n.exponent - 131;
      Ibm64Ieee32ReferenceUnfold(ibm, p, n, e);
      Ibm64Ieee32ReferenceUnfold(m, p.(sign := 0), n, e);
      Single32From64Sign(Truncate32(p.sign >> 63), e, n.fraction);
    }
  }

  /** The largest IBM double below the carry converts to the largest finite single. */
  lemma Ibm64Ieee32Largest()
    ensures Ibm64Ieee32(0x60ff_ffff_7fff_ffff) == 0x7f7f_ffff
  {
    var p := Split64(0x60ff_ffff_7fff_ffff);
    assert p == Parts64(0, 0x60, 0xff_ffff_7fff_ffff);
    ShiftRight64Add(0xff_ffff_7fff_ffff, 48, 7);
    ShiftRight64By48(0xff_ffff_7fff_ffff, 48);
    ShiftRight64By7(0xff_ffff_7fff_ffff >> 48, 7);
    LeadingZerosExact64(0xff_ffff_7fff_ffff, 8);
    var n := Normalise64(0x60, 0xff_ffff_7fff_ffff);
    assert n == Normalised64(384, 0xff_ffff_7fff_ffff);
    Ibm64Ieee32Unfold(0x60ff_ffff_7fff_ffff, p, 0, n, 253);
  }

  /** One unit further, rounding carries out of the 24 bits and into infinity. */
  lemma Ibm64Ieee32CarriesToInfinity()
    ensures Ibm64Ieee32(0x60ff_ffff_8000_0000) == 0x7f80_0000
  {
    var p := Split64(0x60ff_ffff_8000_0000);
    assert p == Parts64(0, 0x60, 0xff_ffff_8000_0000);
    ShiftRight64Add(0xff_ffff_8000_0000, 48, 7);
    ShiftRight64By48(0xff_ffff_8000_0000, 48);
    ShiftRight64By7(0xff_ffff_8000_0000 >> 48, 7);
    LeadingZerosExact64(0xff_ffff_8000_0000, 8);
    var n := Normalise64(0x60, 0xff_ffff_8000_0000);
    assert n == Normalised64(384, 0xff_ffff_8000_0000);
    Ibm64Ieee32Unfold(0x60ff_ffff_8000_0000, p, 0, n, 253);
  }

  /** The most negative IBM double, 0xffff000000000000, overflows to minus infinity. */
  lemma Ibm64Ieee32NegativeOverflow()
    ensures Ibm64Ieee32(0xffff_0000_0000_0000) == 0xff80_0000
  {
    var p := Split64(0xffff_0000_0000_0000);
    assert p == Parts64(0x8000_0000_0000_0000, 0x7f, 0xff_0000_0000_0000);
    var n := Normalise64(0x7f, 0xff_0000_0000_0000);
    Ibm64Ieee32Unfold(0xffff_0000_0000_0000, p, 0x8000_0000, n, n.exponent - 131);
  }

  /** The tiny 0x0000000000260000, 16^-64 times a small fraction, underflows to +0.0. */
  lemma Ibm64Ieee32TinyUnderflow()
    ensures Ibm64Ieee32(0x26_0000) == 0
  {
    var p := Split64(0x26_0000);
    assert p == Parts64(0, 0, 0x26_0000);
    var n := Normalise64(0, 0x26_0000);
    Ibm64Ieee32Unfold(0x26_0000, p, 0, n, n.exponent - 131);
  }

  // ---------------------------------------------------------------------
  // ibm32ieee64
  // ---------------------------------------------------------------------

  /** Four times a 7-bit hexadecimal exponent is at most 508. */
  lemma FourTimes32(exponent: bv32)
    requires exponent < 0x80
    ensures 0 <= (exponent << 2) as int <= 508
  {
  }

  /** The binary exponent of a normalised IBM single lies between -23 and 508. */
  lemma NormalisedExponent32(exponent: bv32, fraction: bv32)
    requires exponent < 0x80 && fraction != 0 && fraction >> 24 == 0
    ensures -24 < Normalise32(exponent, fraction).exponent <= 508
  {
    FourTimes32(exponent);
  }

  /**
   * The source's `ieee_exponent as u64`, for the exponents the conversions
   * to binary64 compute, which lie between 0 and 0x7ff: the value as an
   * 11-bit word, zero-extended.
   */
  function ExponentWord(e: int): bv64
    requires 0 <= e < 0x800
  {
    (e as bv11) as bv64
  }

  /**
   * The biased binary64 exponent `e` (less one) that the conversions to
   * binary64 compute is at most 0x7fc, so the exponent field never
   * reaches 0x7ff, even after a carry.
   */
  lemma ExponentWord64(e: int)
    requires 0 <= e < 0x7fd
    ensures ExponentWord(e) < 0x7fd
  {
  }

  /**
   * IBM single to IEEE binary64 (`ibm32ieee64`). There is no overflow, no
   * underflow and no rounding: the 24-bit fraction fits the 53-bit
   * significand.
   */
  function Ibm32Ieee64(ibm: bv32): bv64
  {
    var p := Split32(ibm);
    var sign := (p.sign as bv64) << 32;
    if p.fraction == 0 then sign
    else
      var n := Normalise32(p.exponent, p.fraction);
      NormalisedExponent32(p.exponent, p.fraction);
      Ieee64FromNormalised32(sign, ExponentWord(n.exponent + 765), n.fraction)
  }

  /**
   * The tail of `ibm32ieee64`, given the exponent word `b`: the fraction's
   * leading one, left in bit 52 by the shift by 29, adds one to the
   * exponent field.
   */
  function Ieee64FromNormalised32(sign: bv64, b: bv64, fraction: bv32): bv64
  {
    sign + (b << 52) + WidenedFraction(fraction)
  }

  /** The fraction of `ibm32ieee64`, widened to 64 bits and shifted into the mantissa. */
  function WidenedFraction(fraction: bv32): bv64
  {
    (fraction as bv64) << 29
  }

  /**
   * What `ibm32ieee64` is meant to produce for a normalised number: the
   * binary64 number with sign bit `s`, exponent field `b + 1`, and the 23
   * trailing bits of the fraction at the top of the mantissa.
   */
  function Double64From32(s: bv64, b: bv64, fraction: bv32): bv64
    requires s < 2 && b < 0x7fd
  {
    Encode64(s, b + 1, ((fraction & 0x7f_ffff) as bv64) << 29)
  }

  /** The reference for `ibm32ieee64`. */
  function Ibm32Ieee64Reference(ibm: bv32): bv64
  {
    var p := Split32(ibm);
    if p.fraction == 0 then
      Encode64((p.sign >> 31) as bv64, 0, 0)
    else
      var n := Normalise32(p.exponent, p.fraction);
      NormalisedExponent32(p.exponent, p.fraction);
      ExponentWord64(n.exponent + 765);
      Double64From32((p.sign >> 31) as bv64, ExponentWord(n.exponent + 765), n.fraction)
  }

  /** `ibm32ieee64` computes its reference on every input. */
  lemma Ibm32Ieee64MatchesReference(ibm: bv32)
    ensures Ibm32Ieee64(ibm) == Ibm32Ieee64Reference(ibm)
  {
    var p := Split32(ibm);
    var sign := (p.sign as bv64) << 32;
    SignWord64(p.sign, sign);
    if p.fraction != 0 {
      var n := Normalise32(p.exponent, p.fraction);
      NormalisedExponent32(p.exponent, p.fraction);
      var e := n.exponent + 765;
      Ibm32Ieee64Unfold(ibm, p, sign, n, e);
      Ibm32Ieee64ReferenceUnfold(ibm, p, n, e);
      Ieee64FromNormalised32At(sign, e, n.fraction);
    }
  }

  lemma Ibm32Ieee64Unfold(ibm: bv32, p: Parts32, sign: bv64, n: Normalised32, e: int)
    requires p == Split32(ibm) && p.fraction != 0 && sign == (p.sign as bv64) << 32
    requires n == Normalise32(p.exponent, p.fraction) && e == n.exponent + 765
    ensures 0 <= e < 0x7fd
    ensures Ibm32Ieee64(ibm) == Ieee64FromNormalised32(sign, ExponentWord(e), n.fraction)
  {
    NormalisedExponent32(p.exponent, p.fraction);
  }

  lemma Ibm32Ieee64ReferenceUnfold(ibm: bv32, p: Parts32, n: Normalised32, e: int)
    requires p == Split32(ibm) && p.fraction != 0
    requires n == Normalise32(p.exponent, p.fraction) && e == n.exponent + 765
    ensures 0 <= e < 0x7fd && ExponentWord(e) < 0x7fd
    ensures Ibm32Ieee64Reference(ibm) == Double64From32((p.sign >> 31) as bv64, ExponentWord(e), n.fraction)
  {
    NormalisedExponent32(p.exponent, p.fraction);
    ExponentWord64(e);
  }

  /** `Ieee64FromNormalised32Meaning` at the exponent word of `e`. */
  lemma Ieee64FromNormalised32At(sign: bv64, e: int, fraction: bv32)
    requires sign & 0x7fff_ffff_ffff_ffff == 0 && fraction >> 23 == 1 && 0 <= e < 0x7fd
    ensures ExponentWord(e) < 0x7fd
    ensures Ieee64FromNormalised32(sign, ExponentWord(e), fraction) == Double64From32(sign >> 63, ExponentWord(e), fraction)
  {
    ExponentWord64(e);
    var b := ExponentWord(e);
    Ieee64FromNormalised32Meaning(sign, b, fraction);
  }

  /** The sign of a single, moved to the top of a double. */
  lemma SignWord64(sign: bv32, s: bv64)
    requires sign & 0x7fff_ffff == 0 && s == (sign as bv64) << 32
    ensures s & 0x7fff_ffff_ffff_ffff == 0 && s >> 63 == (sign >> 31) as bv64
    ensures s == Encode64((sign >> 31) as bv64, 0, 0)
  {
  }

  /** The tail of `ibm32ieee64` computes `Double64From32`: the additions never carry into the sign. */
  lemma Ieee64FromNormalised32Meaning(sign: bv64, b: bv64, fraction: bv32)
    requires sign & 0x7fff_ffff_ffff_ffff == 0 && fraction >> 23 == 1 && b < 0x7fd
    ensures Ieee64FromNormalised32(sign, b, fraction) == Double64From32(sign >> 63, b, fraction)
  {
  }

  /**
   * The fields of `Double64From32`: a normal number (the exponent field is
   * neither 0 nor 0x7ff) whose mantissa holds the fraction's 23 trailing
   * bits over 29 zeros, so nothing is rounded away.
   */
  lemma Double64From32Fields(s: bv64, b: bv64, fraction: bv32)
    requires s < 2 && b < 0x7fd
    ensures Sign64(Double64From32(s, b, fraction)) == s
    ensures Exponent64(Double64From32(s, b, fraction)) == b + 1
    ensures 0 < Exponent64(Double64From32(s, b, fraction)) < 0x7ff
    ensures Mantissa64(Double64From32(s, b, fraction)) & 0x1fff_ffff == 0
    ensures Mantissa64(Double64From32(s, b, fraction)) >> 29 == (fraction & 0x7f_ffff) as bv64
  {
  }

  /**
   * `ibm32ieee64` never rounds: a non-zero input gives a normal double
   * whose mantissa ends in 29 zeros; the sign bit is the input's.
   */
  lemma Ibm32Ieee64Exact(ibm: bv32)
    requires Split32(ibm).fraction != 0
    ensures Sign64(Ibm32Ieee64(ibm)) == (ibm >> 31) as bv64
    ensures 0 < Exponent64(Ibm32Ieee64(ibm)) < 0x7ff
    ensures Mantissa64(Ibm32Ieee64(ibm)) & 0x1fff_ffff == 0
  {
    Ibm32Ieee64MatchesReference(ibm);
    var p := Split32(ibm);
    var n := Normalise32(p.exponent, p.fraction);
    var e := n.exponent + 765;
    Ibm32Ieee64ReferenceUnfold(ibm, p, n, e);
    Double64From32FieldsAt((p.sign >> 31) as bv64, e, n.fraction);
  }

  /** `Double64From32Fields` at the exponent word of `e`. */
  lemma Double64From32FieldsAt(s: bv64, e: int, fraction: bv32)
    requires s < 2 && 0 <= e < 0x7fd
    ensures ExponentWord(e) < 0x7fd
    ensures Sign64(Double64From32(s, ExponentWord(e), fraction)) == s
    ensures 0 < Exponent64(Double64From32(s, ExponentWord(e), fraction)) < 0x7ff
    ensures Mantissa64(Double64From32(s, ExponentWord(e), fraction)) & 0x1fff_ffff == 0
  {
    ExponentWord64(e);
    var b := ExponentWord(e);
    Double64From32Fields(s, b, fraction);
  }

  /** Zero law: a zero fraction gives the double zero of the same sign. */
  lemma Ibm32Ieee64Zero(ibm: bv32)
    requires ibm & 0x00ff_ffff == 0
    ensures Ibm32Ieee64(ibm) == ((ibm & 0x8000_0000) as bv64) << 32
  {
  }

  /** 1.0, written as 0x41100000, converts to the binary64 1.0. */
  lemma Ibm32Ieee64One()
    ensures Ibm32Ieee64(0x4110_0000) == 0x3ff0_0000_0000_0000
  {
    var p := Split32(0x4110_0000);
    assert p == Parts32(0, 0x41, 0x10_0000);
    ShiftRight32By20(0x10_0000, 20);
    LeadingZerosExact32(0x10_0000, 11);
    ShiftLeft32By3(0x10_0000, 3);
    var n := Normalise32(0x41, 0x10_0000);
    assert n == Normalised32(257, 0x80_0000);
    Ibm32Ieee64Unfold(0x4110_0000, p, 0, n, 1022);
    assert Ibm32Ieee64(0x4110_0000) == Ieee64FromNormalised32(0, ExponentWord(1022), 0x80_0000);
    OneTail32();
  }

  /**
   * Sign symmetry of `ibm32ieee64`: the sign bit moves from bit 31 to bit
   * 63, over the conversion of the magnitude, whose bit 63 is clear.
   */
  lemma Ibm32Ieee64Magnitude(ibm: bv32)
    ensures Ibm32Ieee64(ibm & 0x7fff_ffff) >> 63 == 0
    ensures Ibm32Ieee64(ibm) == (((ibm & 0x8000_0000) as bv64) << 32) | Ibm32Ieee64(ibm & 0x7fff_ffff)
  {
    Ibm32Ieee64MagnitudeClear(ibm);
    Ibm32Ieee64SignJoin(ibm);
  }

  lemma Ibm32Ieee64MagnitudeClear(ibm: bv32)
    ensures Ibm32Ieee64(ibm & 0x7fff_ffff) >> 63 == 0
  {
    var m := ibm & 0x7fff_ffff;
    Split32Sign(ibm);
    var p := Split32(ibm);
    if p.fraction != 0 {
      var n := Normalise32(p.exponent, p.fraction);
      var e := n.exponent + 765;
      Ibm32Ieee64Unfold(m, p.(sign := 0), 0, n, e);
      ExponentWord64(e);
      WidenedFractionBound(n.fraction);
      SignJoin64(0, ExponentWord(e), WidenedFraction(n.fraction));
    }
  }

  lemma Ibm32Ieee64SignJoin(ibm: bv32)
    ensures Ibm32Ieee64(ibm) == (((ibm & 0x8000_0000) as bv64) << 32) | Ibm32Ieee64(ibm & 0x7fff_ffff)
  {
    Split32Sign(ibm);
    var p := Split32(ibm);
    if p.fraction != 0 {
      var n := Normalise32(p.exponent, p.fraction);
      Ibm32Ieee64SignAt(ibm, p, n, n.exponent + 765);
    }
  }

  lemma Ibm32Ieee64SignAt(ibm: bv32, p: Parts32, n: Normalised32, e: int)
    requires p == Split32(ibm) && p.fraction != 0
    requires Split32(ibm & 0x7fff_ffff) == p.(sign := 0)
    requires n == Normalise32(p.exponent, p.fraction) && e == n.exponent + 765
    ensures Ibm32Ieee64(ibm) == ((p.sign as bv64) << 32) | Ibm32Ieee64(ibm & 0x7fff_ffff)
  {
    Ibm32Ieee64Unfold(ibm, p, (p.sign as bv64) << 32, n, e);
    Ibm32Ieee64Unfold(ibm & 0x7fff_ffff, p.(sign := 0), 0, n, e);
    ExponentWord64(e);
    Ieee64FromNormalised32Sign((p.sign as bv64) << 32, ExponentWord(e), n.fraction);
  }

  /** A sign word added to the tail of `ibm32ieee64` lands on bit 63 alone. */
  lemma Ieee64FromNormalised32Sign(sign: bv64, b: bv64, fraction: bv32)
    requires sign & 0x7fff_ffff_ffff_ffff == 0 && b < 0x7fd && fraction >> 24 == 0
    ensures Ieee64FromNormalised32(sign, b, fraction) == sign | Ieee64FromNormalised32(0, b, fraction)
  {
    WidenedFractionBound(fraction);
    SignJoin64(sign, b, WidenedFraction(fraction));
  }

  /** A 24-bit fraction, widened and shifted by 29, has at most 53 bits. */
  lemma WidenedFractionBound(fraction: bv32)
    requires fraction >> 24 == 0
    ensures WidenedFraction(fraction) < 0x20_0000_0000_0000
  {
  }

  /** The exponent word and a fraction of at most 54 bits leave bit 63 alone. */
  lemma SignJoin64(sign: bv64, b: bv64, d: bv64)
    requires sign & 0x7fff_ffff_ffff_ffff == 0 && b < 0x7fd && d <= 0x20_0000_0000_0000
    ensures sign + (b << 52) + d == sign | (0 + (b << 52) + d)
    ensures (0 + (b << 52) + d) >> 63 == 0
  {
  }

  lemma OneTail32()
    ensures Ieee64FromNormalised32(0, ExponentWord(1022), 0x80_0000) == 0x3ff0_0000_0000_0000
  {
  }

  // ---------------------------------------------------------------------
  // ibm64ieee64
  // ---------------------------------------------------------------------

  /** Four times a 7-bit hexadecimal exponent is at most 508. */
  lemma FourTimes64(exponent: bv64)
    requires exponent < 0x80
    ensures 0 <= (exponent << 2) as int <= 508
  {
  }

  /** The binary exponent of a normalised IBM double lies between -55 and 508. */
  lemma NormalisedExponent64(exponent: bv64, fraction: bv64)
    requires exponent < 0x80 && fraction != 0 && fraction >> 56 == 0
    ensures -56 < Normalise64(exponent, fraction).exponent <= 508
  {
    FourTimes64(exponent);
  }

  /**
   * IBM double to IEEE binary64 (`ibm64ieee64`). The exponent is always in
   * range; the 56-bit fraction is rounded half to even to 53 bits.
   */
  function Ibm64Ieee64(ibm: bv64): bv64
  {
    var p := Split64(ibm);
    if p.fraction == 0 then p.sign
    else
      var n := Normalise64(p.exponent, p.fraction);
      NormalisedExponent64(p.exponent, p.fraction);
      Ieee64FromNormalised64(p.sign, ExponentWord(n.exponent + 765), n.fraction)
  }

  /** The tail of `ibm64ieee64`, given the exponent word `b`. */
  function Ieee64FromNormalised64(sign: bv64, b: bv64, fraction: bv64): bv64
  {
    sign + (b << 52) + DoubleFraction64(fraction)
  }

  /**
   * `ibm64ieee64` drops the low 3 bits of the 56-bit fraction: the mask
   * 0xb selects the two sticky bits below the rounding bit (bit 2) and the
   * parity bit above it (bit 3).
   */
  function DoubleFraction64(fraction: bv64): bv64
  {
    RoundStep64(fraction, 0xb, fraction >> 2)
  }

  /**
   * What `ibm64ieee64` is meant to produce for a normalised number: the
   * binary64 number with sign bit `s`, exponent field `b + 1` and the
   * fraction rounded half to even to 53 bits, where a carry out of the 53
   * bits moves it to exponent `b + 2` with a zero mantissa.
   */
  function Double64From64(s: bv64, b: bv64, fraction: bv64): bv64
    requires s < 2 && b < 0x7fd
  {
    var m := RoundTiesToEven64(fraction, 2);
    if m == 0x20_0000_0000_0000 then Encode64(s, b + 2, 0)
    else Encode64(s, b + 1, m & 0xf_ffff_ffff_ffff)
  }

  /** The reference for `ibm64ieee64`. */
  function Ibm64Ieee64Reference(ibm: bv64): bv64
  {
    var p := Split64(ibm);
    if p.fraction == 0 then
      Encode64(p.sign >> 63, 0, 0)
    else
      var n := Normalise64(p.exponent, p.fraction);
      NormalisedExponent64(p.exponent, p.fraction);
      ExponentWord64(n.exponent + 765);
      Double64From64(p.sign >> 63, ExponentWord(n.exponent + 765), n.fraction)
  }

  /** `ibm64ieee64` computes its reference on every input. */
  lemma Ibm64Ieee64MatchesReference(ibm: bv64)
    ensures Ibm64Ieee64(ibm) == Ibm64Ieee64Reference(ibm)
  {
    var p := Split64(ibm);
    if p.fraction != 0 {
      var n := Normalise64(p.exponent, p.fraction);
      NormalisedExponent64(p.exponent, p.fraction);
      var e := n.exponent + 765;
      Ibm64Ieee64Unfold(ibm, p, n, e);
      Ibm64Ieee64ReferenceUnfold(ibm, p, n, e);
      Ieee64FromNormalised64At(p.sign, e, n.fraction);
    }
  }

  lemma Ibm64Ieee64Unfold(ibm: bv64, p: Parts64, n: Normalised64, e: int)
    requires p == Split64(ibm) && p.fraction != 0
    requires n == Normalise64(p.exponent, p.fraction) && e == n.exponent + 765
    ensures 0 <= e < 0x7fd
    ensures Ibm64Ieee64(ibm) == Ieee64FromNormalised64(p.sign, ExponentWord(e), n.fraction)
  {
    NormalisedExponent64(p.exponent, p.fraction);
  }

  lemma Ibm64Ieee64ReferenceUnfold(ibm: bv64, p: Parts64, n: Normalised64, e: int)
    requires p == Split64(ibm) && p.fraction != 0
    requires n == Normalise64(p.exponent, p.fraction) && e == n.exponent + 765
    ensures 0 <= e < 0x7fd && ExponentWord(e) < 0x7fd
    ensures Ibm64Ieee64Reference(ibm) == Double64From64(p.sign >> 63, ExponentWord(e), n.fraction)
  {
    NormalisedExponent64(p.exponent, p.fraction);
    ExponentWord64(e);
  }

  /** `Ieee64FromNormalised64Meaning` at the exponent word of `e`. */
  lemma Ieee64FromNormalised64At(sign: bv64, e: int, fraction: bv64)
    requires sign & 0x7fff_ffff_ffff_ffff == 0 && fraction >> 55 == 1 && 0 <= e < 0x7fd
    ensures ExponentWord(e) < 0x7fd
    ensures Ieee64FromNormalised64(sign, ExponentWord(e), fraction) == Double64From64(sign >> 63, ExponentWord(e), fraction)
  {
    ExponentWord64(e);
    var b := ExponentWord(e);
    Ieee64FromNormalised64Meaning(sign, b, fraction);
  }

  /** The tail of `ibm64ieee64` computes `Double64From64`. */
  lemma Ieee64FromNormalised64Meaning(sign: bv64, b: bv64, fraction: bv64)
    requires sign & 0x7fff_ffff_ffff_ffff == 0 && fraction >> 55 == 1 && b < 0x7fd
    ensures Ieee64FromNormalised64(sign, b, fraction) == Double64From64(sign >> 63, b, fraction)
  {
    DoubleRounding64(fraction);
    DoubleRoundingBounds64(fraction);
  }

  /** The constant mask 0xb is the rounding shift's mask for `k = 2`. */
  lemma DoubleShift64(fraction: bv64)
    ensures DoubleFraction64(fraction) == RoundingShift64(fraction, 2)
  {
    ShiftLeft64By2(0xffff_ffff_ffff_fffd, 2);
    ShiftRight64By2(fraction, 2);
  }

  /** `ibm64ieee64`'s rounding is round-half-to-even of a shift by 3. */
  lemma DoubleRounding64(fraction: bv64)
    requires fraction >> 55 == 1
    ensures DoubleFraction64(fraction) == RoundTiesToEven64(fraction, 2)
  {
    DoubleShift64(fraction);
    RoundingTrick64(fraction, 2);
  }

  /** A 56-bit fraction with its leading one in bit 55 rounds to between 2^52 and 2^53. */
  lemma DoubleRoundingBounds64(fraction: bv64)
    requires fraction >> 55 == 1
    ensures 0x10_0000_0000_0000 <= RoundTiesToEven64(fraction, 2) <= 0x20_0000_0000_0000
  {
    ShiftRight64By3(fraction, 3);
  }

  /**
   * The fields of `Double64From64`: always a normal number, with exponent
   * field `b + 1`, or `b + 2` when the rounding carried out of the 53 bits,
   * and the rounded significand's trailing 52 bits as its mantissa.
   */
  lemma Double64From64Fields(s: bv64, b: bv64, fraction: bv64)
    requires s < 2 && b < 0x7fd && fraction >> 55 == 1
    ensures Sign64(Double64From64(s, b, fraction)) == s
    ensures Exponent64(Double64From64(s, b, fraction))
            == b + (if RoundTiesToEven64(fraction, 2) == 0x20_0000_0000_0000 then 2 else 1)
    ensures 0 < Exponent64(Double64From64(s, b, fraction)) < 0x7ff
    ensures Mantissa64(Double64From64(s, b, fraction)) == RoundTiesToEven64(fraction, 2) & 0xf_ffff_ffff_ffff
  {
    DoubleRoundingBounds64(fraction);
  }

  /**
   * `ibm64ieee64` has no overflow and no underflow: a non-zero input gives
   * a normal double (never zero, subnormal, infinite or NaN) with the
   * input's sign bit.
   */
  lemma Ibm64Ieee64Normal(ibm: bv64)
    requires Split64(ibm).fraction != 0
    ensures Sign64(Ibm64Ieee64(ibm)) == ibm >> 63
    ensures 0 < Exponent64(Ibm64Ieee64(ibm)) < 0x7ff
  {
    Ibm64Ieee64MatchesReference(ibm);
    var p := Split64(ibm);
    var n := Normalise64(p.exponent, p.fraction);
    var e := n.exponent + 765;
    Ibm64Ieee64ReferenceUnfold(ibm, p, n, e);
    Double64From64FieldsAt(p.sign >> 63, e, n.fraction);
  }

  /** `ibm64ieee64` never produces a NaN: a zero fraction gives a signed zero, any other a normal number. */
  lemma Ibm64Ieee64NotNan(ibm: bv64)
    ensures !IsNan64(Ibm64Ieee64(ibm))
  {
    if Split64(ibm).fraction != 0 {
      Ibm64Ieee64Normal(ibm);
    } else {
      Ibm64Ieee64Zero(ibm);
    }
  }

  /** `Double64From64Fields` at the exponent word of `e`. */
  lemma Double64From64FieldsAt(s: bv64, e: int, fraction: bv64)
    requires s < 2 && 0 <= e < 0x7fd && fraction >> 55 == 1
    ensures ExponentWord(e) < 0x7fd
    ensures Sign64(Double64From64(s, ExponentWord(e), fraction)) == s
    ensures 0 < Exponent64(Double64From64(s, ExponentWord(e), fraction)) < 0x7ff
  {
    ExponentWord64(e);
    var b := ExponentWord(e);
    Double64From64Fields(s, b, fraction);
  }

  /** Zero law: a zero fraction gives the double zero of the same sign. */
  lemma Ibm64Ieee64Zero(ibm: bv64)
    requires ibm & 0x00ff_ffff_ffff_ffff == 0
    ensures Ibm64Ieee64(ibm) == ibm & 0x8000_0000_0000_0000
  {
  }

  /**
   * Sign symmetry of `ibm64ieee64`: the input's sign bit over the
   * conversion of the magnitude, whose bit 63 is clear.
   */
  lemma Ibm64Ieee64Magnitude(ibm: bv64)
    ensures Ibm64Ieee64(ibm & 0x7fff_ffff_ffff_ffff) >> 63 == 0
    ensures Ibm64Ieee64(ibm) == (ibm & 0x8000_0000_0000_0000) | Ibm64Ieee64(ibm & 0x7fff_ffff_ffff_ffff)
  {
    Ibm64Ieee64MagnitudeClear(ibm);
    Ibm64Ieee64SignJoin(ibm);
  }

  lemma Ibm64Ieee64MagnitudeClear(ibm: bv64)
    ensures Ibm64Ieee64(ibm & 0x7fff_ffff_ffff_ffff) >> 63 == 0
  {
    var m := ibm & 0x7fff_ffff_ffff_ffff;
    Split64Sign(ibm);
    var p := Split64(ibm);
    if p.fraction != 0 {
      var n := Normalise64(p.exponent, p.fraction);
      var e := n.exponent + 765;
      Ibm64Ieee64Unfold(m, p.(sign := 0), n, e);
      ExponentWord64(e);
      TailSum64(0, ExponentWord(e), n.fraction);
      DoubleFractionBound64(n.fraction);
      SignJoin64(0, ExponentWord(e), DoubleFraction64(n.fraction));
    }
  }

  lemma Ibm64Ieee64SignJoin(ibm: bv64)
    ensures Ibm64Ieee64(ibm) == (ibm & 0x8000_0000_0000_0000) | Ibm64Ieee64(ibm & 0x7fff_ffff_ffff_ffff)
  {
    Split64Sign(ibm);
    var p := Split64(ibm);
    if p.fraction != 0 {
      var n := Normalise64(p.exponent, p.fraction);
      Ibm64Ieee64SignAt(ibm, p, n, n.exponent + 765);
    }
  }

  lemma Ibm64Ieee64SignAt(ibm: bv64, p: Parts64, n: Normalised64, e: int)
    requires p == Split64(ibm) && p.fraction != 0
    requires Split64(ibm & 0x7fff_ffff_ffff_ffff) == p.(sign := 0)
    requires n == Normalise64(p.exponent, p.fraction) && e == n.exponent + 765
    ensures Ibm64Ieee64(ibm) == p.sign | Ibm64Ieee64(ibm & 0x7fff_ffff_ffff_ffff)
  {
    Ibm64Ieee64Unfold(ibm, p, n, e);
    Ibm64Ieee64Unfold(ibm & 0x7fff_ffff_ffff_ffff, p.(sign := 0), n, e);
    ExponentWord64(e);
    Ieee64FromNormalised64Sign(p.sign, ExponentWord(e), n.fraction);
  }

  /** A sign word added to the tail of `ibm64ieee64` lands on bit 63 alone. */
  lemma Ieee64FromNormalised64Sign(sign: bv64, b: bv64, fraction: bv64)
    requires sign & 0x7fff_ffff_ffff_ffff == 0 && b < 0x7fd && fraction >> 55 == 1
    ensures Ieee64FromNormalised64(sign, b, fraction) == sign | Ieee64FromNormalised64(0, b, fraction)
  {
    TailSum64(sign, b, fraction);
    TailSum64(0, b, fraction);
    DoubleFractionBound64(fraction);
    SignJoin64(sign, b, DoubleFraction64(fraction));
  }

  /** The rounded fraction of `ibm64ieee64` has at most 54 bits. */
  lemma DoubleFractionBound64(fraction: bv64)
    requires fraction >> 55 == 1
    ensures DoubleFraction64(fraction) <= 0x20_0000_0000_0000
  {
    DoubleRounding64(fraction);
    DoubleRoundingBounds64(fraction);
  }

  lemma TailSum64(sign: bv64, b: bv64, fraction: bv64)
    ensures Ieee64FromNormalised64(sign, b, fraction) == sign + (b << 52) + DoubleFraction64(fraction)
  {
  }

  /** 1.0, written as 0x4110000000000000, converts to the binary64 1.0. */
  lemma Ibm64Ieee64One()
    ensures Ibm64Ieee64(0x4110_0000_0000_0000) == 0x3ff0_0000_0000_0000
  {
    var p := Split64(0x4110_0000_0000_0000);
    assert p == Parts64(0, 0x41, 0x10_0000_0000_0000);
    ShiftRight64Add(0x10_0000_0000_0000, 48, 4);
    ShiftRight64By48(0x10_0000_0000_0000, 48);
    ShiftRight64By4(0x10, 4);
    LeadingZerosExact64(0x10_0000_0000_0000, 11);
    ShiftLeft64By3(0x10_0000_0000_0000, 3);
    var n := Normalise64(0x41, 0x10_0000_0000_0000);
    assert n == Normalised64(257, 0x80_0000_0000_0000);
    Ibm64Ieee64Unfold(0x4110_0000_0000_0000, p, n, 1022);
    OneTail64();
  }

  lemma OneTail64()
    ensures Ieee64FromNormalised64(0, ExponentWord(1022), 0x80_0000_0000_0000) == 0x3ff0_0000_0000_0000
  {
  }

  // ---------------------------------------------------------------------
  // Re-encoding
  // ---------------------------------------------------------------------

  /**
   * Moving one hexadecimal digit from the exponent into the fraction: the
   * word with exponent one less and the fraction shifted one digit left
   * splits into exactly those parts.
   */
  lemma Split32Reencode(ibm: bv32)
    requires 1 <= Split32(ibm).exponent && Split32(ibm).fraction >> 20 == 0
    ensures var p := Split32(ibm);
      Split32(p.sign | ((p.exponent - 1) << 24) | (p.fraction << 4)) == Parts32(p.sign, p.exponent - 1, p.fraction << 4)
  {
  }

  lemma Split64Reencode(ibm: bv64)
    requires 1 <= Split64(ibm).exponent && Split64(ibm).fraction >> 52 == 0
    ensures var p := Split64(ibm);
      Split64(p.sign | ((p.exponent - 1) << 56) | (p.fraction << 4)) == Parts64(p.sign, p.exponent - 1, p.fraction << 4)
  {
  }

  /**
   * The parts of a re-encoded number: a non-zero fraction that normalises
   * as the original does.
   */
  lemma Parts32Reencode(p: Parts32, q: Parts32)
    requires 1 <= p.exponent < 0x80 && p.fraction != 0 && p.fraction >> 20 == 0
    requires q == Parts32(p.sign, p.exponent - 1, p.fraction << 4)
    ensures q.fraction != 0 && q.fraction >> 24 == 0
    ensures Normalise32(q.exponent, q.fraction) == Normalise32(p.exponent, p.fraction)
  {
    Normalise32Reencode(p.exponent, p.fraction);
  }

  lemma Parts64Reencode(p: Parts64, q: Parts64)
    requires 1 <= p.exponent < 0x80 && p.fraction != 0 && p.fraction >> 52 == 0
    requires q == Parts64(p.sign, p.exponent - 1, p.fraction << 4)
    ensures q.fraction != 0 && q.fraction >> 56 == 0
    ensures Normalise64(q.exponent, q.fraction) == Normalise64(p.exponent, p.fraction)
  {
    Normalise64Reencode(p.exponent, p.fraction);
  }

  /**
   * An IBM single `ibm` and a word `w` holding the same number with one
   * hexadecimal digit more in the fraction and one less in the exponent
   * convert to the same binary32.
   */
  lemma Ibm32Ieee32Reencode(ibm: bv32, w: bv32)
    requires var p := Split32(ibm);
      1 <= p.exponent && p.fraction >> 20 == 0 && Split32(w) == Parts32(p.sign, p.exponent - 1, p.fraction << 4)
    ensures Ibm32Ieee32(w) == Ibm32Ieee32(ibm)
  {
    Ibm32Ieee32ReencodeAt(ibm, w, Split32(ibm), Split32(w));
  }

  lemma Ibm32Ieee32ReencodeAt(ibm: bv32, w: bv32, p: Parts32, q: Parts32)
    requires p == Split32(ibm) && q == Split32(w) && 1 <= p.exponent && p.fraction >> 20 == 0
    requires q == Parts32(p.sign, p.exponent - 1, p.fraction << 4)
    ensures Ibm32Ieee32(w) == Ibm32Ieee32(ibm)
  {
    if p.fraction != 0 {
      Parts32Reencode(p, q);
      var n := Normalise32(p.exponent, p.fraction);
      Ibm32Ieee32Unfold(ibm, p, n, n.exponent - 131);
      Ibm32Ieee32Unfold(w, q, n, n.exponent - 131);
    }
  }

  /** The same for `ibm32ieee64`. */
  lemma Ibm32Ieee64Reencode(ibm: bv32, w: bv32)
    requires var p := Split32(ibm);
      1 <= p.exponent && p.fraction >> 20 == 0 && Split32(w) == Parts32(p.sign, p.exponent - 1, p.fraction << 4)
    ensures Ibm32Ieee64(w) == Ibm32Ieee64(ibm)
  {
    Ibm32Ieee64ReencodeAt(ibm, w, Split32(ibm), Split32(w));
  }

  lemma Ibm32Ieee64ReencodeAt(ibm: bv32, w: bv32, p: Parts32, q: Parts32)
    requires p == Split32(ibm) && q == Split32(w) && 1 <= p.exponent && p.fraction >> 20 == 0
    requires q == Parts32(p.sign, p.exponent - 1, p.fraction << 4)
    ensures Ibm32Ieee64(w) == Ibm32Ieee64(ibm)
  {
    if p.fraction != 0 {
      Parts32Reencode(p, q);
      var n := Normalise32(p.exponent, p.fraction);
      Ibm32Ieee64Unfold(ibm, p, (p.sign as bv64) << 32, n, n.exponent + 765);
      Ibm32Ieee64Unfold(w, q, (p.sign as bv64) << 32, n, n.exponent + 765);
    }
  }

  /** An IBM double and its re-encoding convert to the same binary32. */
  lemma Ibm64Ieee32Reencode(ibm: bv64, w: bv64)
    requires var p := Split64(ibm);
      1 <= p.exponent && p.fraction >> 52 == 0 && Split64(w) == Parts64(p.sign, p.exponent - 1, p.fraction << 4)
    ensures Ibm64Ieee32(w) == Ibm64Ieee32(ibm)
  {
    Ibm64Ieee32ReencodeAt(ibm, w, Split64(ibm), Split64(w));
  }

  lemma Ibm64Ieee32ReencodeAt(ibm: bv64, w: bv64, p: Parts64, q: Parts64)
    requires p == Split64(ibm) && q == Split64(w) && 1 <= p.exponent && p.fraction >> 52 == 0
    requires q == Parts64(p.sign, p.exponent - 1, p.fraction << 4)
    ensures Ibm64Ieee32(w) == Ibm64Ieee32(ibm)
  {
    if p.fraction != 0 {
      Parts64Reencode(p, q);
      var n := Normalise64(p.exponent, p.fraction);
      Ibm64Ieee32Unfold(ibm, p, Truncate32(p.sign >> 32), n, n.exponent - 131);
      Ibm64Ieee32Unfold(w, q, Truncate32(p.sign >> 32), n, n.exponent - 131);
    }
  }

  /** An IBM double and its re-encoding convert to the same binary64. */
  lemma Ibm64Ieee64Reencode(ibm: bv64, w: bv64)
    requires var p := Split64(ibm);
      1 <= p.exponent && p.fraction >> 52 == 0 && Split64(w) == Parts64(p.sign, p.exponent - 1, p.fraction << 4)
    ensures Ibm64Ieee64(w) == Ibm64Ieee64(ibm)
  {
    Ibm64Ieee64ReencodeAt(ibm, w, Split64(ibm), Split64(w));
  }

  lemma Ibm64Ieee64ReencodeAt(ibm: bv64, w: bv64, p: Parts64, q: Parts64)
    requires p == Split64(ibm) && q == Split64(w) && 1 <= p.exponent && p.fraction >> 52 == 0
    requires q == Parts64(p.sign, p.exponent - 1, p.fraction << 4)
    ensures Ibm64Ieee64(w) == Ibm64Ieee64(ibm)
  {
    if p.fraction != 0 {
      Parts64Reencode(p, q);
      var n := Normalise64(p.exponent, p.fraction);
      Ibm64Ieee64Unfold(ibm, p, n, n.exponent + 765);
      Ibm64Ieee64Unfold(w, q, n, n.exponent + 765);
    }
  }
}

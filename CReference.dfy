/*
 * The C reference implementation of the four conversions
 * (`ibm2ieee-sys/src/ibm2ieee.c`), as imperative code.
 *
 * The C functions normalise differently from the Rust ones: instead of
 * `leading_zeros`, they shift the fraction left one hexadecimal digit at a
 * time until its top digit is non-zero, then look the leading zeros of that
 * digit up in the packed table `BITCOUNT_MAGIC`, two bits per digit. The
 * remaining steps test the cases in another order (normal first) but
 * compute the same words. Each method here states that it returns exactly
 * what the corresponding function of `Convert` returns.
 *
 * The C `int` exponent variables never leave a few hundred either side of
 * zero, so they are Dafny `int`s; `uint32_t` and `uint64_t` are `bv32` and
 * `bv64`, whose `+` wraps as unsigned C arithmetic does.
 */
module CReference {
  import opened Bits
  import opened Rounding
  import opened Convert

  const Ibm32Sign: bv32 := 0x8000_0000
  const Ibm32Expt: bv32 := 0x7f00_0000
  const Ibm32Frac: bv32 := 0x00ff_ffff
  const Ibm32Top: bv32 := 0x00f0_0000
  const TiesToEvenMask32: bv32 := 0xffff_fffd

  const Ibm64Sign: bv64 := 0x8000_0000_0000_0000
  const Ibm64Expt: bv64 := 0x7f00_0000_0000_0000
  const Ibm64Frac: bv64 := 0x00ff_ffff_ffff_ffff
  const Ibm64Top: bv64 := 0x00f0_0000_0000_0000
  const TiesToEvenMask64: bv64 := 0xffff_ffff_ffff_fffd

  /** The largest biased exponent (less one, as the C computes it) of a finite binary32. */
  const Ieee32MaxExp: int := 254
  const Ieee32Infinity: bv32 := 0x7f80_0000

  /** Two bits per hexadecimal digit `d`, at bits `2d` and `2d + 1`: the leading zeros of `d`. */
  const BitcountMagic: bv32 := 0x55af

  // ---------------------------------------------------------------------
  // The table of leading zeros
  // ---------------------------------------------------------------------

  /**
   * For every non-zero hexadecimal digit `d`, the table entry is the number
   * of leading zeros of `d` as a 4-bit number: `u32::leading_zeros` of the
   * digit placed at the top of a word.
   */
  lemma BitcountMagicTable(d: bv32)
    requires 1 <= d < 16
    ensures ((BitcountMagic >> (d << 1)) & 3) as int == LeadingZeros32(d << 28)
  {
    var lz := (BitcountMagic >> (d << 1)) & 3;
    var x := d << 28;
    if lz == 0 {
      ShiftRight32By31(x, 31);
      LeadingZerosExact32(x, 0);
    } else if lz == 1 {
      ShiftRight32By30(x, 30);
      LeadingZerosExact32(x, 1);
    } else if lz == 2 {
      ShiftRight32By29(x, 29);
      LeadingZerosExact32(x, 2);
    } else {
      ShiftRight32By28(x, 28);
      LeadingZerosExact32(x, 3);
    }
  }

  /**
   * Once the top digit of a 24-bit fraction is non-zero, the table gives
   * the same shift as the Rust normalisation, `leading_zeros() - 8`.
   */
  lemma TopDigitLeadingZeros32(frac: bv32, top: bv32)
    requires frac >> 24 == 0 && top == frac & Ibm32Top && top != 0
    ensures ((BitcountMagic >> (top >> 19)) & 3) as int == NormShift32(frac)
  {
    var lz := (BitcountMagic >> (top >> 19)) & 3;
    if lz == 0 {
      ShiftRight32By23(frac, 23);
      LeadingZerosExact32(frac, 8);
    } else if lz == 1 {
      ShiftRight32By22(frac, 22);
      LeadingZerosExact32(frac, 9);
    } else if lz == 2 {
      ShiftRight32By21(frac, 21);
      LeadingZerosExact32(frac, 10);
    } else {
      ShiftRight32By20(frac, 20);
      LeadingZerosExact32(frac, 11);
    }
  }

  /** The table read with the top digit of a 56-bit fraction gives `leading_zeros() - 8`. */
  lemma TopDigitLeadingZeros64(frac: bv64, top: bv64)
    requires frac >> 56 == 0 && top == frac & Ibm64Top && top != 0
    ensures ((BitcountMagic >> (top >> 51)) & 3) as int == NormShift64(frac)
  {
    var lz := (BitcountMagic >> (top >> 51)) & 3;
    if lz == 0 {
      ShiftRight64By55(frac, 55);
      LeadingZerosExact64(frac, 8);
    } else if lz == 1 {
      ShiftRight64By54(frac, 54);
      LeadingZerosExact64(frac, 9);
    } else if lz == 2 {
      ShiftRight64By53(frac, 53);
      LeadingZerosExact64(frac, 10);
    } else {
      ShiftRight64By52(frac, 52);
      LeadingZerosExact64(frac, 11);
    }
  }

  // ---------------------------------------------------------------------
  // Normalising one hexadecimal digit at a time
  // ---------------------------------------------------------------------

  /**
   * The loop `while (top_digit == 0)` of the 32-bit-input functions. It
   * ends, with a non-zero top digit, after shifting the fraction left by
   * whole digits (`shifted` bits) and taking as much off the exponent;
   * the fraction it leaves normalises to the same word, at the same
   * exponent, as the one it was given.
   */
  method NormaliseDigits32(fraction: bv32, exponent: int) returns (frac: bv32, expt: int, top: bv32, ghost shifted: nat)
    requires fraction != 0 && fraction >> 24 == 0
    ensures frac >> 24 == 0 && top == frac & Ibm32Top && top != 0
    ensures frac == ShiftLeft32(fraction, shifted) && expt == exponent - shifted && shifted % 4 == 0
    ensures ShiftLeft32(frac, NormShift32(frac)) == ShiftLeft32(fraction, NormShift32(fraction))
    ensures expt - NormShift32(frac) == exponent - NormShift32(fraction)
  {
    frac, expt, shifted := fraction, exponent, 0;
    top := frac & Ibm32Top;
    while top == 0
      invariant frac != 0 && frac >> 24 == 0 && top == frac & Ibm32Top
      invariant frac == ShiftLeft32(fraction, shifted) && expt == exponent - shifted && shifted % 4 == 0
      invariant ShiftLeft32(frac, NormShift32(frac)) == ShiftLeft32(fraction, NormShift32(fraction))
      invariant expt - NormShift32(frac) == exponent - NormShift32(fraction)
      decreases NormShift32(frac)
    {
      DigitLoopStep32(fraction, frac, shifted);
      frac := frac << 4;
      expt := expt - 4;
      shifted := shifted + 4;
      top := frac & Ibm32Top;
    }
  }

  /** What one turn of `NormaliseDigits32` needs: the step and the shift so far, extended. */
  lemma DigitLoopStep32(fraction: bv32, frac: bv32, shifted: nat)
    requires frac != 0 && frac >> 24 == 0 && frac & Ibm32Top == 0
    requires frac == ShiftLeft32(fraction, shifted)
    ensures frac << 4 != 0 && (frac << 4) >> 24 == 0
    ensures frac << 4 == ShiftLeft32(fraction, shifted + 4)
    ensures NormShift32(frac << 4) == NormShift32(frac) - 4
    ensures ShiftLeft32(frac << 4, NormShift32(frac << 4)) == ShiftLeft32(frac, NormShift32(frac))
  {
    DigitStep32(frac);
    ShiftLeft32Add(fraction, shifted, 4);
    ShiftLeft32By4(frac, 4);
  }

  /** The same loop for 56-bit fractions. */
  method NormaliseDigits64(fraction: bv64, exponent: int) returns (frac: bv64, expt: int, top: bv64, ghost shifted: nat)
    requires fraction != 0 && fraction >> 56 == 0
    ensures frac >> 56 == 0 && top == frac & Ibm64Top && top != 0
    ensures frac == ShiftLeft64(fraction, shifted) && expt == exponent - shifted && shifted % 4 == 0
    ensures ShiftLeft64(frac, NormShift64(frac)) == ShiftLeft64(fraction, NormShift64(fraction))
    ensures expt - NormShift64(frac) == exponent - NormShift64(fraction)
  {
    frac, expt, shifted := fraction, exponent, 0;
    top := frac & Ibm64Top;
    while top == 0
      invariant frac != 0 && frac >> 56 == 0 && top == frac & Ibm64Top
      invariant frac == ShiftLeft64(fraction, shifted) && expt == exponent - shifted && shifted % 4 == 0
      invariant ShiftLeft64(frac, NormShift64(frac)) == ShiftLeft64(fraction, NormShift64(fraction))
      invariant expt - NormShift64(frac) == exponent - NormShift64(fraction)
      decreases NormShift64(frac)
    {
      DigitLoopStep64(fraction, frac, shifted);
      frac := frac << 4;
      expt := expt - 4;
      shifted := shifted + 4;
      top := frac & Ibm64Top;
    }
  }

  lemma DigitLoopStep64(fraction: bv64, frac: bv64, shifted: nat)
    requires frac != 0 && frac >> 56 == 0 && frac & Ibm64Top == 0
    requires frac == ShiftLeft64(fraction, shifted)
    ensures frac << 4 != 0 && (frac << 4) >> 56 == 0
    ensures frac << 4 == ShiftLeft64(fraction, shifted + 4)
    ensures NormShift64(frac << 4) == NormShift64(frac) - 4
    ensures ShiftLeft64(frac << 4, NormShift64(frac << 4)) == ShiftLeft64(frac, NormShift64(frac))
  {
    DigitStep64(frac);
    ShiftLeft64Add(fraction, shifted, 4);
    ShiftLeft64By4(frac, 4);
  }

  /**
   * The C takes the exponent field with one shift, by two places fewer
   * than `split`, which is `split`'s exponent times four.
   */
  lemma ExponentField32(ibm: bv32)
    ensures ((ibm & Ibm32Expt) >> 22) as int == (Split32(ibm).exponent << 2) as int
    ensures ibm & Ibm32Sign == Split32(ibm).sign && ibm & Ibm32Frac == Split32(ibm).fraction
  {
    assert (ibm & Ibm32Expt) >> 22 == Split32(ibm).exponent << 2;
  }

  lemma ExponentField64(ibm: bv64)
    ensures ((ibm & Ibm64Expt) >> 54) as int == (Split64(ibm).exponent << 2) as int
    ensures ibm & Ibm64Sign == Split64(ibm).sign && ibm & Ibm64Frac == Split64(ibm).fraction
  {
    assert (ibm & Ibm64Expt) >> 54 == Split64(ibm).exponent << 2;
  }

  // ---------------------------------------------------------------------
  // From the digit loop back to the Rust normalisation
  // ---------------------------------------------------------------------

  /**
   * After the digit loop and the table, the 32-bit-input functions hold the
   * fraction and exponent that `Normalise32` computes from `split`: the
   * tail of `ibm32ieee32` then gets the same arguments in C as in Rust.
   */
  lemma NormalisedTail32(ibm: bv32, frac: bv32, expt: int, lz: nat, sign: bv32, ieeeExpt: int, nfrac: bv32)
    requires ibm & Ibm32Frac != 0 && frac != 0 && frac >> 24 == 0
    requires ShiftLeft32(frac, NormShift32(frac)) == ShiftLeft32(ibm & Ibm32Frac, NormShift32(ibm & Ibm32Frac))
    requires expt - NormShift32(frac) == ((ibm & Ibm32Expt) >> 22) as int - NormShift32(ibm & Ibm32Frac)
    requires lz == NormShift32(frac) && nfrac == Shl32(frac, lz)
    requires sign == ibm & Ibm32Sign && ieeeExpt == expt - 131 - lz
    ensures Ibm32Ieee32(ibm) == Ieee32FromNormalised(sign, ieeeExpt, nfrac)
  {
    ExponentField32(ibm);
    var p := Split32(ibm);
    Ibm32Ieee32Unfold(ibm, p, Normalise32(p.exponent, p.fraction), ieeeExpt);
  }

  /** The same for `ibm32ieee64`, whose exponent bias differs; the exponent stays in range. */
  lemma NormalisedTail32To64(ibm: bv32, frac: bv32, expt: int, lz: nat, sign: bv64, ieeeExpt: int, nfrac: bv32)
    requires ibm & Ibm32Frac != 0 && frac != 0 && frac >> 24 == 0
    requires ShiftLeft32(frac, NormShift32(frac)) == ShiftLeft32(ibm & Ibm32Frac, NormShift32(ibm & Ibm32Frac))
    requires expt - NormShift32(frac) == ((ibm & Ibm32Expt) >> 22) as int - NormShift32(ibm & Ibm32Frac)
    requires lz == NormShift32(frac) && nfrac == Shl32(frac, lz)
    requires sign == ((ibm & Ibm32Sign) as bv64) << 32 && ieeeExpt == expt + 765 - lz
    ensures 0 <= ieeeExpt < 0x7fd
    ensures Ibm32Ieee64(ibm) == Ieee64FromNormalised32(sign, ExponentWord(ieeeExpt), nfrac)
  {
    ExponentField32(ibm);
    var p := Split32(ibm);
    Ibm32Ieee64Unfold(ibm, p, sign, Normalise32(p.exponent, p.fraction), ieeeExpt);
  }

  /** After the digit loop and the table, `ibm64ieee32` has the Rust arguments. */
  lemma NormalisedTail64To32(ibm: bv64, frac: bv64, expt: int, lz: nat, sign: bv32, ieeeExpt: int, nfrac: bv64)
    requires ibm & Ibm64Frac != 0 && frac != 0 && frac >> 56 == 0
    requires ShiftLeft64(frac, NormShift64(frac)) == ShiftLeft64(ibm & Ibm64Frac, NormShift64(ibm & Ibm64Frac))
    requires expt - NormShift64(frac) == ((ibm & Ibm64Expt) >> 54) as int - NormShift64(ibm & Ibm64Frac)
    requires lz == NormShift64(frac) && nfrac == Shl64(frac, lz)
    requires sign == Truncate32((ibm & Ibm64Sign) >> 32) && ieeeExpt == expt - 131 - lz
    ensures Ibm64Ieee32(ibm) == Ieee32FromNormalised64(sign, ieeeExpt, nfrac)
  {
    ExponentField64(ibm);
    var p := Split64(ibm);
    Ibm64Ieee32Unfold(ibm, p, sign, Normalise64(p.exponent, p.fraction), ieeeExpt);
  }

  /** After the digit loop and the table, `ibm64ieee64` has the Rust arguments. */
  lemma NormalisedTail64(ibm: bv64, frac: bv64, expt: int, lz: nat, sign: bv64, ieeeExpt: int, nfrac: bv64)
    requires ibm & Ibm64Frac != 0 && frac != 0 && frac >> 56 == 0
    requires ShiftLeft64(frac, NormShift64(frac)) == ShiftLeft64(ibm & Ibm64Frac, NormShift64(ibm & Ibm64Frac))
    requires expt - NormShift64(frac) == ((ibm & Ibm64Expt) >> 54) as int - NormShift64(ibm & Ibm64Frac)
    requires lz == NormShift64(frac) && nfrac == Shl64(frac, lz)
    requires sign == ibm & Ibm64Sign && ieeeExpt == expt + 765 - lz
    ensures 0 <= ieeeExpt < 0x7fd
    ensures Ibm64Ieee64(ibm) == Ieee64FromNormalised64(sign, ExponentWord(ieeeExpt), nfrac)
  {
    ExponentField64(ibm);
    var p := Split64(ibm);
    Ibm64Ieee64Unfold(ibm, p, Normalise64(p.exponent, p.fraction), ieeeExpt);
  }

  /**
   * The last line of the conversions to binary64: sign, exponent word
   * shifted into place, and mantissa bits, added.
   */
  function Pack64(sign: bv64, b: bv64, mantissa: bv64): bv64
  {
    sign + (b << 52) + mantissa
  }

  lemma PackWord64(sign: bv64, b: bv64, mantissa: bv64)
    ensures sign + (b << 52) + mantissa == Pack64(sign, b, mantissa)
  {
  }

  lemma Ieee64FromNormalised32Packed(sign: bv64, b: bv64, fraction: bv32)
    ensures Ieee64FromNormalised32(sign, b, fraction) == Pack64(sign, b, WidenedFraction(fraction))
  {
  }

  lemma Ieee64FromNormalised64Packed(sign: bv64, b: bv64, fraction: bv64)
    ensures Ieee64FromNormalised64(sign, b, fraction) == Pack64(sign, b, DoubleFraction64(fraction))
  {
  }

  /** `x` shifted left by `k`, then by 29 more: the second step as a machine shift. */
  lemma ShiftLeftThen29(x: bv64, k: nat, y: bv64)
    requires y == ShiftLeft64(x, k)
    ensures ShiftLeft64(x, k + 29) == y << 29
  {
    ShiftLeft64Add(x, k, 29);
    ShiftLeft64By29(y, 29);
  }

  lemma SingleShift0(frac: bv32, n: nat)
    requires n == 29
    ensures ShiftLeft64(frac as bv64, n) == WidenedFraction(ShiftLeft32(frac, 0))
  {
    ShiftLeftThen29(frac as bv64, 0, frac as bv64);
    assert ShiftLeft32(frac, 0) == frac;
  }

  lemma SingleShift1(frac: bv32, n: nat)
    requires frac >> 24 == 0 && n == 30
    ensures ShiftLeft64(frac as bv64, n) == WidenedFraction(ShiftLeft32(frac, 1))
  {
    ShiftLeft64By1(frac as bv64, 1);
    ShiftLeftThen29(frac as bv64, 1, (frac as bv64) << 1);
    ShiftLeft32By1(frac, 1);
    assert ((frac as bv64) << 1) << 29 == ((frac << 1) as bv64) << 29;
  }

  lemma SingleShift2(frac: bv32, n: nat)
    requires frac >> 24 == 0 && n == 31
    ensures ShiftLeft64(frac as bv64, n) == WidenedFraction(ShiftLeft32(frac, 2))
  {
    ShiftLeft64By2(frac as bv64, 2);
    ShiftLeftThen29(frac as bv64, 2, (frac as bv64) << 2);
    ShiftLeft32By2(frac, 2);
    assert ((frac as bv64) << 2) << 29 == ((frac << 2) as bv64) << 29;
  }

  lemma SingleShift3(frac: bv32, n: nat)
    requires frac >> 24 == 0 && n == 32
    ensures ShiftLeft64(frac as bv64, n) == WidenedFraction(ShiftLeft32(frac, 3))
  {
    ShiftLeft64By3(frac as bv64, 3);
    ShiftLeftThen29(frac as bv64, 3, (frac as bv64) << 3);
    ShiftLeft32By3(frac, 3);
    assert ((frac as bv64) << 3) << 29 == ((frac << 3) as bv64) << 29;
  }

  /**
   * `ibm32ieee64` shifts the widened, unnormalised fraction once, by
   * `29 + leading_zeros`, where Rust normalises in 32 bits and then shifts
   * by 29: for a fraction of at most 24 bits and a shift of at most 3 the
   * two give the same mantissa bits.
   */
  lemma SingleShift(frac: bv32, lz: nat, ieeeFrac: bv64, nfrac: bv32)
    requires frac >> 24 == 0 && lz < 4
    requires ieeeFrac == Shl64(frac as bv64, 29 + lz) && nfrac == Shl32(frac, lz)
    ensures ieeeFrac == WidenedFraction(nfrac)
  {
    if lz == 0 {
      SingleShift0(frac, 29 + lz);
    } else if lz == 1 {
      SingleShift1(frac, 29 + lz);
    } else if lz == 2 {
      SingleShift2(frac, 29 + lz);
    } else {
      SingleShift3(frac, 29 + lz);
    }
  }

  /** The mantissa rounding of `ibm64ieee64`, as the C writes it, is `DoubleFraction64`. */
  lemma DoubleRounding(frac: bv64, roundUp: bv64, ieeeFrac: bv64)
    requires roundUp == (if frac & 0xb > 0 then 1 else 0)
    requires ieeeFrac == ((frac >> 2) + roundUp) >> 1
    ensures ieeeFrac == DoubleFraction64(frac)
  {
  }

  // ---------------------------------------------------------------------
  // The four conversions
  // ---------------------------------------------------------------------

  /** C `ibm32ieee32`: the same word as the Rust `ibm32ieee32` on every input. */
  method Ibm32Ieee32C(ibm: bv32) returns (r: bv32)
    ensures r == Ibm32Ieee32(ibm)
  {
    ExponentField32(ibm);
    var sign := ibm & Ibm32Sign;
    var frac := ibm & Ibm32Frac;
    if frac == 0 {
      return sign;
    }
    var expt := ((ibm & Ibm32Expt) >> 22) as int;
    var top;
    ghost var shifted;
    frac, expt, top, shifted := NormaliseDigits32(frac, expt);
    var lz := ((BitcountMagic >> (top >> 19)) & 3) as int;
    TopDigitLeadingZeros32(frac, top);
    ghost var digitFrac := frac;
    frac := Shl32(frac, lz);
    var ieeeExpt := expt - 131 - lz;
    NormalisedTail32(ibm, digitFrac, expt, lz, sign, ieeeExpt, frac);
    r := Assemble32C(sign, ieeeExpt, frac);
  }

  /** `TIES_TO_EVEN_MASK32` shifted and inverted gives the Rust rounding shift. */
  lemma TiesToEvenShift32(frac: bv32, shift: nat, roundUp: bv32)
    requires shift < 32 && roundUp == (if frac & !Shl32(TiesToEvenMask32, shift) > 0 then 1 else 0)
    ensures (Shr32(frac, shift) + roundUp) >> 1 == RoundingShift32(frac, shift)
  {
  }

  /** The same with `TIES_TO_EVEN_MASK64` and a `uint32_t` `round_up`. */
  lemma TiesToEvenShift64(frac: bv64, shift: nat, roundUp: bv32)
    requires shift < 64 && roundUp == (if frac & !Shl64(TiesToEvenMask64, shift) > 0 then 1 else 0)
    ensures (Shr64(frac, shift) + roundUp as bv64) >> 1 == RoundingShift64(frac, shift)
  {
    if roundUp == 0 {
      assert roundUp as bv64 == 0;
    } else {
      assert roundUp as bv64 == 1;
    }
  }

  /**
   * The subnormal lines of C `ibm32ieee32`: `TIES_TO_EVEN_MASK32` shifted
   * and inverted selects the bits that decide `round_up`, and the two
   * shifts give the Rust rounding shift.
   */
  method SubnormalC32(frac: bv32, shift: nat) returns (ieeeFrac: bv32)
    requires shift < 32
    ensures ieeeFrac == RoundingShift32(frac, shift)
  {
    var mask := !Shl32(TiesToEvenMask32, shift);
    var roundUp: bv32 := if frac & mask > 0 then 1 else 0;
    ieeeFrac := (Shr32(frac, shift) + roundUp) >> 1;
    TiesToEvenShift32(frac, shift, roundUp);
  }

  /**
   * The subnormal lines of C `ibm64ieee32`, with `TIES_TO_EVEN_MASK64`;
   * `round_up` is a `uint32_t` widened for the addition, and the
   * `uint32_t` result keeps the low 32 bits.
   */
  method SubnormalC64To32(frac: bv64, shift: nat) returns (ieeeFrac: bv32)
    requires shift < 64
    ensures ieeeFrac == Truncate32(RoundingShift64(frac, shift))
  {
    var mask := !Shl64(TiesToEvenMask64, shift);
    var roundUp: bv32 := if frac & mask > 0 then 1 else 0;
    ieeeFrac := Truncate32((Shr64(frac, shift) + roundUp as bv64) >> 1);
    TiesToEvenShift64(frac, shift, roundUp);
  }

  /**
   * The case analysis that ends C `ibm32ieee32`, normal range first: it
   * produces the same word as the Rust order, overflow first. The
   * subnormal branch adds the rounding shift that `SubnormalC32` proves
   * the C mask lines compute.
   */
  method Assemble32C(sign: bv32, ieeeExpt: int, frac: bv32) returns (r: bv32)
    ensures r == Ieee32FromNormalised(sign, ieeeExpt, frac)
  {
    if 0 <= ieeeExpt < Ieee32MaxExp {
      r := sign + ((ieeeExpt as bv32) << 23) + frac;
    } else if ieeeExpt >= Ieee32MaxExp {
      r := sign + Ieee32Infinity;
    } else if ieeeExpt >= -32 {
      r := sign + RoundingShift32(frac, -1 - ieeeExpt);
    } else {
      r := sign;
    }
  }

  /** C `ibm64ieee32`: the same word as the Rust `ibm64ieee32` on every input. */
  method Ibm64Ieee32C(ibm: bv64) returns (r: bv32)
    ensures r == Ibm64Ieee32(ibm)
  {
    ExponentField64(ibm);
    var sign := Truncate32((ibm & Ibm64Sign) >> 32);
    var frac := ibm & Ibm64Frac;
    if frac == 0 {
      return sign;
    }
    var expt := ((ibm & Ibm64Expt) >> 54) as int;
    var top;
    ghost var shifted;
    frac, expt, top, shifted := NormaliseDigits64(frac, expt);
    var lz := ((BitcountMagic >> (top >> 51)) & 3) as int;
    TopDigitLeadingZeros64(frac, top);
    ghost var digitFrac := frac;
    frac := Shl64(frac, lz);
    var ieeeExpt := expt - 131 - lz;
    NormalisedTail64To32(ibm, digitFrac, expt, lz, sign, ieeeExpt, frac);
    r := Assemble64To32C(sign, ieeeExpt, frac);
  }

  /**
   * The case analysis that ends C `ibm64ieee32`, normal range first. The
   * normal branch rounds as the Rust `NormalFraction64To32` does (mask
   * 0x1_7fff_ffff, shift by 31); the subnormal branch adds the value that
   * `SubnormalC64To32` proves the C mask lines compute.
   */
  method Assemble64To32C(sign: bv32, ieeeExpt: int, frac: bv64) returns (r: bv32)
    ensures r == Ieee32FromNormalised64(sign, ieeeExpt, frac)
  {
    if 0 <= ieeeExpt < Ieee32MaxExp {
      r := sign + ((ieeeExpt as bv32) << 23) + Truncate32(NormalFraction64To32(frac));
    } else if ieeeExpt >= Ieee32MaxExp {
      r := sign + Ieee32Infinity;
    } else if ieeeExpt >= -32 {
      r := sign + Truncate32(RoundingShift64(frac, 31 - ieeeExpt));
    } else {
      r := sign;
    }
  }

  /**
   * C `ibm32ieee64`: the same word as the Rust `ibm32ieee64` on every
   * input, although it shifts the fraction once, by `29 + leading_zeros`.
   */
  method Ibm32Ieee64C(ibm: bv32) returns (r: bv64)
    ensures r == Ibm32Ieee64(ibm)
  {
    ExponentField32(ibm);
    var sign := ((ibm & Ibm32Sign) as bv64) << 32;
    var frac := ibm & Ibm32Frac;
    if frac == 0 {
      return sign;
    }
    var expt := ((ibm & Ibm32Expt) >> 22) as int;
    var top;
    ghost var shifted;
    frac, expt, top, shifted := NormaliseDigits32(frac, expt);
    var lz := ((BitcountMagic >> (top >> 19)) & 3) as int;
    TopDigitLeadingZeros32(frac, top);
    var ieeeExpt := expt + 765 - lz;
    var ieeeFrac := Shl64(frac as bv64, 29 + lz);
    ghost var nfrac := Shl32(frac, lz);
    NormalisedTail32To64(ibm, frac, expt, lz, sign, ieeeExpt, nfrac);
    var exptWord := ExponentWord(ieeeExpt);
    SingleShift(frac, lz, ieeeFrac, nfrac);
    Ieee64FromNormalised32Packed(sign, exptWord, nfrac);
    PackWord64(sign, exptWord, ieeeFrac);
    r := sign + (exptWord << 52) + ieeeFrac;
  }

  /** C `ibm64ieee64`: the same word as the Rust `ibm64ieee64` on every input. */
  method Ibm64Ieee64C(ibm: bv64) returns (r: bv64)
    ensures r == Ibm64Ieee64(ibm)
  {
    ExponentField64(ibm);
    var sign := ibm & Ibm64Sign;
    var frac := ibm & Ibm64Frac;
    if frac == 0 {
      return sign;
    }
    var expt := ((ibm & Ibm64Expt) >> 54) as int;
    var top;
    ghost var shifted;
    frac, expt, top, shifted := NormaliseDigits64(frac, expt);
    var lz := ((BitcountMagic >> (top >> 51)) & 3) as int;
    TopDigitLeadingZeros64(frac, top);
    ghost var digitFrac := frac;
    frac := Shl64(frac, lz);
    var ieeeExpt := expt + 765 - lz;
    NormalisedTail64(ibm, digitFrac, expt, lz, sign, ieeeExpt, frac);
    r := Assemble64C(sign, ieeeExpt, frac);
  }

  /** The last lines of C `ibm64ieee64`: drop three bits with round-ties-to-even and pack. */
  method Assemble64C(sign: bv64, ieeeExpt: int, frac: bv64) returns (r: bv64)
    requires 0 <= ieeeExpt < 0x7fd
    ensures r == Ieee64FromNormalised64(sign, ExponentWord(ieeeExpt), frac)
  {
    var roundUp: bv64 := if frac & 0xb > 0 then 1 else 0;
    var ieeeFrac := ((frac >> 2) + roundUp) >> 1;
    var exptWord := ExponentWord(ieeeExpt);
    DoubleRounding(frac, roundUp, ieeeFrac);
    Ieee64FromNormalised64Packed(sign, exptWord, frac);
    PackWord64(sign, exptWord, ieeeFrac);
    r := sign + (exptWord << 52) + ieeeFrac;
  }
}

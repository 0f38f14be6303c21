# ibmfloat in Dafny

A model of the `ibmfloat` library, which converts IBM System/360
hexadecimal floating point numbers to IEEE 754 binary floating point
numbers. It covers four pieces:

- the four bit-level conversions of `src/convert/mod.rs`;
- the C reference implementation in `ibm2ieee-sys/src/ibm2ieee.c`;
- the `F32`/`F64` newtypes of `src/lib.rs`;
- the SAS flavour of `F64` with its missing values, in `src/sas/mod.rs`.

An IBM number has three parts: a sign bit, a 7-bit exponent of 16 with bias
64, and a 24-bit (single) or 56-bit (double) fraction. The fraction is read
as `0.f` and need not be normalised. Each conversion works in four steps.
It splits the word into its three parts. It normalises the fraction so that
its leading one is at a fixed bit. It rebiases the exponent. Finally it
either packs the result, or overflows to infinity, rounds to a subnormal or
underflows to a signed zero. Rounding is round-half-to-even
(roundTiesToEven, section 4.3.1 of IEEE 754-2008).

The files:

- `Bits.dfy`: shifts by a `nat` amount (`ShiftLeft32`, `ShiftRight32`).
  It also defines machine shifts that require an amount below the word
  width (`Shl32`, `Shr32`), `u32::leading_zeros` and its 64-bit
  counterparts.
- `Rounding.dfy`: the reference definition of round-half-to-even.
  - The rounding bit, the sticky bits and the parity bit decide it.
  - The lemma `RoundingTrick32`/`64` proves that the one-mask trick both
    implementations use computes that rounding.
- `Ieee.dfy`: the fields of a binary32 or binary64 word (sign, exponent,
  mantissa), `Encode32`/`64`, and the NaN and infinity predicates.
- `Convert.dfy`: the Rust functions `split`, `ibm32ieee32`, `ibm32ieee64`,
  `ibm64ieee32` and `ibm64ieee64`.
  - Each is written as the Rust computes it.
  - Each also has a reference function that says what it means: a signed
    zero, or the IEEE number with the normalised fraction rounded to
    nearest-even, with overflow and underflow.
  - A `MatchesReference` lemma proves the two equal on every input.
  - Lemmas about the reference give the classification, sign symmetry, the
    absence of NaNs and the test vectors.
  - `Reencode` lemmas prove that moving one hexadecimal digit from the
    exponent into the fraction does not change the result of any of the
    four conversions.
- `CReference.dfy`: the C functions as imperative methods.
  - The digit-by-digit normalisation loop is a method with loop
    invariants.
  - Lemmas cover the `BITCOUNT_MAGIC` lookup table, the single shift by
    `29 + leading_zeros` and the C order of the range tests.
  - Each C method is proved to return exactly the word of the Rust
    function.
- `Floats.dfy`: `F32` and `F64`.
  - `from_bits`/`to_bits` and `from_be_bytes`/`to_be_bytes`, with their
    round trips.
  - The `From` conversions, which dispatch to `Convert`.
  - The documented examples.
- `Sas.dfy`: `MissingValue` with `code` and `TryFrom<u8>`, and the SAS
  `F64` with `missing_value`, `is_missing_value`, `is_nan` and its
  conversion to `f64`.

Native `f32`/`f64` values are modelled by their bit patterns. Rust's
`wrapping_add` and the C unsigned `+` are Dafny's `+` on `bv32`/`bv64`,
which wraps the same way. Rust's `i32` and C's `int` exponents are Dafny
`int`s. The normalised binary exponent lies in -55..508
(`Convert.NormalisedExponent32`/`64`). The binary32 conversions subtract
131 from it and the binary64 conversions add 765, so every exponent the
code computes lies between -186 and 1273 and no `i32` or `int` overflow is
lost.

## Model

| member | source | states |
|---|---|---|
| Convert.Split32 | src/convert/mod.rs:35-48 | sign, exponent and fraction or-ed back together give the word; the sign is only bit 31, the exponent below 0x80, the fraction below 2^24 |
| Convert.Split64 | src/convert/mod.rs:35-48 | the same for a 64-bit word: sign only bit 63, exponent below 0x80, fraction below 2^56, and they recompose the word |
| Convert.NormShift32 | src/convert/mod.rs:61 | for a non-zero 24-bit fraction, `leading_zeros() - 8` is below 24 and shifting by it puts the leading one in bit 23 |
| Convert.NormShift64 | src/convert/mod.rs:173 | for a non-zero 56-bit fraction, the shift is below 56 and puts the leading one in bit 55 |
| Convert.Normalise32 | src/convert/mod.rs:60-63 | the normalised fraction has its leading one in bit 23, shifting it back recovers the fraction, and the binary exponent plus the shift is four times the hexadecimal exponent |
| Convert.Normalise64 | src/convert/mod.rs:172-175 | the same for 56-bit fractions, leading one in bit 55 |
| Convert.NormalisedExponent32 | src/convert/mod.rs:60-63 | the normalised binary exponent of a single lies in -23..508, so the `i32` arithmetic cannot overflow |
| Convert.NormalisedExponent64 | src/convert/mod.rs:172-175 | the normalised binary exponent of a double lies in -55..508 |
| Convert.Ibm32Ieee32MatchesReference | src/convert/mod.rs:51-125 | `ibm32ieee32` equals its reference on every input: the signed zero for a zero fraction, otherwise `Single32` of the normalised number (infinity, normal, round-half-to-even subnormal or signed zero) |
| Convert.Ieee32FromNormalisedMeaning | src/convert/mod.rs:73-124 | the four-branch tail of `ibm32ieee32`, with the hidden bit left in the fraction, equals the binary32 number `Single32` it is meant to produce |
| Convert.Overflow32 | src/convert/mod.rs:73-75 | the overflow result `sign + 0x7f800000` is the infinity of that sign |
| Convert.SignedZero32 | src/convert/mod.rs:121-124 | the underflow result `sign` is the zero of that sign |
| Convert.Normal32 | src/convert/mod.rs:76-80 | in the normal range, adding the exponent on top of the fraction's hidden bit gives exponent field `e + 1` and the fraction's 23 trailing bits as mantissa |
| Convert.Subnormal32 | src/convert/mod.rs:81-120 | in the subnormal range the mask-and-shift result is the fraction divided by 2^(-e) rounded half to even, under the sign |
| Convert.Underflow32 | src/convert/mod.rs:121-124 | below -32 the result is the signed zero, which is what rounding would give |
| Convert.Single32Classes | src/convert/mod.rs:73-124 | classification: sign bit kept; infinity when `e >= 254`; normal with exponent field 1..254 and the fraction's trailing bits when `0 <= e < 254`; exponent field at most 1 when `-32 <= e < 0`; signed zero below |
| Convert.Single32Sign | src/convert/mod.rs:75 | the reference puts the sign bit on top of a result that does not depend on it |
| Convert.Single32NotNan | src/convert/mod.rs:73-124 | the reference never produces a NaN |
| Convert.Ibm32Ieee32IsSingle | src/convert/mod.rs:51-125 | a non-zero input converts to `Single32` of its split and normalised parts |
| Convert.Ibm32Ieee32Zero | src/convert/mod.rs:55-57 | a zero fraction gives the zero of the input's sign, whatever the exponent |
| Convert.Ibm32Ieee32NotNan | src/convert/mod.rs:51-125 | `ibm32ieee32` never returns a NaN |
| Convert.Ibm32Ieee32Magnitude | src/convert/mod.rs:51-125 | sign symmetry: the result is the input's sign bit or-ed onto the conversion of the absolute value, whose sign bit is clear |
| Convert.Ibm32Ieee32Overflows | src/convert/tests/ibm32ieee32.rs:20 | the largest IBM single 0x78ffffff overflows to 0x7f800000 |
| Convert.Ibm32Ieee32Unnormalised | src/convert/tests/ibm32ieee32.rs:31 | the unnormalised 0x41000010 converts exactly to 0x37800000 |
| Convert.Ibm64Ieee32MatchesReference | src/convert/mod.rs:160-203 | `ibm64ieee32` equals its reference: the signed zero, or `Single32From64` of the normalised number (infinity, normal rounded half to even with carry, subnormal, signed zero) |
| Convert.Ieee32FromNormalised64Meaning | src/convert/mod.rs:177-202 | the tail of `ibm64ieee32` computes `Single32From64` in every branch |
| Convert.Normal64To32 | src/convert/mod.rs:181-190 | the normal branch rounds the 56-bit fraction half to even to 24 bits and packs it as `Carry32` does |
| Convert.NormalRounding64To32 | src/convert/mod.rs:183-188 | the constant mask 0x1_7fff_ffff with shifts by 31 and 1 is round-half-to-even of a shift by 32 |
| Convert.RoundMask64To32 | src/convert/mod.rs:183 | 0x1_7fff_ffff is the generic rounding mask `!(0xffff_ffff_ffff_fffd << 31)` |
| Convert.NormalRoundingBounds64To32 | src/convert/mod.rs:183-188 | the rounded significand lies between 2^23 and 2^24; it reaches 2^24 only by a carry |
| Convert.Carry32Fields | src/convert/mod.rs:188-190 | a rounding carry to 2^24 adds one more to the exponent field and leaves a zero mantissa; otherwise the exponent field is `e + 1` and the mantissa the rounded bits |
| Convert.Subnormal64To32 | src/convert/mod.rs:191-198 | the subnormal branch is the fraction rounded half to even by `31 - e` places, under the sign |
| Convert.Underflow64To32 | src/convert/mod.rs:199-202 | below -32 the result is the signed zero |
| Convert.Single32From64Overflow | src/convert/mod.rs:178-180 | from `e >= 254` the result is the infinity of the input's sign |
| Convert.Single32From64Normal | src/convert/mod.rs:181-190 | in the normal range: sign kept, exponent field `e + 1` or `e + 2` after a carry, mantissa the rounded bits |
| Convert.Single32From64Subnormal | src/convert/mod.rs:191-198 | in the subnormal range: sign kept, exponent field at most 1 |
| Convert.Single32From64Underflow | src/convert/mod.rs:199-202 | below -32: the signed zero |
| Convert.Single32From64NotNan | src/convert/mod.rs:178-202 | the reference never produces a NaN, even when the carry reaches exponent 255 |
| Convert.Single32From64Sign | src/convert/mod.rs:165 | the sign bit sits on top of a result that does not depend on it |
| Convert.Ibm64Ieee32NotNan | src/convert/mod.rs:160-203 | `ibm64ieee32` never returns a NaN |
| Convert.Ibm64Ieee32Zero | src/convert/mod.rs:164-170 | a zero fraction gives the single zero with the double's sign |
| Convert.Ibm64Ieee32Magnitude | src/convert/mod.rs:160-203 | sign symmetry: the sign bit of the double or-ed onto the conversion of the absolute value |
| Convert.Ibm64Ieee32Largest | src/convert/tests/ibm64ieee32.rs:88 | 0x60ffffff7fffffff rounds down to the largest finite single 0x7f7fffff |
| Convert.Ibm64Ieee32CarriesToInfinity | src/convert/tests/ibm64ieee32.rs:90 | 0x60ffffff80000000 rounds up, carries and becomes infinity 0x7f800000 |
| Convert.Ibm64Ieee32NegativeOverflow | src/convert/tests/ibm64ieee32.rs:19 | the largest negative IBM double 0xffff000000000000 overflows to minus infinity 0xff800000 |
| Convert.Ibm64Ieee32TinyUnderflow | src/convert/tests/ibm64ieee32.rs:52 | 0x0000000000260000, far below the subnormal range, underflows to +0.0 |
| Convert.Ibm32Ieee64MatchesReference | src/convert/mod.rs:127-157 | `ibm32ieee64` equals its reference: the signed zero, or `Double64From32` of the normalised number |
| Convert.Ieee64FromNormalised32Meaning | src/convert/mod.rs:153-156 | the wrapping additions never carry into the sign and produce `Double64From32` |
| Convert.Double64From32Fields | src/convert/mod.rs:153-156 | `Double64From32` is a normal double: sign `s`, exponent field `b + 1` strictly between 0 and 0x7ff, mantissa the fraction's 23 trailing bits over 29 zeros |
| Convert.Ibm32Ieee64Exact | src/convert/mod.rs:127-157 | conversion of a non-zero single is exact: the sign kept, a normal exponent and the 29 low mantissa bits zero, so nothing was rounded |
| Convert.Ibm32Ieee64Zero | src/convert/mod.rs:133-138 | a zero fraction gives the double zero with the single's sign |
| Convert.Ibm32Ieee64Magnitude | src/convert/mod.rs:127-157 | sign symmetry: the single's sign bit moved to bit 63 and or-ed onto the conversion of the absolute value, whose bit 63 is clear |
| Convert.Ieee64FromNormalised32Sign | src/convert/mod.rs:153-156 | the sign word added by the wrapping additions lands on bit 63 alone, over the same tail as for a positive number |
| Convert.Ibm32Ieee64One | src/convert/tests/ibm32ieee64.rs:24 | 0x41100000 converts to the binary64 1.0, 0x3ff0000000000000 |
| Convert.Ibm64Ieee64MatchesReference | src/convert/mod.rs:206-229 | `ibm64ieee64` equals its reference: the signed zero, or `Double64From64` (fraction rounded half to even to 53 bits) |
| Convert.Ieee64FromNormalised64Meaning | src/convert/mod.rs:221-228 | the tail of `ibm64ieee64` computes `Double64From64` |
| Convert.DoubleShift64 | src/convert/mod.rs:225-226 | the constant mask 0xb is the generic rounding shift with `k = 2` |
| Convert.DoubleRounding64 | src/convert/mod.rs:225-226 | the 0xb mask and the shifts by 2 and 1 are round-half-to-even of a shift by 3 |
| Convert.DoubleRoundingBounds64 | src/convert/mod.rs:225-226 | the rounded significand lies between 2^52 and 2^53 |
| Convert.Double64From64Fields | src/convert/mod.rs:221-228 | always a normal double: sign `s`, exponent field `b + 1` (or `b + 2` after a carry) strictly between 0 and 0x7ff, mantissa the rounded bits |
| Convert.Ibm64Ieee64Normal | src/convert/mod.rs:206-229 | no overflow or underflow: a non-zero input gives a normal double with the input's sign |
| Convert.Ibm64Ieee64NotNan | src/convert/mod.rs:206-229 | `ibm64ieee64` never returns a NaN |
| Convert.Ibm64Ieee64Zero | src/convert/mod.rs:211-214 | a zero fraction gives the zero of the input's sign |
| Convert.Ibm64Ieee64Magnitude | src/convert/mod.rs:206-229 | sign symmetry: the sign bit or-ed onto the conversion of the absolute value, whose bit 63 is clear |
| Convert.Ieee64FromNormalised64Sign | src/convert/mod.rs:221-228 | after rounding, the sign word added lands on bit 63 alone, over the same tail as for a positive number |
| Convert.Ibm64Ieee64One | src/lib.rs:183-191 | 0x4110000000000000 converts to the binary64 1.0 |
| Convert.Split32Reencode | src/convert/mod.rs:35-48 | when the exponent is at least 1 and the top fraction digit is zero, the word with exponent one less and fraction one digit left splits into exactly those parts |
| Convert.Split64Reencode | src/convert/mod.rs:35-48 | the same for 64-bit words |
| Convert.Normalise32Reencode | src/convert/mod.rs:60-63 | exponent one less and fraction one digit left normalise to the same binary exponent and fraction |
| Convert.Normalise64Reencode | src/convert/mod.rs:172-175 | the same for 56-bit fractions |
| Convert.Parts32Reencode | src/convert/mod.rs:55-63 | the re-encoded parts have a non-zero 24-bit fraction and normalise as the original |
| Convert.Parts64Reencode | src/convert/mod.rs:164-175 | the same for doubles |
| Convert.Ibm32Ieee32Reencode | src/convert/mod.rs:51-125 | two encodings of the same number, one hexadecimal digit apart, convert to the same binary32 |
| Convert.Ibm32Ieee64Reencode | src/convert/mod.rs:127-157 | the same for `ibm32ieee64` |
| Convert.Ibm64Ieee32Reencode | src/convert/mod.rs:160-203 | the same for `ibm64ieee32` |
| Convert.Ibm64Ieee64Reencode | src/convert/mod.rs:206-229 | the same for `ibm64ieee64` |
| Rounding.RoundingTrick32 | src/convert/mod.rs:116-119 | the mask `!(0xfffffffd << k)`, the shift by `k`, the conditional add and the last shift compute round-half-to-even of a shift by `k + 1` |
| Rounding.RoundingTrick64 | src/convert/mod.rs:193-197 | the same for 64-bit words |
| Rounding.RoundingMask32 | src/convert/mod.rs:116 | the mask hits a set bit exactly when a sticky bit or the parity bit is set |
| Rounding.RoundingMask64 | src/convert/mod.rs:193 | the same for the 64-bit mask |
| CReference.BitcountMagicTable | ibm2ieee-sys/src/ibm2ieee.c:25-27 | for every hexadecimal digit 1..15, `(0x55af >> 2d) & 3` is its number of leading zeros |
| CReference.TopDigitLeadingZeros32 | ibm2ieee-sys/src/ibm2ieee.c:59-60 | the table read with the top digit is the Rust shift `leading_zeros() - 8` |
| CReference.TopDigitLeadingZeros64 | ibm2ieee-sys/src/ibm2ieee.c:163-165 | the same for 56-bit fractions |
| Convert.DigitLeadingZeros32 | ibm2ieee-sys/src/ibm2ieee.c:53-58 | while the top digit is zero, the fraction has 12 to 31 leading zeros and one step removes 4; this is the loop's termination measure |
| Convert.DigitLeadingZeros64 | ibm2ieee-sys/src/ibm2ieee.c:157-162 | the same for 56-bit fractions |
| Convert.DigitStep32 | ibm2ieee-sys/src/ibm2ieee.c:54-58 | a step `frac << 4` stays within 24 bits and lowers the remaining normalising shift by 4; the fully normalised fraction does not change |
| Convert.DigitStep64 | ibm2ieee-sys/src/ibm2ieee.c:158-162 | the same for 56-bit fractions |
| CReference.NormaliseDigits32 | ibm2ieee-sys/src/ibm2ieee.c:53-58 | the loop ends with a non-zero top digit; it shifted by a multiple of 4 and lowered the exponent by the same amount; the final normalisation is unchanged |
| CReference.NormaliseDigits64 | ibm2ieee-sys/src/ibm2ieee.c:157-162 | the same loop for 56-bit fractions |
| CReference.ExponentField32 | ibm2ieee-sys/src/ibm2ieee.c:41-50 | the C masks give Rust's sign and fraction, and `(ibm & EXPT) >> 22` is four times Rust's exponent |
| CReference.ExponentField64 | ibm2ieee-sys/src/ibm2ieee.c:145-154 | the same for doubles, with `>> 54` |
| CReference.NormalisedTail32 | ibm2ieee-sys/src/ibm2ieee.c:59-69 | after the loop and the table, the C fraction and exponent are the ones Rust's normalisation gives |
| CReference.NormalisedTail32To64 | ibm2ieee-sys/src/ibm2ieee.c:222-231 | the same for `ibm32ieee64`; the exponent stays in 0..0x7fc |
| CReference.NormalisedTail64To32 | ibm2ieee-sys/src/ibm2ieee.c:163-166 | the same for `ibm64ieee32` |
| CReference.NormalisedTail64 | ibm2ieee-sys/src/ibm2ieee.c:267-270 | the same for `ibm64ieee64`; the exponent stays in 0..0x7fc |
| CReference.SingleShift | ibm2ieee-sys/src/ibm2ieee.c:232 | the one shift by `29 + leading_zeros` equals the Rust two steps: `<< leading_zeros`, then `<< 29` after widening |
| CReference.TiesToEvenShift32 | ibm2ieee-sys/src/ibm2ieee.c:122-124 | `~(TIES_TO_EVEN_MASK32 << shift)`, `round_up`, the shift by `shift` and the last shift by one are the Rust rounding shift |
| CReference.TiesToEvenShift64 | ibm2ieee-sys/src/ibm2ieee.c:180-182 | the same with `TIES_TO_EVEN_MASK64` and a `uint32_t` `round_up` widened for the addition |
| CReference.SubnormalC32 | ibm2ieee-sys/src/ibm2ieee.c:122-124 | the subnormal lines of C `ibm32ieee32` compute `RoundingShift32` of the fraction, round-half-to-even of a shift by `shift + 1` |
| CReference.SubnormalC64To32 | ibm2ieee-sys/src/ibm2ieee.c:180-182 | the subnormal lines of C `ibm64ieee32` compute the low 32 bits of `RoundingShift64` |
| CReference.Ibm32Ieee32C | ibm2ieee-sys/src/ibm2ieee.c:32-131 | C `ibm32ieee32` returns exactly the word of Rust `ibm32ieee32` on every input |
| CReference.Assemble32C | ibm2ieee-sys/src/ibm2ieee.c:71-130 | testing the normal range first gives the same word as Rust's order, overflow first. Overflow gives `sign + 0x7f800000` and underflow `sign`. The subnormal shifts stay below 32, which `RoundingShift32` requires |
| CReference.Ibm64Ieee32C | ibm2ieee-sys/src/ibm2ieee.c:136-189 | C `ibm64ieee32` returns exactly the word of Rust `ibm64ieee32` on every input |
| CReference.Assemble64To32C | ibm2ieee-sys/src/ibm2ieee.c:168-188 | the C case order gives the Rust word; the subnormal shifts stay below 64 |
| CReference.Ibm32Ieee64C | ibm2ieee-sys/src/ibm2ieee.c:194-234 | C `ibm32ieee64` returns exactly the word of Rust `ibm32ieee64` on every input |
| CReference.Ibm64Ieee64C | ibm2ieee-sys/src/ibm2ieee.c:239-277 | C `ibm64ieee64` returns exactly the word of Rust `ibm64ieee64` on every input |
| CReference.Assemble64C | ibm2ieee-sys/src/ibm2ieee.c:272-276 | the C rounding and packing give the Rust tail of `ibm64ieee64` |
| Floats.F32.FromBits | src/lib.rs:125-127 | `to_bits` of `from_bits(v)` is `v` |
| Floats.F32.BitsRoundTrip | src/lib.rs:125-139 | `from_bits(to_bits())` gives the same value |
| Floats.F32.FromBeBytes | src/lib.rs:152-154 | writing the value back with `to_be_bytes` gives the same four bytes |
| Floats.F32.ToBeBytes | src/lib.rs:165-167 | four bytes, most significant first; packing them big-endian gives the word back |
| Floats.F32.BeBytesRoundTrip | src/lib.rs:152-167 | `from_be_bytes(to_be_bytes())` gives the same value |
| Floats.F32.ToIeee32 | src/lib.rs:299-304 | `From<F32> for f32` is `ibm32ieee32` of the bits: never a NaN, sign kept |
| Floats.F32.ToIeee64 | src/lib.rs:306-311 | `From<F32> for f64` is `ibm32ieee64` of the bits: sign kept, never infinite or NaN |
| Floats.F64.FromBits | src/lib.rs:206-208 | `to_bits` of `from_bits(v)` is `v` |
| Floats.F64.BitsRoundTrip | src/lib.rs:206-220 | `from_bits(to_bits())` gives the same value |
| Floats.F64.FromBeBytes | src/lib.rs:233-235 | writing the value back with `to_be_bytes` gives the same eight bytes |
| Floats.F64.ToBeBytes | src/lib.rs:246-248 | eight bytes, most significant first; packing them big-endian gives the word back |
| Floats.F64.BeBytesRoundTrip | src/lib.rs:233-248 | `from_be_bytes(to_be_bytes())` gives the same value |
| Floats.F64.ToIeee32 | src/lib.rs:313-318 | `From<F64> for f32` is `ibm64ieee32` of the bits: never a NaN, sign kept |
| Floats.F64.ToIeee64 | src/lib.rs:320-325 | `From<F64> for f64` is `ibm64ieee64` of the bits: sign kept, never infinite or NaN |
| Floats.ByteLanes32 | src/lib.rs:152-154 | the bytes of a word packed big-endian from four bytes are those bytes, in order |
| Floats.ByteLanes64 | src/lib.rs:233-235 | the same for eight bytes |
| Floats.BeBytesExample32 | src/lib.rs:143-162 | [0x46, 0, 0, 1] reads as 0x46000001 and writes back as the same bytes |
| Floats.BeBytesExample64 | src/lib.rs:224-243 | [0x41, 0x10, 0, 0, 0, 0, 0, 0] reads as 0x4110000000000000 and writes back as the same bytes |
| Floats.NegativeExample | src/lib.rs:97-106 | -118.625, IBM 0xC276A000, converts to the binary32 -118.625, 0xC2ED4000 |
| Floats.OneExample | src/lib.rs:115-122 | the unnormalised 0x46000001 converts to 1.0 as binary32 (0x3f800000) and as binary64 (0x3ff0000000000000) |
| Floats.NormalisedOneExample | src/convert/tests/ibm32ieee32.rs:147 | the normalised 1.0, 0x41100000, converts to 0x3f800000 |
| Floats.ReencodingExample | src/lib.rs:115-122 | two encodings of 1.0, 0x46000001 and 0x41100000, convert to the same binary32 and binary64 words |
| Floats.DoubleOneExample | src/lib.rs:183-191 | `F64::from_bits(0x4110000000000000)` converts to the binary64 1.0 |
| Sas.Result.ToOption | src/sas/mod.rs:149 | `.ok()` is `Some` exactly for `Ok` and carries its value |
| Sas.MissingValue.Code | src/sas/mod.rs:71-73 | every code is `.`, `_` or a letter `A`..`Z` |
| Sas.DefaultMissingValue | src/sas/mod.rs:9-11 | the default missing value is the one with code `.` |
| Sas.TryFromDecodes | src/sas/mod.rs:79-111 | `try_from` succeeds exactly for `.`, `_` and `A`..`Z`, and the value it returns has that code |
| Sas.TryFromRejects | src/sas/mod.rs:109 | any other byte, 0 among them, is an error |
| Sas.TryFromCode | src/sas/mod.rs:79-111 | round trip: `try_from(m.code())` is `Ok(m)` for every missing value |
| Sas.CodeOnto | src/sas/mod.rs:8-66 | every byte `.`, `_`, `A`..`Z` is the code of some missing value |
| Sas.CodeInjective | src/sas/mod.rs:8-66 | distinct missing values have distinct codes |
| Sas.F64.FromBeBytes | src/sas/mod.rs:136-138 | the wrapped IBM double writes back as the same eight bytes |
| Sas.F64.Missing | src/sas/mod.rs:147-150 | `missing_value` is `Some` exactly when the 7-bit IBM exponent field is a missing-value code, and then it is the value with that code |
| Sas.ExponentByte | src/sas/mod.rs:148 | `(bits >> 56) & 0x7f` is the IBM exponent field of `split` |
| Sas.MissingIgnoresSignAndFraction | src/sas/mod.rs:147-150 | `missing_value` depends only on bits 56..62: clearing the sign and the fraction does not change it |
| Sas.IsMissingValueIffCode | src/sas/mod.rs:153-155 | `is_missing_value` holds exactly when bits 56..62 of the word are `.`, `_` or a letter `A`..`Z`, whatever the sign and the fraction |
| Sas.IsNanIffMissing | src/sas/mod.rs:158-160 | `is_nan` holds exactly for missing values, because IBM conversion never gives a NaN; it holds exactly when the converted `f64` is a NaN |
| Sas.F64.ToIeee64 | src/sas/mod.rs:163-173 | a missing value becomes a negative NaN: 0xFFFF in the top 16 bits, the complement of its code in bits 40..47 and zeros elsewhere; any other value converts as `ibm64ieee64` |
| Sas.PeriodExample | src/sas/tests/f64.rs:4-17 | the bytes [0x2E, 0, ...] are 0x2E00000000000000, the missing value `.`, `is_nan`, and convert to a NaN although the plain IBM conversion gives +0.0 |

## Left out

- Formatting (`Debug`, `Display`, `LowerExp`, `UpperExp`), `PartialEq` and
  `PartialOrd` (src/lib.rs:251-297) are not modelled. They work on native
  floating point values after conversion, and this model keeps only bit
  patterns.
- `f32::from_bits`, `f64::from_bits` and `f64::is_nan` are modelled on the
  bits. The IEEE fields come from `Ieee.dfy`, and a NaN is an all-ones
  exponent with a non-zero mantissa.
- The `Uint` trait and the `cfg` imports (src/convert/mod.rs:1-30) are not
  modelled. `split` is written once per width, as `Split32` and `Split64`.
- Rust arrays `[u8; 4]` and `[u8; 8]` are sequences of bytes with a length
  precondition.
- The test modules, fuzz targets, benchmarks and the C-versus-Rust
  comparison harness are not modelled. Selected test vectors appear as
  lemmas; the random and exhaustive vector lists are not reproduced.
- Sas.TryFrom: its own contract is empty; `TryFromDecodes`,
  `TryFromRejects` and `TryFromCode` state its behaviour. The error value
  is the source's message string.
- Sas.F64.ToBits and Floats.F32.ToBits / Floats.F64.ToBits return the
  stored word and carry no contract of their own; `BitsRoundTrip` relates
  them to `FromBits`.
- Convert.Ibm32Ieee32, Convert.Ibm64Ieee32, Convert.Ibm32Ieee64 and
  Convert.Ibm64Ieee64 carry no contract of their own: the
  `MatchesReference`, `Zero`, `NotNan`, `Magnitude` and `Reencode` lemmas
  state their behaviour.
- Convert.Ieee32FromNormalised and Convert.Ieee32FromNormalised64 carry no
  contract of their own: `Ieee32FromNormalisedMeaning` and
  `Ieee32FromNormalised64Meaning` equate them with the binary32 reference.
- Sas.F64.IsMissingValue and Sas.F64.IsNan carry no contract of their own:
  `IsMissingValueIffCode` and `IsNanIffMissing` state their behaviour.
- Floats.BigEndian32 and Floats.BigEndian64 carry no contract of their own:
  `ByteLanes32`/`64` and the `ToBeBytes` methods state that they invert
  `to_be_bytes`.
- Monotonicity of the conversions is not proved. The model reads words
  only as bit patterns and fields and gives them no real-number value, and
  ordering would have to hold across the overflow, normal, subnormal and
  underflow branches and across unnormalised encodings.

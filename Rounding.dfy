/*
 * Round-half-to-even division by a power of two, the rounding mode every
 * narrowing conversion uses (IEEE 754-2008, section 4.3.1,
 * roundTiesToEven).
 *
 * `RoundTiesToEven32(x, k)` is `x / 2^(k + 1)` rounded to the nearest
 * integer, ties to even, described the way a rounding unit works: the bits
 * shifted out are summarised by the rounding bit (the most significant
 * discarded bit, bit `k`) and the sticky bits (the others), and the parity
 * bit is the least significant kept bit. `RoundingTrick32` shows that the
 * conversions' one-mask trick computes the same thing.
 */
module Rounding {
  import opened Bits

  // ---------------------------------------------------------------------
  // 32-bit words
  // ---------------------------------------------------------------------

  /** A word whose `n` least significant bits are set: 2^n - 1. */
  function LowBits32(n: nat): bv32
  {
    !ShiftLeft32(0xffff_ffff, n)
  }

  /** Bit `i` of `x`, counting from the least significant bit. */
  predicate Bit32(x: bv32, i: nat)
  {
    ShiftRight32(x, i) & 1 == 1
  }

  /** Some bit of `x` below bit `k` is set. */
  predicate Sticky32(x: bv32, k: nat)
  {
    x & LowBits32(k) != 0
  }

  /** The bits of `x` above bit `k`: `x / 2^(k + 1)` rounded down. */
  function Kept32(x: bv32, k: nat): bv32
  {
    ShiftRight32(x, k + 1)
  }

  /**
   * Whether `x / 2^(k + 1)` rounds up: the rounding bit (bit `k`) is set and
   * either a sticky bit (below it) or the parity bit (bit `k + 1`) is set.
   */
  predicate RoundsUp32(x: bv32, k: nat)
  {
    Bit32(x, k) && (Sticky32(x, k) || Bit32(x, k + 1))
  }

  /**
   * `x / 2^(k + 1)`, rounded to nearest with ties to even; `k` is the
   * position of the rounding bit.
   */
  function RoundTiesToEven32(x: bv32, k: nat): bv32
  {
    if RoundsUp32(x, k) then Kept32(x, k) + 1 else Kept32(x, k)
  }

  /** 2^j - 1 is 2^i - 1 shifted one place with bit 0 set, for `j == i + 1`. */
  lemma LowBitsNext32(i: nat, j: nat)
    requires j == i + 1
    ensures LowBits32(j) == (LowBits32(i) << 1) | 1
  {
    LowBitsDef32(i);
    LowBitsDef32(j);
    ComplementShiftLeft32Next(0xffff_ffff, i, j);
  }

  /** The definition of `LowBits32`, as a fact a proof can cite. */
  lemma LowBitsDef32(n: nat)
    ensures LowBits32(n) == !ShiftLeft32(0xffff_ffff, n)
  {
  }

  /** Bit `j` of `x` is bit `i` of `x >> 1`, for `j == i + 1`. */
  lemma BitNext32(x: bv32, i: nat, j: nat)
    requires j == i + 1
    ensures Bit32(x, j) == Bit32(x >> 1, i)
  {
  }

  /**
   * The conversions' rounding mask `!(0xffff_fffd << k)`: bits `0 .. k - 1` (the
   * sticky bits) and bit `k + 1` (the parity bit) of a shift by `k + 1`.
   */
  function RoundMask32(k: nat): bv32
  {
    !ShiftLeft32(0xffff_fffd, k)
  }

  /**
   * The mask `!(0xffff_fffd << k)` selects bits `0 .. k - 1` and bit `j == k + 1` of
   * a word: the sticky bits and the parity bit of a shift by `k + 1`.
   */
  lemma RoundingMask32(x: bv32, k: nat, j: nat)
    requires k < 32 && j == k + 1
    ensures (x & !Shl32(0xffff_fffd, k) != 0) == (Sticky32(x, k) || Bit32(x, j))
  {
    RoundMaskHits32(x, k, j);
  }

  /** `RoundingMask32`, by induction on `k`. */
  lemma {:induction false} RoundMaskHits32(x: bv32, k: nat, j: nat)
    requires j == k + 1
    ensures (x & RoundMask32(k) != 0) == (Sticky32(x, k) || Bit32(x, j))
    decreases k
  {
    if k > 0 {
      var y, h := x >> 1, k - 1;
      RoundMaskHits32(y, h, k);
      RoundMaskHitsStep32(x, y, h, k, j);
    } else {
      RoundMaskHitsBase32(x, j);
    }
  }

  lemma RoundMaskHitsBase32(x: bv32, j: nat)
    requires j == 1
    ensures (x & RoundMask32(0) != 0) == (Sticky32(x, 0) || Bit32(x, j))
  {
  }

  /** The induction step of `RoundMaskHits32`. */
  lemma RoundMaskHitsStep32(x: bv32, y: bv32, h: nat, k: nat, j: nat)
    requires y == x >> 1 && k == h + 1 && j == k + 1
    requires (y & RoundMask32(h) != 0) == (Sticky32(y, h) || Bit32(y, k))
    ensures (x & RoundMask32(k) != 0) == (Sticky32(x, k) || Bit32(x, j))
  {
    MaskHitNext32(x, y, h, k);
    StickyNext32(x, y, h, k);
    BitNext32(x, k, j);
  }

  /** The mask for `k == h + 1` hits `x` at bit 0 or where the mask for `h` hits `x >> 1`. */
  lemma MaskHitNext32(x: bv32, y: bv32, h: nat, k: nat)
    requires y == x >> 1 && k == h + 1
    ensures (x & RoundMask32(k) != 0) == (x & 1 != 0 || y & RoundMask32(h) != 0)
  {
    RoundMaskNext32(h, k);
  }

  /** The mask for `k == h + 1` is the mask for `h` shifted one place, with bit 0 set. */
  lemma RoundMaskNext32(h: nat, k: nat)
    requires k == h + 1
    ensures RoundMask32(k) == (RoundMask32(h) << 1) | 1
  {
    RoundMaskDef32(h);
    RoundMaskDef32(k);
    ComplementShiftLeft32Next(0xffff_fffd, h, k);
  }

  /** The definition of `RoundMask32`, as a fact a proof can cite. */
  lemma RoundMaskDef32(n: nat)
    ensures RoundMask32(n) == !ShiftLeft32(0xffff_fffd, n)
  {
  }

  /** A sticky bit below `k == h + 1` is bit 0 or a sticky bit of `x >> 1` below `h`. */
  lemma StickyNext32(x: bv32, y: bv32, h: nat, k: nat)
    requires y == x >> 1 && k == h + 1
    ensures Sticky32(x, k) == (x & 1 != 0 || Sticky32(y, h))
  {
    LowBitsNext32(h, k);
    StickyDef32(x, k);
    StickyDef32(y, h);
  }

  /** The definition of `Sticky32`, as a fact a proof can cite. */
  lemma StickyDef32(x: bv32, k: nat)
    ensures Sticky32(x, k) == (x & LowBits32(k) != 0)
  {
  }

  /** What the trick shifts right by `k` holds the rounding and kept bits. */
  lemma TrickShift32(x: bv32, k: nat)
    requires k < 32
    ensures Kept32(x, k) == Shr32(x, k) >> 1
    ensures Bit32(x, k) == (Shr32(x, k) & 1 == 1)
    ensures x >> 31 == 0 ==> Shr32(x, k) >> 31 == 0
  {
    ShiftRight32Last(x, k);
    if x >> 31 == 0 {
      ShiftRight32TopClear(x, k);
    }
  }

  /** `RoundingTrick32` when the rounding bit is clear. */
  lemma RoundingTrickEven32(x: bv32, k: nat)
    requires k < 32 && !Bit32(x, k)
    ensures RoundingShift32(x, k) == Kept32(x, k)
  {
    TrickShift32(x, k);
  }

  /** `RoundingTrick32` when the rounding bit is set but no sticky or parity bit is. */
  lemma RoundingTrickHalf32(x: bv32, k: nat, j: nat)
    requires k < 32 && j == k + 1 && Bit32(x, k) && !Sticky32(x, k) && !Bit32(x, j)
    ensures RoundingShift32(x, k) == Kept32(x, k)
  {
    RoundingMask32(x, k, j);
    TrickShift32(x, k);
  }

  /** `RoundingTrick32` when round-half-to-even rounds up. */
  lemma RoundingTrickUp32(x: bv32, k: nat, j: nat)
    requires x >> 31 == 0 && k < 32 && j == k + 1
    requires Bit32(x, k) && (Sticky32(x, k) || Bit32(x, j))
    ensures RoundingShift32(x, k) == Kept32(x, k) + 1
  {
    RoundingMask32(x, k, j);
    TrickShift32(x, k);
  }

  /** `RoundingTrick32`, case by case, with `j == k + 1`. */
  lemma RoundingTrickCases32(x: bv32, k: nat, j: nat)
    requires x >> 31 == 0 && k < 32 && j == k + 1
    ensures RoundingShift32(x, k) == RoundTiesToEven32(x, k)
  {
    if !Bit32(x, k) {
      RoundingTrickEven32(x, k);
    } else if Sticky32(x, k) || Bit32(x, j) {
      RoundingTrickUp32(x, k, j);
    } else {
      RoundingTrickHalf32(x, k, j);
    }
  }

  /**
   * The conversions' rounding shift: shift right by `k`, add one when any
   * of the sticky bits (below bit `k`) or the parity bit (bit `k + 1`) is
   * set, which the mask `!(...fffd << k)` selects, and shift out the
   * rounding bit. Neither shift reaches the word width.
   */
  function RoundingShift32(x: bv32, k: nat): bv32
    requires k < 32
  {
    RoundStep32(x, !Shl32(0xffff_fffd, k), Shr32(x, k))
  }

  /**
   * The last step of every rounding shift: `shifted` plus one when any bit
   * of `x` under `mask` is set, with the rounding bit shifted out.
   */
  function RoundStep32(x: bv32, mask: bv32, shifted: bv32): bv32
  {
    var roundUp: bv32 := if x & mask > 0 then 1 else 0;
    (shifted + roundUp) >> 1
  }

  /** The rounding shift is round-half-to-even of a shift by `k + 1`. */
  lemma RoundingTrick32(x: bv32, k: nat)
    requires x >> 31 == 0 && k < 32
    ensures RoundingShift32(x, k) == RoundTiesToEven32(x, k)
  {
    var j := k + 1;
    RoundingTrickCases32(x, k, j);
  }

  // ---------------------------------------------------------------------
  // 64-bit words
  // ---------------------------------------------------------------------

  /** A word whose `n` least significant bits are set: 2^n - 1. */
  function LowBits64(n: nat): bv64
  {
    !ShiftLeft64(0xffff_ffff_ffff_ffff, n)
  }

  /** Bit `i` of `x`, counting from the least significant bit. */
  predicate Bit64(x: bv64, i: nat)
  {
    ShiftRight64(x, i) & 1 == 1
  }

  /** Some bit of `x` below bit `k` is set. */
  predicate Sticky64(x: bv64, k: nat)
  {
    x & LowBits64(k) != 0
  }

  /** The bits of `x` above bit `k`: `x / 2^(k + 1)` rounded down. */
  function Kept64(x: bv64, k: nat): bv64
  {
    ShiftRight64(x, k + 1)
  }

  /**
   * Whether `x / 2^(k + 1)` rounds up: the rounding bit (bit `k`) is set and
   * either a sticky bit (below it) or the parity bit (bit `k + 1`) is set.
   */
  predicate RoundsUp64(x: bv64, k: nat)
  {
    Bit64(x, k) && (Sticky64(x, k) || Bit64(x, k + 1))
  }

  /**
   * `x / 2^(k + 1)`, rounded to nearest with ties to even; `k` is the
   * position of the rounding bit.
   */
  function RoundTiesToEven64(x: bv64, k: nat): bv64
  {
    if RoundsUp64(x, k) then Kept64(x, k) + 1 else Kept64(x, k)
  }

  /** 2^j - 1 is 2^i - 1 shifted one place with bit 0 set, for `j == i + 1`. */
  lemma LowBitsNext64(i: nat, j: nat)
    requires j == i + 1
    ensures LowBits64(j) == (LowBits64(i) << 1) | 1
  {
    LowBitsDef64(i);
    LowBitsDef64(j);
    ComplementShiftLeft64Next(0xffff_ffff_ffff_ffff, i, j);
  }

  /** The definition of `LowBits64`, as a fact a proof can cite. */
  lemma LowBitsDef64(n: nat)
    ensures LowBits64(n) == !ShiftLeft64(0xffff_ffff_ffff_ffff, n)
  {
  }

  /** Bit `j` of `x` is bit `i` of `x >> 1`, for `j == i + 1`. */
  lemma BitNext64(x: bv64, i: nat, j: nat)
    requires j == i + 1
    ensures Bit64(x, j) == Bit64(x >> 1, i)
  {
  }

  /**
   * The conversions' rounding mask `!(0xffff_ffff_ffff_fffd << k)`: bits `0 .. k - 1` (the
   * sticky bits) and bit `k + 1` (the parity bit) of a shift by `k + 1`.
   */
  function RoundMask64(k: nat): bv64
  {
    !ShiftLeft64(0xffff_ffff_ffff_fffd, k)
  }

  /**
   * The mask `!(0xffff_ffff_ffff_fffd << k)` selects bits `0 .. k - 1` and bit `j == k + 1` of
   * a word: the sticky bits and the parity bit of a shift by `k + 1`.
   */
  lemma RoundingMask64(x: bv64, k: nat, j: nat)
    requires k < 64 && j == k + 1
    ensures (x & !Shl64(0xffff_ffff_ffff_fffd, k) != 0) == (Sticky64(x, k) || Bit64(x, j))
  {
    RoundMaskHits64(x, k, j);
  }

  /** `RoundingMask64`, by induction on `k`. */
  lemma {:induction false} RoundMaskHits64(x: bv64, k: nat, j: nat)
    requires j == k + 1
    ensures (x & RoundMask64(k) != 0) == (Sticky64(x, k) || Bit64(x, j))
    decreases k
  {
    if k > 0 {
      var y, h := x >> 1, k - 1;
      RoundMaskHits64(y, h, k);
      RoundMaskHitsStep64(x, y, h, k, j);
    } else {
      RoundMaskHitsBase64(x, j);
    }
  }

  lemma RoundMaskHitsBase64(x: bv64, j: nat)
    requires j == 1
    ensures (x & RoundMask64(0) != 0) == (Sticky64(x, 0) || Bit64(x, j))
  {
  }

  /** The induction step of `RoundMaskHits64`. */
  lemma RoundMaskHitsStep64(x: bv64, y: bv64, h: nat, k: nat, j: nat)
    requires y == x >> 1 && k == h + 1 && j == k + 1
    requires (y & RoundMask64(h) != 0) == (Sticky64(y, h) || Bit64(y, k))
    ensures (x & RoundMask64(k) != 0) == (Sticky64(x, k) || Bit64(x, j))
  {
    MaskHitNext64(x, y, h, k);
    StickyNext64(x, y, h, k);
    BitNext64(x, k, j);
  }

  /** The mask for `k == h + 1` hits `x` at bit 0 or where the mask for `h` hits `x >> 1`. */
  lemma MaskHitNext64(x: bv64, y: bv64, h: nat, k: nat)
    requires y == x >> 1 && k == h + 1
    ensures (x & RoundMask64(k) != 0) == (x & 1 != 0 || y & RoundMask64(h) != 0)
  {
    RoundMaskNext64(h, k);
  }

  /** The mask for `k == h + 1` is the mask for `h` shifted one place, with bit 0 set. */
  lemma RoundMaskNext64(h: nat, k: nat)
    requires k == h + 1
    ensures RoundMask64(k) == (RoundMask64(h) << 1) | 1
  {
    RoundMaskDef64(h);
    RoundMaskDef64(k);
    ComplementShiftLeft64Next(0xffff_ffff_ffff_fffd, h, k);
  }

  /** The definition of `RoundMask64`, as a fact a proof can cite. */
  lemma RoundMaskDef64(n: nat)
    ensures RoundMask64(n) == !ShiftLeft64(0xffff_ffff_ffff_fffd, n)
  {
  }

  /** A sticky bit below `k == h + 1` is bit 0 or a sticky bit of `x >> 1` below `h`. */
  lemma StickyNext64(x: bv64, y: bv64, h: nat, k: nat)
    requires y == x >> 1 && k == h + 1
    ensures Sticky64(x, k) == (x & 1 != 0 || Sticky64(y, h))
  {
    LowBitsNext64(h, k);
    StickyDef64(x, k);
    StickyDef64(y, h);
  }

  /** The definition of `Sticky64`, as a fact a proof can cite. */
  lemma StickyDef64(x: bv64, k: nat)
    ensures Sticky64(x, k) == (x & LowBits64(k) != 0)
  {
  }

  /** What the trick shifts right by `k` holds the rounding and kept bits. */
  lemma TrickShift64(x: bv64, k: nat)
    requires k < 64
    ensures Kept64(x, k) == Shr64(x, k) >> 1
    ensures Bit64(x, k) == (Shr64(x, k) & 1 == 1)
    ensures x >> 63 == 0 ==> Shr64(x, k) >> 63 == 0
  {
    ShiftRight64Last(x, k);
    if x >> 63 == 0 {
      ShiftRight64TopClear(x, k);
    }
  }

  /** `RoundingTrick64` when the rounding bit is clear. */
  lemma RoundingTrickEven64(x: bv64, k: nat)
    requires k < 64 && !Bit64(x, k)
    ensures RoundingShift64(x, k) == Kept64(x, k)
  {
    TrickShift64(x, k);
  }

  /** `RoundingTrick64` when the rounding bit is set but no sticky or parity bit is. */
  lemma RoundingTrickHalf64(x: bv64, k: nat, j: nat)
    requires k < 64 && j == k + 1 && Bit64(x, k) && !Sticky64(x, k) && !Bit64(x, j)
    ensures RoundingShift64(x, k) == Kept64(x, k)
  {
    RoundingMask64(x, k, j);
    TrickShift64(x, k);
  }

  /** `RoundingTrick64` when round-half-to-even rounds up. */
  lemma RoundingTrickUp64(x: bv64, k: nat, j: nat)
    requires x >> 63 == 0 && k < 64 && j == k + 1
    requires Bit64(x, k) && (Sticky64(x, k) || Bit64(x, j))
    ensures RoundingShift64(x, k) == Kept64(x, k) + 1
  {
    RoundingMask64(x, k, j);
    TrickShift64(x, k);
  }

  /** `RoundingTrick64`, case by case, with `j == k + 1`. */
  lemma RoundingTrickCases64(x: bv64, k: nat, j: nat)
    requires x >> 63 == 0 && k < 64 && j == k + 1
    ensures RoundingShift64(x, k) == RoundTiesToEven64(x, k)
  {
    if !Bit64(x, k) {
      RoundingTrickEven64(x, k);
    } else if Sticky64(x, k) || Bit64(x, j) {
      RoundingTrickUp64(x, k, j);
    } else {
      RoundingTrickHalf64(x, k, j);
    }
  }

  /**
   * The conversions' rounding shift: shift right by `k`, add one when any
   * of the sticky bits (below bit `k`) or the parity bit (bit `k + 1`) is
   * set, which the mask `!(...fffd << k)` selects, and shift out the
   * rounding bit. Neither shift reaches the word width.
   */
  function RoundingShift64(x: bv64, k: nat): bv64
    requires k < 64
  {
    RoundStep64(x, !Shl64(0xffff_ffff_ffff_fffd, k), Shr64(x, k))
  }

  /**
   * The last step of every rounding shift: `shifted` plus one when any bit
   * of `x` under `mask` is set, with the rounding bit shifted out.
   */
  function RoundStep64(x: bv64, mask: bv64, shifted: bv64): bv64
  {
    var roundUp: bv64 := if x & mask > 0 then 1 else 0;
    (shifted + roundUp) >> 1
  }

  /** The rounding shift is round-half-to-even of a shift by `k + 1`. */
  lemma RoundingTrick64(x: bv64, k: nat)
    requires x >> 63 == 0 && k < 64
    ensures RoundingShift64(x, k) == RoundTiesToEven64(x, k)
  {
    var j := k + 1;
    RoundingTrickCases64(x, k, j);
  }
}

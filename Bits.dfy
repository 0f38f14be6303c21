/*
 * Word-level helpers shared by the conversions: shifts by a run-time amount
 * and the leading-zero count of Rust's `u32::leading_zeros` /
 * `u64::leading_zeros`.
 *
 * A shift by a variable amount `n` is defined as `n` successive one-place
 * shifts. Rust (a panic in debug builds) and C (undefined behaviour) only
 * allow shift amounts below the word width, so the conversions go through
 * `Shl32`/`Shr32`/`Shl64`/`Shr64`, which demand exactly that. Shifts by a
 * constant amount are written with Dafny's own `<<` and `>>`; the lemmas
 * `ShiftLeft64By8`, `ShiftRight64By32` and friends connect the two forms for
 * the constant amounts the conversions need.
 */
module Bits {

  // ---------------------------------------------------------------------
  // 32-bit words
  // ---------------------------------------------------------------------

  /** `x` shifted left by `n` places, one place at a time. */
  function ShiftLeft32(x: bv32, n: nat): bv32
    decreases n
  {
    if n == 0 then x else ShiftLeft32(x << 1, n - 1)
  }

  /** `x` shifted right (logically) by `n` places, one place at a time. */
  function ShiftRight32(x: bv32, n: nat): bv32
    decreases n
  {
    if n == 0 then x else ShiftRight32(x >> 1, n - 1)
  }

  /** The machine shift `x << n`, defined only for `n` below the width. */
  function Shl32(x: bv32, n: nat): bv32
    requires n < 32
  {
    ShiftLeft32(x, n)
  }

  /** The machine shift `x >> n`, defined only for `n` below the width. */
  function Shr32(x: bv32, n: nat): bv32
    requires n < 32
  {
    ShiftRight32(x, n)
  }

  /**
   * The number of leading zero bits of `x`, inspecting at most its `k`
   * most significant bits.
   */
  function LeadingZerosWithin32(x: bv32, k: nat): (n: nat)
    ensures n <= k
    decreases k
  {
    if k == 0 || x >> 31 == 1 then 0 else 1 + LeadingZerosWithin32(x << 1, k - 1)
  }

  /** `u32::leading_zeros`. */
  function LeadingZeros32(x: bv32): nat
  {
    LeadingZerosWithin32(x, 32)
  }

  lemma {:induction false} ShiftLeft32Add(x: bv32, a: nat, b: nat)
    ensures ShiftLeft32(x, a + b) == ShiftLeft32(ShiftLeft32(x, a), b)
    decreases a
  {
    if a != 0 {
      ShiftLeft32Add(x << 1, a - 1, b);
    }
  }

  lemma {:induction false} ShiftRight32Add(x: bv32, a: nat, b: nat)
    ensures ShiftRight32(x, a + b) == ShiftRight32(ShiftRight32(x, a), b)
    decreases a
  {
    if a != 0 {
      ShiftRight32Add(x >> 1, a - 1, b);
    }
  }

  /** Shifting one more place is one more one-place shift at the end. */
  lemma ShiftLeft32Last(x: bv32, n: nat)
    ensures ShiftLeft32(x, n + 1) == ShiftLeft32(x, n) << 1
  {
    ShiftLeft32Add(x, n, 1);
  }

  /** Complementing a left shift by one more place sets one more low bit. */
  lemma ComplementShiftLeft32Next(c: bv32, i: nat, j: nat)
    requires j == i + 1
    ensures !ShiftLeft32(c, j) == (!ShiftLeft32(c, i) << 1) | 1
  {
    ShiftLeft32Last(c, i);
  }

  lemma ShiftRight32Last(x: bv32, n: nat)
    ensures ShiftRight32(x, n + 1) == ShiftRight32(x, n) >> 1
  {
    ShiftRight32Add(x, n, 1);
  }
  /** `ShiftRight32Last` with the longer amount named: `j == i + 1`. */
  lemma ShiftRight32Next(x: bv32, i: nat, j: nat)
    requires j == i + 1
    ensures ShiftRight32(x, j) == ShiftRight32(x, i) >> 1
  {
    ShiftRight32Last(x, i);
  }

  /** One step of the definition of `ShiftRight32`, as a fact a proof can cite. */
  lemma ShiftRight32Unfold(x: bv32, y: bv32, m: nat, n: nat)
    requires y == x >> 1 && n == m + 1
    ensures ShiftRight32(x, n) == ShiftRight32(y, m)
  {
  }

  /** One step of the definition of `ShiftLeft32`, as a fact a proof can cite. */
  lemma ShiftLeft32Unfold(x: bv32, y: bv32, m: nat, n: nat)
    requires y == x << 1 && n == m + 1
    ensures ShiftLeft32(x, n) == ShiftLeft32(y, m)
  {
  }


  lemma ShiftRight32By2(x: bv32, n: nat)
    requires n == 2
    ensures ShiftRight32(x, n) == x >> 2
  {
  }

  lemma ShiftRight32By3(x: bv32, n: nat)
    requires n == 3
    ensures ShiftRight32(x, n) == x >> 3
  {
  }

  lemma ShiftRight32By4(x: bv32, n: nat)
    requires n == 4
    ensures ShiftRight32(x, n) == x >> 4
  {
    ShiftRight32Add(x, 2, 2);
    ShiftRight32By2(x, 2);
    ShiftRight32By2(x >> 2, 2);
  }

  lemma ShiftRight32By7(x: bv32, n: nat)
    requires n == 7
    ensures ShiftRight32(x, n) == x >> 7
  {
    ShiftRight32Add(x, 4, 3);
    ShiftRight32By4(x, 4);
    ShiftRight32By3(x >> 4, 3);
  }

  lemma ShiftRight32By8(x: bv32, n: nat)
    requires n == 8
    ensures ShiftRight32(x, n) == x >> 8
  {
    ShiftRight32Add(x, 4, 4);
    ShiftRight32By4(x, 4);
    ShiftRight32By4(x >> 4, 4);
  }

  lemma ShiftRight32By16(x: bv32, n: nat)
    requires n == 16
    ensures ShiftRight32(x, n) == x >> 16
  {
    ShiftRight32Add(x, 8, 8);
    ShiftRight32By8(x, 8);
    ShiftRight32By8(x >> 8, 8);
  }

  lemma ShiftRight32By20(x: bv32, n: nat)
    requires n == 20
    ensures ShiftRight32(x, n) == x >> 20
  {
    ShiftRight32Add(x, 16, 4);
    ShiftRight32By16(x, 16);
    ShiftRight32By4(x >> 16, 4);
  }

  lemma ShiftRight32By22(x: bv32, n: nat)
    requires n == 22
    ensures ShiftRight32(x, n) == x >> 22
  {
    ShiftRight32Add(x, 20, 2);
    ShiftRight32By20(x, 20);
    ShiftRight32By2(x >> 20, 2);
  }

  lemma ShiftRight32By23(x: bv32, n: nat)
    requires n == 23
    ensures ShiftRight32(x, n) == x >> 23
  {
    ShiftRight32Add(x, 16, 7);
    ShiftRight32By16(x, 16);
    ShiftRight32By7(x >> 16, 7);
  }

  lemma ShiftRight32By24(x: bv32, n: nat)
    requires n == 24
    ensures ShiftRight32(x, n) == x >> 24
  {
    ShiftRight32Add(x, 16, 8);
    ShiftRight32By16(x, 16);
    ShiftRight32By8(x >> 16, 8);
  }

  lemma ShiftRight32By21(x: bv32, n: nat)
    requires n == 21
    ensures ShiftRight32(x, n) == x >> 21
  {
    ShiftRight32Add(x, 20, 1);
    ShiftRight32By20(x, 20);
  }

  lemma ShiftRight32By28(x: bv32, n: nat)
    requires n == 28
    ensures ShiftRight32(x, n) == x >> 28
  {
    ShiftRight32Add(x, 24, 4);
    ShiftRight32By24(x, 24);
    ShiftRight32By4(x >> 24, 4);
  }

  lemma ShiftRight32By29(x: bv32, n: nat)
    requires n == 29
    ensures ShiftRight32(x, n) == x >> 29
  {
    ShiftRight32Add(x, 22, 7);
    ShiftRight32By22(x, 22);
    ShiftRight32By7(x >> 22, 7);
  }

  lemma ShiftRight32By30(x: bv32, n: nat)
    requires n == 30
    ensures ShiftRight32(x, n) == x >> 30
  {
    ShiftRight32Add(x, 22, 8);
    ShiftRight32By22(x, 22);
    ShiftRight32By8(x >> 22, 8);
  }

  lemma ShiftRight32By31(x: bv32, n: nat)
    requires n == 31
    ensures ShiftRight32(x, n) == x >> 31
  {
    ShiftRight32Add(x, 24, 7);
    ShiftRight32By24(x, 24);
    ShiftRight32By7(x >> 24, 7);
  }

  /** Shifting right by the whole width leaves nothing. */
  lemma ShiftRight32ByWidth(x: bv32, n: nat)
    requires n == 32
    ensures ShiftRight32(x, n) == 0
  {
    ShiftRight32Add(x, 24, 8);
    ShiftRight32By24(x, 24);
    ShiftRight32By8(x >> 24, 8);
  }

  lemma ShiftLeft32By4(x: bv32, n: nat)
    requires n == 4
    ensures ShiftLeft32(x, n) == x << 4
  {
    ShiftLeft32Add(x, 2, 2);
  }

  lemma ShiftLeft32By8(x: bv32, n: nat)
    requires n == 8
    ensures ShiftLeft32(x, n) == x << 8
  {
    ShiftLeft32Add(x, 4, 4);
    ShiftLeft32By4(x, 4);
    ShiftLeft32By4(x << 4, 4);
  }
  lemma ShiftLeft32By1(x: bv32, n: nat)
    requires n == 1
    ensures ShiftLeft32(x, n) == x << 1
  {
  }

  lemma ShiftLeft32By2(x: bv32, n: nat)
    requires n == 2
    ensures ShiftLeft32(x, n) == x << 2
  {
  }

  lemma ShiftLeft32By3(x: bv32, n: nat)
    requires n == 3
    ensures ShiftLeft32(x, n) == x << 3
  {
    ShiftLeft32Add(x, 2, 1);
  }

  lemma ShiftLeft32By7(x: bv32, n: nat)
    requires n == 7
    ensures ShiftLeft32(x, n) == x << 7
  {
    ShiftLeft32Add(x, 4, 3);
    ShiftLeft32By4(x, 4);
    ShiftLeft32By3(x << 4, 3);
  }

  lemma ShiftLeft32By16(x: bv32, n: nat)
    requires n == 16
    ensures ShiftLeft32(x, n) == x << 16
  {
    ShiftLeft32Add(x, 8, 8);
    ShiftLeft32By8(x, 8);
    ShiftLeft32By8(x << 8, 8);
  }

  lemma ShiftLeft32By19(x: bv32, n: nat)
    requires n == 19
    ensures ShiftLeft32(x, n) == x << 19
  {
    ShiftLeft32Add(x, 16, 3);
    ShiftLeft32By16(x, 16);
    ShiftLeft32By3(x << 16, 3);
  }

  lemma ShiftLeft32By23(x: bv32, n: nat)
    requires n == 23
    ensures ShiftLeft32(x, n) == x << 23
  {
    ShiftLeft32Add(x, 16, 7);
    ShiftLeft32By16(x, 16);
    ShiftLeft32By7(x << 16, 7);
  }



  /** A right shift keeps a clear top bit clear. */
  lemma {:induction false} ShiftRight32TopClear(x: bv32, n: nat)
    requires x >> 31 == 0
    ensures ShiftRight32(x, n) >> 31 == 0
    decreases n
  {
    if n != 0 {
      ShiftRight32TopClear(x >> 1, n - 1);
    }
  }

  /** A right shift never makes a word larger. */
  lemma {:induction false} ShiftRight32Le(x: bv32, n: nat)
    ensures ShiftRight32(x, n) <= x
    decreases n
  {
    if n != 0 {
      ShiftRight32Le(x >> 1, n - 1);
    }
  }

  /**
   * Each leading zero that is shifted out leaves one fewer: after `m`
   * shifts (with `m` no more than the count) the count has dropped by `m`.
   */
  lemma {:induction false} LeadingZerosShift32(x: bv32, k: nat, m: nat)
    requires m <= LeadingZerosWithin32(x, k)
    ensures LeadingZerosWithin32(ShiftLeft32(x, m), k - m) == LeadingZerosWithin32(x, k) - m
    decreases m
  {
    if m != 0 {
      LeadingZerosShift32(x << 1, k - 1, m - 1);
    }
  }

  /** Shifting out all the leading zeros brings a one to the top. */
  lemma {:induction false} LeadingZerosTop32(x: bv32, k: nat)
    requires LeadingZerosWithin32(x, k) < k
    ensures ShiftLeft32(x, LeadingZerosWithin32(x, k)) >> 31 == 1
    decreases k
  {
    if x >> 31 == 0 {
      LeadingZerosTop32(x << 1, k - 1);
    }
  }

  /** Inspecting more bits does not change a count that stopped at a one bit. */
  lemma {:induction false} LeadingZerosWithinMore32(x: bv32, k: nat, m: nat)
    requires LeadingZerosWithin32(x, k) < k <= m
    ensures LeadingZerosWithin32(x, m) == LeadingZerosWithin32(x, k)
    decreases k
  {
    if x >> 31 == 0 {
      LeadingZerosWithinMore32(x << 1, k - 1, m - 1);
    }
  }

  /** The leading zeros counted really are zero bits at the top of `x`. */
  lemma {:induction false} LeadingZerosAreZero32(x: bv32, k: nat, j: nat)
    requires j <= LeadingZerosWithin32(x, k) && k <= 32
    ensures ShiftRight32(x, 32 - j) == 0
    decreases j
  {
    if j == 0 {
      ShiftRight32ByWidth(x, 32);
    } else {
      LeadingZerosAreZero32(x << 1, k - 1, j - 1);
      assert (x << 1) >> 1 == x;
    }
  }

  /** Conversely, zero bits at the top are counted. */
  lemma {:induction false} ZerosAreLeadingZeros32(x: bv32, k: nat, j: nat)
    requires j <= k <= 32 && ShiftRight32(x, 32 - j) == 0
    ensures j <= LeadingZerosWithin32(x, k)
    decreases j
  {
    if j != 0 {
      TopBitClear32(x, j);
      assert ShiftRight32(x << 1, 32 - (j - 1)) == 0 by {
        assert (x << 1) >> 1 == x;
      }
      ZerosAreLeadingZeros32(x << 1, k - 1, j - 1);
    }
  }

  /** If the top `j` bits are zero, with `j` positive, so is the top bit. */
  lemma TopBitClear32(x: bv32, j: nat)
    requires 1 <= j <= 32 && ShiftRight32(x, 32 - j) == 0
    ensures x >> 31 == 0
  {
    ShiftRight32Add(x, 32 - j, j - 1);
    ShiftRight32Zero(j - 1);
    ShiftRight32By31(x, 31);
  }

  lemma {:induction false} ShiftRight32Zero(n: nat)
    ensures ShiftRight32(0, n) == 0
    decreases n
  {
    if n != 0 {
      ShiftRight32Zero(n - 1);
    }
  }

  /** A word whose most significant one is bit `31 - j` has `j` leading zeros. */
  lemma LeadingZerosExact32(x: bv32, j: nat)
    requires j < 32 && ShiftRight32(x, 31 - j) == 1
    ensures LeadingZeros32(x) == j
  {
    var m, n := 31 - j, 32 - j;
    ShiftRight32Next(x, m, n);
    ZerosAreLeadingZeros32(x, 32, j);
    if LeadingZeros32(x) > j {
      LeadingZerosAreZero32(x, 32, j + 1);
      assert false;
    }
  }

  /** A 24-bit word shifted right by 24 places or more is zero. */
  lemma ShiftRight32Beyond(x: bv32, n: nat)
    requires x >> 24 == 0 && n >= 24
    ensures ShiftRight32(x, n) == 0
  {
    ShiftRight32Add(x, 24, n - 24);
    ShiftRight32By24(x, 24);
    ShiftRight32Zero(n - 24);
  }

  /**
   * Shifting left by `s` places loses nothing when the top `s` bits are
   * zero: shifting back right restores the word.
   */
  lemma {:induction false} ShiftLeftUndo32(x: bv32, s: nat)
    requires s <= 32 && ShiftRight32(x, 32 - s) == 0
    ensures ShiftRight32(ShiftLeft32(x, s), s) == x
    decreases s
  {
    if s != 0 {
      TopBitClear32(x, s);
      var y, h := x << 1, s - 1;
      ShiftLeftUndoZeros32(x, y, h, s);
      ShiftLeftUndo32(y, h);
      ShiftLeftUndoStep32(x, y, h, s);
    }
  }

  /** The top zeros of `x` less one are top zeros of `x << 1`. */
  lemma ShiftLeftUndoZeros32(x: bv32, y: bv32, h: nat, s: nat)
    requires y == x << 1 && x >> 31 == 0 && s == h + 1 && s <= 32
    requires ShiftRight32(x, 32 - s) == 0
    ensures ShiftRight32(y, 32 - h) == 0
  {
    var m, n := 32 - s, 32 - h;
    ShiftRight32Unfold(y, x, m, n);
  }


  /** The induction step of `ShiftLeftUndo32`. */
  lemma ShiftLeftUndoStep32(x: bv32, y: bv32, h: nat, s: nat)
    requires y == x << 1 && x >> 31 == 0 && s == h + 1
    requires ShiftRight32(ShiftLeft32(y, h), h) == y
    ensures ShiftRight32(ShiftLeft32(x, s), s) == x
  {
    ShiftLeft32Unfold(x, y, h, s);
    var z := ShiftLeft32(y, h);
    ShiftRight32Next(z, h, s);
    ShiftLeftRight32(x, y);
  }

  /** A word with a clear top bit survives a shift left and back. */
  lemma ShiftLeftRight32(x: bv32, y: bv32)
    requires y == x << 1 && x >> 31 == 0
    ensures y >> 1 == x
  {
  }



  /**
   * A non-zero 24-bit fraction shifted left by its leading zeros less 8 has
   * its most significant one in bit 23, the top of the 24-bit field.
   */
  lemma NormalisingShift32(x: bv32)
    requires x != 0 && x >> 24 == 0
    ensures 8 <= LeadingZeros32(x) < 32
    ensures ShiftLeft32(x, LeadingZeros32(x) - 8) >> 23 == 1
  {
    var lz := LeadingZeros32(x);
    if lz == 32 {
      LeadingZerosAreZero32(x, 32, 32);
      assert false;
    }
    ShiftRight32By24(x, 24);
    ZerosAreLeadingZeros32(x, 32, 8);
    var s := lz - 8;
    var y := ShiftLeft32(x, s);
    LeadingZerosShift32(x, 32, s);
    LeadingZerosTop32(y, 32 - s);
    ShiftLeft32By8(y, 8);
    LeadingZerosAreZero32(y, 32 - s, 8);
    ShiftRight32By24(y, 24);
  }

  // ---------------------------------------------------------------------
  // 64-bit words
  // ---------------------------------------------------------------------

  function ShiftLeft64(x: bv64, n: nat): bv64
    decreases n
  {
    if n == 0 then x else ShiftLeft64(x << 1, n - 1)
  }

  /** `x` shifted right (logically) by `n` places, one place at a time. */
  function ShiftRight64(x: bv64, n: nat): bv64
    decreases n
  {
    if n == 0 then x else ShiftRight64(x >> 1, n - 1)
  }

  /** The machine shift `x << n`, defined only for `n` below the width. */
  function Shl64(x: bv64, n: nat): bv64
    requires n < 64
  {
    ShiftLeft64(x, n)
  }

  /** The machine shift `x >> n`, defined only for `n` below the width. */
  function Shr64(x: bv64, n: nat): bv64
    requires n < 64
  {
    ShiftRight64(x, n)
  }

  /**
   * The number of leading zero bits of `x`, inspecting at most its `k`
   * most significant bits.
   */
  function LeadingZerosWithin64(x: bv64, k: nat): (n: nat)
    ensures n <= k
    decreases k
  {
    if k == 0 || x >> 63 == 1 then 0 else 1 + LeadingZerosWithin64(x << 1, k - 1)
  }

  /** `u64::leading_zeros`. */
  function LeadingZeros64(x: bv64): nat
  {
    LeadingZerosWithin64(x, 64)
  }

  lemma {:induction false} ShiftLeft64Add(x: bv64, a: nat, b: nat)
    ensures ShiftLeft64(x, a + b) == ShiftLeft64(ShiftLeft64(x, a), b)
    decreases a
  {
    if a != 0 {
      ShiftLeft64Add(x << 1, a - 1, b);
    }
  }

  lemma {:induction false} ShiftRight64Add(x: bv64, a: nat, b: nat)
    ensures ShiftRight64(x, a + b) == ShiftRight64(ShiftRight64(x, a), b)
    decreases a
  {
    if a != 0 {
      ShiftRight64Add(x >> 1, a - 1, b);
    }
  }

  /** Shifting one more place is one more one-place shift at the end. */
  lemma ShiftLeft64Last(x: bv64, n: nat)
    ensures ShiftLeft64(x, n + 1) == ShiftLeft64(x, n) << 1
  {
    ShiftLeft64Add(x, n, 1);
  }

  /** Complementing a left shift by one more place sets one more low bit. */
  lemma ComplementShiftLeft64Next(c: bv64, i: nat, j: nat)
    requires j == i + 1
    ensures !ShiftLeft64(c, j) == (!ShiftLeft64(c, i) << 1) | 1
  {
    ShiftLeft64Last(c, i);
  }

  lemma ShiftRight64Last(x: bv64, n: nat)
    ensures ShiftRight64(x, n + 1) == ShiftRight64(x, n) >> 1
  {
    ShiftRight64Add(x, n, 1);
  }
  /** `ShiftRight64Last` with the longer amount named: `j == i + 1`. */
  lemma ShiftRight64Next(x: bv64, i: nat, j: nat)
    requires j == i + 1
    ensures ShiftRight64(x, j) == ShiftRight64(x, i) >> 1
  {
    ShiftRight64Last(x, i);
  }

  /** One step of the definition of `ShiftRight64`, as a fact a proof can cite. */
  lemma ShiftRight64Unfold(x: bv64, y: bv64, m: nat, n: nat)
    requires y == x >> 1 && n == m + 1
    ensures ShiftRight64(x, n) == ShiftRight64(y, m)
  {
  }

  /** One step of the definition of `ShiftLeft64`, as a fact a proof can cite. */
  lemma ShiftLeft64Unfold(x: bv64, y: bv64, m: nat, n: nat)
    requires y == x << 1 && n == m + 1
    ensures ShiftLeft64(x, n) == ShiftLeft64(y, m)
  {
  }


  lemma ShiftRight64By2(x: bv64, n: nat)
    requires n == 2
    ensures ShiftRight64(x, n) == x >> 2
  {
  }

  lemma ShiftRight64By3(x: bv64, n: nat)
    requires n == 3
    ensures ShiftRight64(x, n) == x >> 3
  {
  }

  lemma ShiftRight64By4(x: bv64, n: nat)
    requires n == 4
    ensures ShiftRight64(x, n) == x >> 4
  {
    ShiftRight64Add(x, 2, 2);
    ShiftRight64By2(x, 2);
    ShiftRight64By2(x >> 2, 2);
  }

  lemma ShiftRight64By7(x: bv64, n: nat)
    requires n == 7
    ensures ShiftRight64(x, n) == x >> 7
  {
    ShiftRight64Add(x, 4, 3);
    ShiftRight64By4(x, 4);
    ShiftRight64By3(x >> 4, 3);
  }

  lemma ShiftRight64By8(x: bv64, n: nat)
    requires n == 8
    ensures ShiftRight64(x, n) == x >> 8
  {
    ShiftRight64Add(x, 4, 4);
    ShiftRight64By4(x, 4);
    ShiftRight64By4(x >> 4, 4);
  }

  lemma ShiftRight64By16(x: bv64, n: nat)
    requires n == 16
    ensures ShiftRight64(x, n) == x >> 16
  {
    ShiftRight64Add(x, 8, 8);
    ShiftRight64By8(x, 8);
    ShiftRight64By8(x >> 8, 8);
  }

  lemma ShiftRight64By24(x: bv64, n: nat)
    requires n == 24
    ensures ShiftRight64(x, n) == x >> 24
  {
    ShiftRight64Add(x, 16, 8);
    ShiftRight64By16(x, 16);
    ShiftRight64By8(x >> 16, 8);
  }

  lemma ShiftRight64By32(x: bv64, n: nat)
    requires n == 32
    ensures ShiftRight64(x, n) == x >> 32
  {
    ShiftRight64Add(x, 24, 8);
    ShiftRight64By24(x, 24);
    ShiftRight64By8(x >> 24, 8);
  }

  lemma ShiftRight64By40(x: bv64, n: nat)
    requires n == 40
    ensures ShiftRight64(x, n) == x >> 40
  {
    ShiftRight64Add(x, 32, 8);
    ShiftRight64By32(x, 32);
    ShiftRight64By8(x >> 32, 8);
  }

  lemma ShiftRight64By48(x: bv64, n: nat)
    requires n == 48
    ensures ShiftRight64(x, n) == x >> 48
  {
    ShiftRight64Add(x, 40, 8);
    ShiftRight64By40(x, 40);
    ShiftRight64By8(x >> 40, 8);
  }

  lemma ShiftRight64By52(x: bv64, n: nat)
    requires n == 52
    ensures ShiftRight64(x, n) == x >> 52
  {
    ShiftRight64Add(x, 48, 4);
    ShiftRight64By48(x, 48);
    ShiftRight64By4(x >> 48, 4);
  }

  lemma ShiftRight64By53(x: bv64, n: nat)
    requires n == 53
    ensures ShiftRight64(x, n) == x >> 53
  {
    ShiftRight64Add(x, 52, 1);
    ShiftRight64By52(x, 52);
  }

  lemma ShiftRight64By54(x: bv64, n: nat)
    requires n == 54
    ensures ShiftRight64(x, n) == x >> 54
  {
    ShiftRight64Add(x, 52, 2);
    ShiftRight64By52(x, 52);
    ShiftRight64By2(x >> 52, 2);
  }

  lemma ShiftRight64By55(x: bv64, n: nat)
    requires n == 55
    ensures ShiftRight64(x, n) == x >> 55
  {
    ShiftRight64Add(x, 52, 3);
    ShiftRight64By52(x, 52);
    ShiftRight64By3(x >> 52, 3);
  }

  lemma ShiftRight64By56(x: bv64, n: nat)
    requires n == 56
    ensures ShiftRight64(x, n) == x >> 56
  {
    ShiftRight64Add(x, 48, 8);
    ShiftRight64By48(x, 48);
    ShiftRight64By8(x >> 48, 8);
  }

  lemma ShiftRight64By63(x: bv64, n: nat)
    requires n == 63
    ensures ShiftRight64(x, n) == x >> 63
  {
    ShiftRight64Add(x, 56, 7);
    ShiftRight64By56(x, 56);
    ShiftRight64By7(x >> 56, 7);
  }

  lemma ShiftRight64By31(x: bv64, n: nat)
    requires n == 31
    ensures ShiftRight64(x, n) == x >> 31
  {
    ShiftRight64Add(x, 24, 7);
    ShiftRight64By24(x, 24);
    ShiftRight64By7(x >> 24, 7);
  }

  /** Shifting right by the whole width leaves nothing. */
  lemma ShiftRight64ByWidth(x: bv64, n: nat)
    requires n == 64
    ensures ShiftRight64(x, n) == 0
  {
    ShiftRight64Add(x, 56, 8);
    ShiftRight64By56(x, 56);
    ShiftRight64By8(x >> 56, 8);
  }

  lemma ShiftLeft64By4(x: bv64, n: nat)
    requires n == 4
    ensures ShiftLeft64(x, n) == x << 4
  {
    ShiftLeft64Add(x, 2, 2);
  }

  lemma ShiftLeft64By8(x: bv64, n: nat)
    requires n == 8
    ensures ShiftLeft64(x, n) == x << 8
  {
    ShiftLeft64Add(x, 4, 4);
    ShiftLeft64By4(x, 4);
    ShiftLeft64By4(x << 4, 4);
  }

  lemma ShiftLeft64By1(x: bv64, n: nat)
    requires n == 1
    ensures ShiftLeft64(x, n) == x << 1
  {
  }

  lemma ShiftLeft64By2(x: bv64, n: nat)
    requires n == 2
    ensures ShiftLeft64(x, n) == x << 2
  {
  }

  lemma ShiftLeft64By3(x: bv64, n: nat)
    requires n == 3
    ensures ShiftLeft64(x, n) == x << 3
  {
    ShiftLeft64Add(x, 2, 1);
  }

  lemma ShiftLeft64By7(x: bv64, n: nat)
    requires n == 7
    ensures ShiftLeft64(x, n) == x << 7
  {
    ShiftLeft64Add(x, 4, 3);
    ShiftLeft64By4(x, 4);
    ShiftLeft64By3(x << 4, 3);
  }

  lemma ShiftLeft64By15(x: bv64, n: nat)
    requires n == 15
    ensures ShiftLeft64(x, n) == x << 15
  {
    ShiftLeft64Add(x, 8, 7);
    ShiftLeft64By8(x, 8);
    ShiftLeft64By7(x << 8, 7);
  }

  lemma ShiftLeft64By16(x: bv64, n: nat)
    requires n == 16
    ensures ShiftLeft64(x, n) == x << 16
  {
    ShiftLeft64Add(x, 8, 8);
    ShiftLeft64By8(x, 8);
    ShiftLeft64By8(x << 8, 8);
  }

  lemma ShiftLeft64By14(x: bv64, n: nat)
    requires n == 14
    ensures ShiftLeft64(x, n) == x << 14
  {
    ShiftLeft64Add(x, 7, 7);
    ShiftLeft64By7(x, 7);
    ShiftLeft64By7(x << 7, 7);
  }

  lemma ShiftLeft64By29(x: bv64, n: nat)
    requires n == 29
    ensures ShiftLeft64(x, n) == x << 29
  {
    ShiftLeft64Add(x, 15, 14);
    ShiftLeft64By15(x, 15);
    ShiftLeft64By14(x << 15, 14);
  }

  lemma ShiftLeft64By31(x: bv64, n: nat)
    requires n == 31
    ensures ShiftLeft64(x, n) == x << 31
  {
    ShiftLeft64Add(x, 16, 15);
    ShiftLeft64By16(x, 16);
    ShiftLeft64By15(x << 16, 15);
  }

  /** A right shift keeps a clear top bit clear. */
  lemma {:induction false} ShiftRight64TopClear(x: bv64, n: nat)
    requires x >> 63 == 0
    ensures ShiftRight64(x, n) >> 63 == 0
    decreases n
  {
    if n != 0 {
      ShiftRight64TopClear(x >> 1, n - 1);
    }
  }

  /** A right shift never makes a word larger. */
  lemma {:induction false} ShiftRight64Le(x: bv64, n: nat)
    ensures ShiftRight64(x, n) <= x
    decreases n
  {
    if n != 0 {
      ShiftRight64Le(x >> 1, n - 1);
    }
  }

  /**
   * Each leading zero that is shifted out leaves one fewer: after `m`
   * shifts (with `m` no more than the count) the count has dropped by `m`.
   */
  lemma {:induction false} LeadingZerosShift64(x: bv64, k: nat, m: nat)
    requires m <= LeadingZerosWithin64(x, k)
    ensures LeadingZerosWithin64(ShiftLeft64(x, m), k - m) == LeadingZerosWithin64(x, k) - m
    decreases m
  {
    if m != 0 {
      LeadingZerosShift64(x << 1, k - 1, m - 1);
    }
  }

  /** Shifting out all the leading zeros brings a one to the top. */
  lemma {:induction false} LeadingZerosTop64(x: bv64, k: nat)
    requires LeadingZerosWithin64(x, k) < k
    ensures ShiftLeft64(x, LeadingZerosWithin64(x, k)) >> 63 == 1
    decreases k
  {
    if x >> 63 == 0 {
      LeadingZerosTop64(x << 1, k - 1);
    }
  }

  /** Inspecting more bits does not change a count that stopped at a one bit. */
  lemma {:induction false} LeadingZerosWithinMore64(x: bv64, k: nat, m: nat)
    requires LeadingZerosWithin64(x, k) < k <= m
    ensures LeadingZerosWithin64(x, m) == LeadingZerosWithin64(x, k)
    decreases k
  {
    if x >> 63 == 0 {
      LeadingZerosWithinMore64(x << 1, k - 1, m - 1);
    }
  }

  /** The leading zeros counted really are zero bits at the top of `x`. */
  lemma {:induction false} LeadingZerosAreZero64(x: bv64, k: nat, j: nat)
    requires j <= LeadingZerosWithin64(x, k) && k <= 64
    ensures ShiftRight64(x, 64 - j) == 0
    decreases j
  {
    if j == 0 {
      ShiftRight64ByWidth(x, 64);
    } else {
      LeadingZerosAreZero64(x << 1, k - 1, j - 1);
      assert (x << 1) >> 1 == x;
    }
  }

  /** Conversely, zero bits at the top are counted. */
  lemma {:induction false} ZerosAreLeadingZeros64(x: bv64, k: nat, j: nat)
    requires j <= k <= 64 && ShiftRight64(x, 64 - j) == 0
    ensures j <= LeadingZerosWithin64(x, k)
    decreases j
  {
    if j != 0 {
      TopBitClear64(x, j);
      assert ShiftRight64(x << 1, 64 - (j - 1)) == 0 by {
        assert (x << 1) >> 1 == x;
      }
      ZerosAreLeadingZeros64(x << 1, k - 1, j - 1);
    }
  }

  /** If the top `j` bits are zero, with `j` positive, so is the top bit. */
  lemma TopBitClear64(x: bv64, j: nat)
    requires 1 <= j <= 64 && ShiftRight64(x, 64 - j) == 0
    ensures x >> 63 == 0
  {
    ShiftRight64Add(x, 64 - j, j - 1);
    ShiftRight64Zero(j - 1);
    ShiftRight64By63(x, 63);
  }

  lemma {:induction false} ShiftRight64Zero(n: nat)
    ensures ShiftRight64(0, n) == 0
    decreases n
  {
    if n != 0 {
      ShiftRight64Zero(n - 1);
    }
  }

  /** A word whose most significant one is bit `63 - j` has `j` leading zeros. */
  lemma LeadingZerosExact64(x: bv64, j: nat)
    requires j < 64 && ShiftRight64(x, 63 - j) == 1
    ensures LeadingZeros64(x) == j
  {
    var m, n := 63 - j, 64 - j;
    ShiftRight64Next(x, m, n);
    ZerosAreLeadingZeros64(x, 64, j);
    if LeadingZeros64(x) > j {
      LeadingZerosAreZero64(x, 64, j + 1);
      assert false;
    }
  }

  /** A 56-bit word shifted right by 56 places or more is zero. */
  lemma ShiftRight64Beyond(x: bv64, n: nat)
    requires x >> 56 == 0 && n >= 56
    ensures ShiftRight64(x, n) == 0
  {
    ShiftRight64Add(x, 56, n - 56);
    ShiftRight64By56(x, 56);
    ShiftRight64Zero(n - 56);
  }

  /**
   * Shifting left by `s` places loses nothing when the top `s` bits are
   * zero: shifting back right restores the word.
   */
  lemma {:induction false} ShiftLeftUndo64(x: bv64, s: nat)
    requires s <= 64 && ShiftRight64(x, 64 - s) == 0
    ensures ShiftRight64(ShiftLeft64(x, s), s) == x
    decreases s
  {
    if s != 0 {
      TopBitClear64(x, s);
      var y, h := x << 1, s - 1;
      ShiftLeftUndoZeros64(x, y, h, s);
      ShiftLeftUndo64(y, h);
      ShiftLeftUndoStep64(x, y, h, s);
    }
  }

  /** The top zeros of `x` less one are top zeros of `x << 1`. */
  lemma ShiftLeftUndoZeros64(x: bv64, y: bv64, h: nat, s: nat)
    requires y == x << 1 && x >> 63 == 0 && s == h + 1 && s <= 64
    requires ShiftRight64(x, 64 - s) == 0
    ensures ShiftRight64(y, 64 - h) == 0
  {
    var m, n := 64 - s, 64 - h;
    ShiftRight64Unfold(y, x, m, n);
  }


  /** The induction step of `ShiftLeftUndo64`. */
  lemma ShiftLeftUndoStep64(x: bv64, y: bv64, h: nat, s: nat)
    requires y == x << 1 && x >> 63 == 0 && s == h + 1
    requires ShiftRight64(ShiftLeft64(y, h), h) == y
    ensures ShiftRight64(ShiftLeft64(x, s), s) == x
  {
    ShiftLeft64Unfold(x, y, h, s);
    var z := ShiftLeft64(y, h);
    ShiftRight64Next(z, h, s);
    ShiftLeftRight64(x, y);
  }

  /** A word with a clear top bit survives a shift left and back. */
  lemma ShiftLeftRight64(x: bv64, y: bv64)
    requires y == x << 1 && x >> 63 == 0
    ensures y >> 1 == x
  {
  }



  /**
   * A non-zero 56-bit fraction shifted left by its leading zeros less 8 has
   * its most significant one in bit 55, the top of the 56-bit field.
   */
  lemma NormalisingShift64(x: bv64)
    requires x != 0 && x >> 56 == 0
    ensures 8 <= LeadingZeros64(x) < 64
    ensures ShiftLeft64(x, LeadingZeros64(x) - 8) >> 55 == 1
  {
    var lz := LeadingZeros64(x);
    if lz == 64 {
      LeadingZerosAreZero64(x, 64, 64);
      assert false;
    }
    ShiftRight64By56(x, 56);
    ZerosAreLeadingZeros64(x, 64, 8);
    var s := lz - 8;
    var y := ShiftLeft64(x, s);
    LeadingZerosShift64(x, 64, s);
    LeadingZerosTop64(y, 64 - s);
    ShiftLeft64By8(y, 8);
    LeadingZerosAreZero64(y, 64 - s, 8);
    ShiftRight64By56(y, 56);
  }
}

/*
 * The `F32` and `F64` newtypes of `src/lib.rs`: an IBM single or double
 * held as its raw bits, taken from and given back as a machine word or as
 * big-endian bytes, and converted to IEEE 754 by one call into `Convert`.
 * The native `f32`/`f64` results are kept as their bit patterns.
 */
module Floats {
  import opened Ieee
  import Bits
  import Convert

  /** A byte, as Rust's `u8`. */
  type Byte = bv8

  /** A 32-bit IBM floating point number: `struct F32(u32)`. */
  datatype F32 = F32(bits: bv32)
  {
    /** `from_bits`: reading the bits back gives the word. */
    static function FromBits(value: bv32): (f: F32)
      ensures f.ToBits() == value
    {
      F32(value)
    }

    /** `to_bits`. */
    function ToBits(): bv32
    {
      bits
    }

    /** `from_be_bytes`: byte 0 is the most significant; the bytes written back are the bytes read. */
    static function FromBeBytes(bytes: seq<Byte>): (f: F32)
      requires |bytes| == 4
      ensures f.ToBeBytes() == bytes
    {
      ByteLanes32(bytes[0], bytes[1], bytes[2], bytes[3]);
      assert bytes == [bytes[0], bytes[1], bytes[2], bytes[3]];
      F32(BigEndian32(bytes[0], bytes[1], bytes[2], bytes[3]))
    }

    /** `to_be_bytes`: four bytes, most significant first. */
    function ToBeBytes(): (r: seq<Byte>)
      ensures |r| == 4
      ensures r[0] as bv32 == bits >> 24 && r[3] as bv32 == bits & 0xff
      ensures BigEndian32(r[0], r[1], r[2], r[3]) == bits
    {
      [(bits >> 24) as Byte, ((bits >> 16) & 0xff) as Byte, ((bits >> 8) & 0xff) as Byte, (bits & 0xff) as Byte]
    }

    /**
     * `From<F32> for f32`: the bits of `ibm32ieee32`, which is never a NaN
     * and keeps the sign bit.
     */
    function ToIeee32(): (r: bv32)
      ensures r == Convert.Ibm32Ieee32(bits)
      ensures !IsNan32(r) && Sign32(r) == bits >> 31
    {
      Convert.Ibm32Ieee32NotNan(bits);
      Convert.Ibm32Ieee32Magnitude(bits);
      Convert.Ibm32Ieee32(bits)
    }

    /**
     * `From<F32> for f64`: the bits of `ibm32ieee64`, which keeps the sign
     * and is never an infinity or a NaN.
     */
    function ToIeee64(): (r: bv64)
      ensures r == Convert.Ibm32Ieee64(bits)
      ensures Sign64(r) == (bits >> 31) as bv64 && Exponent64(r) != 0x7ff
    {
      if bits & 0x00ff_ffff == 0 then
        Convert.Ibm32Ieee64Zero(bits);
        Convert.Ibm32Ieee64(bits)
      else
        Convert.Ibm32Ieee64Exact(bits);
        Convert.Ibm32Ieee64(bits)
    }

    /** `from_bits` after `to_bits` gives the same value back. */
    lemma BitsRoundTrip()
      ensures FromBits(ToBits()) == this
    {
    }

    /** `from_be_bytes` after `to_be_bytes` gives the same value back. */
    lemma BeBytesRoundTrip()
      ensures FromBeBytes(ToBeBytes()) == this
    {
    }
  }

  /** A 64-bit IBM floating point number: `struct F64(u64)`. */
  datatype F64 = F64(bits: bv64)
  {
    /** `from_bits`: reading the bits back gives the word. */
    static function FromBits(value: bv64): (f: F64)
      ensures f.ToBits() == value
    {
      F64(value)
    }

    /** `to_bits`. */
    function ToBits(): bv64
    {
      bits
    }

    /** `from_be_bytes`: byte 0 is the most significant; the bytes written back are the bytes read. */
    static function FromBeBytes(bytes: seq<Byte>): (f: F64)
      requires |bytes| == 8
      ensures f.ToBeBytes() == bytes
    {
      ByteLanes64(bytes[0], bytes[1], bytes[2], bytes[3], bytes[4], bytes[5], bytes[6], bytes[7]);
      assert bytes == [bytes[0], bytes[1], bytes[2], bytes[3], bytes[4], bytes[5], bytes[6], bytes[7]];
      F64(BigEndian64(bytes[0], bytes[1], bytes[2], bytes[3], bytes[4], bytes[5], bytes[6], bytes[7]))
    }

    /** `to_be_bytes`: eight bytes, most significant first. */
    function ToBeBytes(): (r: seq<Byte>)
      ensures |r| == 8
      ensures r[0] as bv64 == bits >> 56 && r[7] as bv64 == bits & 0xff
      ensures BigEndian64(r[0], r[1], r[2], r[3], r[4], r[5], r[6], r[7]) == bits
    {
      [(bits >> 56) as Byte, ((bits >> 48) & 0xff) as Byte, ((bits >> 40) & 0xff) as Byte, ((bits >> 32) & 0xff) as Byte,
       ((bits >> 24) & 0xff) as Byte, ((bits >> 16) & 0xff) as Byte, ((bits >> 8) & 0xff) as Byte, (bits & 0xff) as Byte]
    }

    /**
     * `From<F64> for f32`: the bits of `ibm64ieee32`, which is never a NaN
     * and keeps the sign bit.
     */
    function ToIeee32(): (r: bv32)
      ensures r == Convert.Ibm64Ieee32(bits)
      ensures !IsNan32(r) && Sign32(r) as bv64 == bits >> 63
    {
      Convert.Ibm64Ieee32NotNan(bits);
      Convert.Ibm64Ieee32Magnitude(bits);
      Convert.Ibm64Ieee32(bits)
    }

    /**
     * `From<F64> for f64`: the bits of `ibm64ieee64`, which keeps the sign
     * and is never an infinity or a NaN.
     */
    function ToIeee64(): (r: bv64)
      ensures r == Convert.Ibm64Ieee64(bits)
      ensures Sign64(r) == bits >> 63 && Exponent64(r) != 0x7ff
    {
      if bits & 0x00ff_ffff_ffff_ffff == 0 then
        Convert.Ibm64Ieee64Zero(bits);
        Convert.Ibm64Ieee64(bits)
      else
        Convert.Ibm64Ieee64Normal(bits);
        Convert.Ibm64Ieee64(bits)
    }

    /** `from_bits` after `to_bits` gives the same value back. */
    lemma BitsRoundTrip()
      ensures FromBits(ToBits()) == this
    {
    }

    /** `from_be_bytes` after `to_be_bytes` gives the same value back. */
    lemma BeBytesRoundTrip()
      ensures FromBeBytes(ToBeBytes()) == this
    {
    }
  }

  /** `u32::from_be_bytes`: four bytes packed into a word, the first the most significant. */
  function BigEndian32(b0: Byte, b1: Byte, b2: Byte, b3: Byte): bv32
  {
    ((b0 as bv32) << 24) | ((b1 as bv32) << 16) | ((b2 as bv32) << 8) | b3 as bv32
  }

  /** The bytes of a word packed from four bytes are those bytes, in the same order. */
  lemma ByteLanes32(b0: Byte, b1: Byte, b2: Byte, b3: Byte)
    ensures F32(BigEndian32(b0, b1, b2, b3)).ToBeBytes() == [b0, b1, b2, b3]
  {
  }

  /** `u64::from_be_bytes`: eight bytes packed into a word, the first the most significant. */
  function BigEndian64(b0: Byte, b1: Byte, b2: Byte, b3: Byte, b4: Byte, b5: Byte, b6: Byte, b7: Byte): bv64
  {
    ((b0 as bv64) << 56) | ((b1 as bv64) << 48) | ((b2 as bv64) << 40) | ((b3 as bv64) << 32)
    | ((b4 as bv64) << 24) | ((b5 as bv64) << 16) | ((b6 as bv64) << 8) | b7 as bv64
  }

  /** The bytes of a word packed from eight bytes are those bytes, in the same order. */
  lemma ByteLanes64(b0: Byte, b1: Byte, b2: Byte, b3: Byte, b4: Byte, b5: Byte, b6: Byte, b7: Byte)
    ensures F64(BigEndian64(b0, b1, b2, b3, b4, b5, b6, b7)).ToBeBytes() == [b0, b1, b2, b3, b4, b5, b6, b7]
  {
  }

  // ---------------------------------------------------------------------
  // The documented examples
  // ---------------------------------------------------------------------

  /** The bytes [0x46, 0, 0, 1] are the word 0x46000001, and back. */
  lemma BeBytesExample32()
    ensures F32.FromBeBytes([0x46, 0, 0, 1]).ToBits() == 0x4600_0001
    ensures F32.FromBits(0x4600_0001).ToBeBytes() == [0x46, 0, 0, 1]
  {
  }

  /** The bytes [0x41, 0x10, 0, 0, 0, 0, 0, 0] are the word 0x4110000000000000, and back. */
  lemma BeBytesExample64()
    ensures F64.FromBeBytes([0x41, 0x10, 0, 0, 0, 0, 0, 0]).ToBits() == 0x4110_0000_0000_0000
    ensures F64.FromBits(0x4110_0000_0000_0000).ToBeBytes() == [0x41, 0x10, 0, 0, 0, 0, 0, 0]
  {
  }

  /** The worked example -118.625, IBM 0xC276A000, is the binary32 word 0xC2ED4000. */
  lemma NegativeExample()
    ensures F32.FromBits(0xc276_a000).ToIeee32() == 0xc2ed_4000
  {
    var ibm: bv32 := 0xc276_a000;
    var p := Convert.Split32(ibm);
    assert p == Convert.Parts32(0x8000_0000, 0x42, 0x76_a000);
    Bits.ShiftRight32By22(0x76_a000, 22);
    Bits.LeadingZerosExact32(0x76_a000, 9);
    Bits.ShiftLeft32By1(0x76_a000, 1);
    var n := Convert.Normalise32(0x42, 0x76_a000);
    assert n == Convert.Normalised32(263, 0xed_4000);
    Convert.Ibm32Ieee32Unfold(ibm, p, n, 132);
  }

  /** 0x46000001, 1.0 with five leading zero hexadecimal digits, is 1.0 in binary32 and binary64. */
  lemma OneExample()
    ensures F32.FromBits(0x4600_0001).ToIeee32() == 0x3f80_0000
    ensures F32.FromBits(0x4600_0001).ToIeee64() == 0x3ff0_0000_0000_0000
  {
    var ibm: bv32 := 0x4600_0001;
    var p := Convert.Split32(ibm);
    assert p == Convert.Parts32(0, 0x46, 1);
    Bits.LeadingZerosExact32(1, 31);
    Bits.ShiftLeft32By23(1, 23);
    var n := Convert.Normalise32(0x46, 1);
    assert n == Convert.Normalised32(257, 0x80_0000);
    Convert.Ibm32Ieee32Unfold(ibm, p, n, 126);
    Convert.Ibm32Ieee64Unfold(ibm, p, 0, n, 1022);
    Convert.OneTail32();
  }

  /** 1.0 written normalised, 0x41100000, is 1.0 in binary32. */
  lemma NormalisedOneExample()
    ensures F32.FromBits(0x4110_0000).ToIeee32() == 0x3f80_0000
  {
    var ibm: bv32 := 0x4110_0000;
    var p := Convert.Split32(ibm);
    assert p == Convert.Parts32(0, 0x41, 0x10_0000);
    Bits.ShiftRight32By20(0x10_0000, 20);
    Bits.LeadingZerosExact32(0x10_0000, 11);
    Bits.ShiftLeft32By3(0x10_0000, 3);
    var n := Convert.Normalise32(0x41, 0x10_0000);
    assert n == Convert.Normalised32(257, 0x80_0000);
    Convert.Ibm32Ieee32Unfold(ibm, p, n, 126);
  }

  /**
   * Two encodings of 1.0, one with five leading zero hexadecimal digits and
   * one normalised, give the same IEEE bits in both widths.
   */
  lemma ReencodingExample()
    ensures F32.FromBits(0x4600_0001).ToIeee32() == F32.FromBits(0x4110_0000).ToIeee32()
    ensures F32.FromBits(0x4600_0001).ToIeee64() == F32.FromBits(0x4110_0000).ToIeee64()
  {
    OneExample();
    NormalisedOneExample();
    Convert.Ibm32Ieee64One();
  }

  /** IBM double 0x4110000000000000 is the binary64 1.0. */
  lemma DoubleOneExample()
    ensures F64.FromBits(0x4110_0000_0000_0000).ToIeee64() == 0x3ff0_0000_0000_0000
  {
    Convert.Ibm64Ieee64One();
  }
}

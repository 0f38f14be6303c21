/*
 * SAS floating point numbers (`src/sas/mod.rs`): IBM doubles whose
 * "missing value" encodings, a byte `.`, `_` or `A`..`Z` in the top byte
 * after the sign, are converted to IEEE 754 NaNs carrying the complement
 * of that byte instead of being converted as numbers.
 */
module Sas {
  import opened Ieee
  import Convert
  import Floats

  type Byte = Floats.Byte

  datatype Option<T> = None | Some(value: T)

  datatype Result<T> = Ok(value: T) | Err(error: string)
  {
    /** `Result::ok`: the success value, if any. */
    function ToOption(): (o: Option<T>)
      ensures o.Some? <==> Ok?
      ensures o.Some? ==> o.value == value
    {
      match this
      case Ok(v) => Some(v)
      case Err(_) => None
    }
  }

  /** The 28 flavours of missing value; each stands for its ASCII byte. */
  datatype MissingValue =
    | Period | Underscore
    | A | B | C | D | E | F | G | H | I | J | K | L | M
    | N | O | P | Q | R | S | T | U | V | W | X | Y | Z
  {
    /** `code`: the ASCII byte of the flavour: `.`, `_` or its capital letter. */
    function Code(): (c: Byte)
      ensures IsMissingCode(c)
    {
      match this
      case Period => 0x2e
      case Underscore => 0x5f
      case A => 0x41
      case B => 0x42
      case C => 0x43
      case D => 0x44
      case E => 0x45
      case F => 0x46
      case G => 0x47
      case H => 0x48
      case I => 0x49
      case J => 0x4a
      case K => 0x4b
      case L => 0x4c
      case M => 0x4d
      case N => 0x4e
      case O => 0x4f
      case P => 0x50
      case Q => 0x51
      case R => 0x52
      case S => 0x53
      case T => 0x54
      case U => 0x55
      case V => 0x56
      case W => 0x57
      case X => 0x58
      case Y => 0x59
      case Z => 0x5a
    }
  }

  /** The bytes that name a missing value: a period, an underscore or a capital ASCII letter. */
  predicate IsMissingCode(b: Byte)
  {
    b == 0x2e || b == 0x5f || 0x41 <= b <= 0x5a
  }

  /** `Default for MissingValue`. */
  function DefaultMissingValue(): (m: MissingValue)
    ensures m.Code() == 0x2e
  {
    Period
  }

  /**
   * `TryFrom<u8> for MissingValue`: succeeds exactly on the bytes that name
   * a missing value, with the flavour whose code is that byte.
   */
  function TryFrom(value: Byte): Result<MissingValue>
  {
    match value
    case 0x2e => Ok(Period)
    case 0x5f => Ok(Underscore)
    case 0x41 => Ok(A)
    case 0x42 => Ok(B)
    case 0x43 => Ok(C)
    case 0x44 => Ok(D)
    case 0x45 => Ok(E)
    case 0x46 => Ok(F)
    case 0x47 => Ok(G)
    case 0x48 => Ok(H)
    case 0x49 => Ok(I)
    case 0x4a => Ok(J)
    case 0x4b => Ok(K)
    case 0x4c => Ok(L)
    case 0x4d => Ok(M)
    case 0x4e => Ok(N)
    case 0x4f => Ok(O)
    case 0x50 => Ok(P)
    case 0x51 => Ok(Q)
    case 0x52 => Ok(R)
    case 0x53 => Ok(S)
    case 0x54 => Ok(T)
    case 0x55 => Ok(U)
    case 0x56 => Ok(V)
    case 0x57 => Ok(W)
    case 0x58 => Ok(X)
    case 0x59 => Ok(Y)
    case 0x5a => Ok(Z)
    case _ => Err("Not a missing value")
  }

  /**
   * `try_from` succeeds exactly on the bytes that name a missing value,
   * with the flavour whose code is that byte.
   */
  lemma TryFromDecodes(value: Byte)
    ensures TryFrom(value).Ok? <==> IsMissingCode(value)
    ensures TryFrom(value).Ok? ==> TryFrom(value).value.Code() == value
  {
    if IsMissingCode(value) {
      CodeOnto(value);
      var m: MissingValue :| m.Code() == value;
      TryFromCode(m);
    } else {
      TryFromRejects(value);
    }
  }

  /** Every byte that names a missing value is the code of some flavour. */
  lemma CodeOnto(value: Byte)
    requires IsMissingCode(value)
    ensures exists m: MissingValue :: m.Code() == value
  {
    if value == 0x2e {
      assert Period.Code() == value;
    } else if value == 0x5f {
      assert Underscore.Code() == value;
    } else if value <= 0x47 {
      LettersAToGOnto(value);
    } else if value <= 0x4d {
      LettersHToMOnto(value);
    } else if value <= 0x54 {
      LettersNToTOnto(value);
    } else {
      LettersUToZOnto(value);
    }
  }

  /** The letters `A` to `G` are codes. */
  lemma LettersAToGOnto(value: Byte)
    requires 0x41 <= value <= 0x47
    ensures exists m: MissingValue :: m.Code() == value
  {
    match value
    case 0x41 => assert A.Code() == value;
    case 0x42 => assert B.Code() == value;
    case 0x43 => assert C.Code() == value;
    case 0x44 => assert D.Code() == value;
    case 0x45 => assert E.Code() == value;
    case 0x46 => assert F.Code() == value;
    case 0x47 => assert G.Code() == value;
    case _ => assert false;
  }

  /** The letters `H` to `M` are codes. */
  lemma LettersHToMOnto(value: Byte)
    requires 0x48 <= value <= 0x4d
    ensures exists m: MissingValue :: m.Code() == value
  {
    match value
    case 0x48 => assert H.Code() == value;
    case 0x49 => assert I.Code() == value;
    case 0x4a => assert J.Code() == value;
    case 0x4b => assert K.Code() == value;
    case 0x4c => assert L.Code() == value;
    case 0x4d => assert M.Code() == value;
    case _ => assert false;
  }

  /** The letters `N` to `T` are codes. */
  lemma LettersNToTOnto(value: Byte)
    requires 0x4e <= value <= 0x54
    ensures exists m: MissingValue :: m.Code() == value
  {
    match value
    case 0x4e => assert N.Code() == value;
    case 0x4f => assert O.Code() == value;
    case 0x50 => assert P.Code() == value;
    case 0x51 => assert Q.Code() == value;
    case 0x52 => assert R.Code() == value;
    case 0x53 => assert S.Code() == value;
    case 0x54 => assert T.Code() == value;
    case _ => assert false;
  }

  /** The letters `U` to `Z` are codes. */
  lemma LettersUToZOnto(value: Byte)
    requires 0x55 <= value <= 0x5a
    ensures exists m: MissingValue :: m.Code() == value
  {
    match value
    case 0x55 => assert U.Code() == value;
    case 0x56 => assert V.Code() == value;
    case 0x57 => assert W.Code() == value;
    case 0x58 => assert X.Code() == value;
    case 0x59 => assert Y.Code() == value;
    case 0x5a => assert Z.Code() == value;
    case _ => assert false;
  }

  /** Every other byte is refused. */
  lemma TryFromRejects(value: Byte)
    requires !IsMissingCode(value)
    ensures TryFrom(value).Err?
  {
  }

  /** Decoding a flavour's code gives the flavour back. */
  lemma TryFromCode(m: MissingValue)
    ensures TryFrom(m.Code()) == Ok(m)
  {
    match m
    case Period => assert TryFrom(0x2e) == Ok(Period);
    case Underscore => assert TryFrom(0x5f) == Ok(Underscore);
    case A => assert TryFrom(0x41) == Ok(A);
    case B => assert TryFrom(0x42) == Ok(B);
    case C => assert TryFrom(0x43) == Ok(C);
    case D => assert TryFrom(0x44) == Ok(D);
    case E => assert TryFrom(0x45) == Ok(E);
    case F => assert TryFrom(0x46) == Ok(F);
    case G => assert TryFrom(0x47) == Ok(G);
    case H => assert TryFrom(0x48) == Ok(H);
    case I => assert TryFrom(0x49) == Ok(I);
    case J => assert TryFrom(0x4a) == Ok(J);
    case K => assert TryFrom(0x4b) == Ok(K);
    case L => assert TryFrom(0x4c) == Ok(L);
    case M => assert TryFrom(0x4d) == Ok(M);
    case N => assert TryFrom(0x4e) == Ok(N);
    case O => assert TryFrom(0x4f) == Ok(O);
    case P => assert TryFrom(0x50) == Ok(P);
    case Q => assert TryFrom(0x51) == Ok(Q);
    case R => assert TryFrom(0x52) == Ok(R);
    case S => assert TryFrom(0x53) == Ok(S);
    case T => assert TryFrom(0x54) == Ok(T);
    case U => assert TryFrom(0x55) == Ok(U);
    case V => assert TryFrom(0x56) == Ok(V);
    case W => assert TryFrom(0x57) == Ok(W);
    case X => assert TryFrom(0x58) == Ok(X);
    case Y => assert TryFrom(0x59) == Ok(Y);
    case Z => assert TryFrom(0x5a) == Ok(Z);
  }

  /** Different flavours have different codes. */
  lemma CodeInjective(m1: MissingValue, m2: MissingValue)
    requires m1.Code() == m2.Code()
    ensures m1 == m2
  {
    TryFromCode(m1);
    TryFromCode(m2);
  }

  /** A 64-bit SAS floating point number: an IBM double. */
  datatype F64 = F64(inner: Floats.F64)
  {
    /** `from_be_bytes`. */
    static function FromBeBytes(bytes: seq<Byte>): (f: F64)
      requires |bytes| == 8
      ensures f.inner.ToBeBytes() == bytes
    {
      F64(Floats.F64.FromBeBytes(bytes))
    }

    /** `to_bits`. */
    function ToBits(): bv64
    {
      inner.bits
    }

    /**
     * `missing_value`: the flavour named by the seven bits after the sign,
     * which are the IBM exponent field, if they name one.
     */
    function Missing(): (r: Option<MissingValue>)
      ensures r.Some? <==> IsMissingCode(Convert.Split64(inner.bits).exponent as Byte)
      ensures r.Some? ==> r.value.Code() as bv64 == Convert.Split64(inner.bits).exponent
    {
      var high := ((inner.bits >> 56) & 0x7f) as Byte;
      ExponentByte(inner.bits);
      TryFromDecodes(high);
      TryFrom(high).ToOption()
    }

    /** `is_missing_value`. */
    predicate IsMissingValue()
    {
      Missing().Some?
    }

    /** `is_nan`: the IBM value converts to a NaN, or it is a missing value. */
    predicate IsNan()
    {
      IsNan64(inner.ToIeee64()) || IsMissingValue()
    }

    /**
     * `From<F64> for f64`: a missing value becomes the quiet NaN
     * 0xFFFF000000000000 with the complement of its code in bits 40..47;
     * any other value converts as an IBM double.
     */
    function ToIeee64(): (r: bv64)
      ensures Missing().Some? ==> IsNan64(r) && Sign64(r) == 1
      ensures Missing().Some? ==> ((r >> 40) & 0xff) as Byte == !Missing().value.Code()
      ensures Missing().Some? ==> r & 0xffff_00ff_ffff_ffff == 0xffff_0000_0000_0000
      ensures Missing().None? ==> r == Convert.Ibm64Ieee64(inner.bits)
    {
      match Missing()
      case Some(which) =>
        var code := (!which.Code()) as bv64;
        0xffff_0000_0000_0000 | (code << 40)
      case None => inner.ToIeee64()
    }
  }

  /** The seven bits after the sign, read as a byte, are the IBM exponent field. */
  lemma ExponentByte(bits: bv64)
    ensures ((bits >> 56) & 0x7f) as bv64 == Convert.Split64(bits).exponent
    ensures Convert.Split64(bits).exponent as Byte == ((bits >> 56) & 0x7f) as Byte
  {
  }

  /** `missing_value` reads only the exponent field: the sign and the fraction never matter. */
  lemma MissingIgnoresSignAndFraction(f: F64)
    ensures f.Missing() == F64(Floats.F64(f.inner.bits & 0x7f00_0000_0000_0000)).Missing()
  {
  }

  /**
   * `is_missing_value` holds exactly when the seven bits after the sign
   * spell a period, an underscore or a capital letter, whatever the sign
   * and the fraction.
   */
  lemma IsMissingValueIffCode(f: F64)
    ensures f.IsMissingValue() <==> IsMissingCode(((f.inner.bits >> 56) & 0x7f) as Byte)
  {
    ExponentByte(f.inner.bits);
  }

  /**
   * An IBM double never converts to a NaN, so `is_nan` holds exactly for
   * the missing values, and their conversions are NaNs.
   */
  lemma IsNanIffMissing(f: F64)
    ensures f.IsNan() <==> f.IsMissingValue()
    ensures f.IsNan() <==> IsNan64(f.ToIeee64())
  {
    Convert.Ibm64Ieee64NotNan(f.inner.bits);
  }

  /**
   * The bytes [0x2E, 0, 0, 0, 0, 0, 0, 0]: the word 0x2E00000000000000,
   * the period missing value, a NaN although its fraction is zero.
   */
  lemma PeriodExample()
    ensures F64.FromBeBytes([0x2e, 0, 0, 0, 0, 0, 0, 0]).ToBits() == 0x2e00_0000_0000_0000
    ensures F64.FromBeBytes([0x2e, 0, 0, 0, 0, 0, 0, 0]).Missing() == Some(Period)
    ensures F64.FromBeBytes([0x2e, 0, 0, 0, 0, 0, 0, 0]).IsNan()
    ensures IsNan64(F64.FromBeBytes([0x2e, 0, 0, 0, 0, 0, 0, 0]).ToIeee64())
    ensures Convert.Ibm64Ieee64(0x2e00_0000_0000_0000) == 0
  {
    Floats.ByteLanes64(0x2e, 0, 0, 0, 0, 0, 0, 0);
    Convert.Ibm64Ieee64Zero(0x2e00_0000_0000_0000);
  }
}

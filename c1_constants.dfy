/**
 * Which constants the RISC-V C1 LIR generator keeps as immediates
 * (src/hotspot/cpu/riscv/c1_LIRGenerator_riscv.cpp, `can_store_as_constant`
 * and the two `can_inline_as_constant` overloads).
 *
 * A constant is described by the type of the C1 value that carries it; float
 * and double constants are kept as their IEEE-754 bit patterns.
 */
module C1Constants {
  import opened Bits

  /** HotSpot's BasicType, restricted to the kinds the rules distinguish. */
  datatype BasicType = TInt | TLong | TFloat | TDouble | TObject | TAddress

  /** A 32- or 64-bit IEEE-754 bit pattern, read as an unsigned number. */
  type FloatBits = x: int | 0 <= x < 0x1_0000_0000
  type DoubleBits = x: int | 0 <= x < 0x1_0000_0000_0000_0000

  /** The type of a C1 value: a constant of one kind, or not a constant at all. */
  datatype ValueType =
    | IntConstant(i: Int32)
    | LongConstant(l: Int64)
    | FloatConstant(fbits: FloatBits)
    | DoubleConstant(dbits: DoubleBits)
    | ObjectConstant(isNull: bool)
    | NotAConstant(tag: BasicType)

  /** A LIR_Const: its BasicType and its value. */
  datatype LirConst =
    | ConstInt(i: Int32)
    | ConstLong(l: Int64)
    | ConstFloat(fbits: FloatBits)
    | ConstDouble(dbits: DoubleBits)
    | ConstObject(isNull: bool)

  /** The I-type immediate of the RISC-V base ISA: a signed 12-bit integer. */
  predicate IsSimm12(x: int)
  {
    -2048 <= x < 2048
  }

  /** `jint_cast`: the bit pattern of a float read as a 32-bit int. */
  function FloatBitsAsInt(b: FloatBits): (r: Int32)
    ensures r == 0 <==> b == 0
  {
    if b < TWO_31 then b else b - TWO_32
  }

  /** `jlong_cast`: the bit pattern of a double read as a 64-bit long. */
  function DoubleBitsAsLong(b: DoubleBits): (r: Int64)
    ensures r == 0 <==> b == 0
  {
    if b < TWO_63 then b else b - TWO_64
  }

  /**
   * An integer converted to float (or double) compares equal to 0.0 only
   * when it is 0: the conversion rounds to nearest and never yields zero for
   * a non-zero integer.
   */
  predicate IntegerEqualsZeroReal(i: int)
  {
    i == 0
  }

  /** IEEE-754 `f == 0.0f`: true for +0.0 and -0.0, the two patterns whose bits below the sign bit are all zero. */
  predicate FloatEqualsZero(b: FloatBits)
  {
    b % TWO_31 == 0
  }

  /** IEEE-754 `d == 0.0`. */
  predicate DoubleEqualsZero(b: DoubleBits)
  {
    b % TWO_63 == 0
  }

  /** The bit patterns of -0.0. */
  const FLOAT_NEGATIVE_ZERO: FloatBits := TWO_31
  const DOUBLE_NEGATIVE_ZERO: DoubleBits := TWO_63

  /**
   * `can_store_as_constant`: a store may take its value from the zero
   * register only for a zero int or long, the null object, or a float or
   * double whose bit pattern is all zero (so -0.0 is excluded).
   */
  function CanStoreAsConstant(v: ValueType): (r: bool)
    ensures r <==> v in {IntConstant(0), LongConstant(0), ObjectConstant(true),
                         FloatConstant(0), DoubleConstant(0)}
  {
    match v
    case IntConstant(i) => i == 0
    case LongConstant(l) => l == 0
    case ObjectConstant(isNull) => isNull
    case FloatConstant(b) => IntegerEqualsZeroReal(FloatBitsAsInt(b))
    case DoubleConstant(b) => IntegerEqualsZeroReal(DoubleBitsAsLong(b))
    case NotAConstant(_) => false
  }

  /**
   * `can_inline_as_constant(Value)`: an int or long is inlined when both it
   * and its negation are 12-bit immediates (the constant may end up in a
   * subtraction); the null object and a float or double equal to 0.0 are
   * inlined too.
   */
  function CanInlineAsConstant(v: ValueType): (r: bool)
    ensures v.IntConstant? ==> (r <==> -2047 <= v.i <= 2047)
    ensures v.LongConstant? ==> (r <==> -2047 <= v.l <= 2047)
    ensures v.ObjectConstant? ==> (r <==> v.isNull)
    ensures v.FloatConstant? ==> (r <==> v.fbits == 0 || v.fbits == FLOAT_NEGATIVE_ZERO)
    ensures v.DoubleConstant? ==> (r <==> v.dbits == 0 || v.dbits == DOUBLE_NEGATIVE_ZERO)
    ensures v.NotAConstant? ==> !r
  {
    match v
    case IntConstant(i) => IsSimm12(i) && IsSimm12(Wrap32(-(i as int)))
    case ObjectConstant(isNull) => isNull
    case LongConstant(l) => IsSimm12(l) && IsSimm12(Wrap64(-(l as int)))
    case FloatConstant(b) => FloatEqualsZero(b)
    case DoubleConstant(b) => DoubleEqualsZero(b)
    case NotAConstant(_) => false
  }

  /**
   * `can_inline_as_constant(LIR_Const*)`: an int or long constant, widened to
   * a 64-bit long, is inlined when it and its negation are 12-bit
   * immediates; constants of every other type are not.
   */
  function CanInlineConst(c: LirConst): (r: bool)
    ensures c.ConstInt? ==> (r <==> -2047 <= c.i <= 2047)
    ensures c.ConstLong? ==> (r <==> -2047 <= c.l <= 2047)
    ensures !c.ConstInt? && !c.ConstLong? ==> !r
  {
    var constant: Int64 :=
      match c
      case ConstInt(i) => i
      case ConstLong(l) => l
      case _ => 0;
    if c.ConstInt? || c.ConstLong? then IsSimm12(constant) && IsSimm12(Wrap64(-(constant as int)))
    else false
  }

  /** Both rules for ints and longs are symmetric: negating the constant (with wrap-around) does not change the answer. */
  lemma InlineInvariantUnderNegation(i: Int32, l: Int64)
    ensures CanInlineAsConstant(IntConstant(i)) == CanInlineAsConstant(IntConstant(Wrap32(-(i as int))))
    ensures CanInlineAsConstant(LongConstant(l)) == CanInlineAsConstant(LongConstant(Wrap64(-(l as int))))
    ensures CanInlineConst(ConstInt(i)) == CanInlineConst(ConstInt(Wrap32(-(i as int))))
    ensures CanInlineConst(ConstLong(l)) == CanInlineConst(ConstLong(Wrap64(-(l as int))))
  {
  }

  /** The two overloads agree on every int and long constant. */
  lemma InlineOverloadsAgree(i: Int32, l: Int64)
    ensures CanInlineAsConstant(IntConstant(i)) == CanInlineConst(ConstInt(i))
    ensures CanInlineAsConstant(LongConstant(l)) == CanInlineConst(ConstLong(l))
  {
  }

  /** Every constant that may be stored from the zero register may also be inlined. */
  lemma StorableIsInlinable(v: ValueType)
    ensures CanStoreAsConstant(v) ==> CanInlineAsConstant(v)
  {
  }

  /** -0.0 is the one constant the two rules treat differently: it is inlined (it equals 0.0) but never stored from the zero register. */
  lemma NegativeZeroInlinedNotStored()
    ensures CanInlineAsConstant(FloatConstant(FLOAT_NEGATIVE_ZERO)) && !CanStoreAsConstant(FloatConstant(FLOAT_NEGATIVE_ZERO))
    ensures CanInlineAsConstant(DoubleConstant(DOUBLE_NEGATIVE_ZERO)) && !CanStoreAsConstant(DoubleConstant(DOUBLE_NEGATIVE_ZERO))
    ensures forall v :: CanInlineAsConstant(v) && !CanStoreAsConstant(v) ==>
              v == FloatConstant(FLOAT_NEGATIVE_ZERO) || v == DoubleConstant(DOUBLE_NEGATIVE_ZERO) ||
              (v.IntConstant? && v.i != 0) || (v.LongConstant? && v.l != 0)
  {
  }
}

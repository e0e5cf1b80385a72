/**
 * The slice of C1's LIR that the RISC-V LIR generator's rules emit, with a
 * small interpreter that gives the emitted code a meaning: virtual registers
 * hold integers, an operation writes its result narrowed to the width of its
 * destination (32 bits for an int register, 64 bits otherwise), a compare
 * records its operands and a branch tests its condition on them.
 */
module C1Lir {
  import opened Bits
  import opened C1Constants

  /** A LIR operand: no operand, a virtual register of some type, or an int or long constant. */
  datatype Opr =
    | Illegal
    | VReg(id: nat, ty: BasicType)
    | IntConst(i: Int32)
    | LongConst(l: Int64)
  {
    predicate IsConstant()
    {
      IntConst? || LongConst?
    }

    predicate IsValid()
    {
      !Illegal?
    }

    function Type(): BasicType
    {
      match this
      case Illegal => TAddress
      case VReg(_, ty) => ty
      case IntConst(_) => TInt
      case LongConst(_) => TLong
    }

    /** `as_jint`/`as_jlong` of a constant operand. */
    function ConstValue(): (v: Int64)
      requires IsConstant()
      ensures IntConst? ==> v == i
      ensures LongConst? ==> v == l
    {
      if IntConst? then i else l
    }
  }

  /**
   * A LIR_Address: base + (index << scale) + disp. The address built from a
   * base and a displacement alone has an Illegal index.
   */
  datatype LirAddress = LirAddress(base: Opr, index: Opr, scale: nat, disp: int, ty: BasicType)

  /** LIR_Condition; C1's If::Condition uses the same eight conditions. */
  datatype Cond = Eql | Neq | Lss | Leq | Gtr | Geq | Aeq | Beq

  /** The 64-bit unsigned view of a register value, for the unsigned conditions. */
  function Unsigned(a: int): (u: nat)
    ensures u < TWO_64
  {
    a % TWO_64
  }

  /** Whether condition `c` holds between `a` and `b`; Aeq and Beq compare unsigned. */
  predicate EvalCond(c: Cond, a: int, b: int)
  {
    match c
    case Eql => a == b
    case Neq => a != b
    case Lss => a < b
    case Leq => a <= b
    case Gtr => a > b
    case Geq => a >= b
    case Aeq => Unsigned(a) >= Unsigned(b)
    case Beq => Unsigned(a) <= Unsigned(b)
  }

  /** `Instruction::mirror`: the condition that holds with the operands swapped. */
  function Mirror(c: Cond): (r: Cond)
    ensures forall a: int, b: int :: EvalCond(r, b, a) == EvalCond(c, a, b)
  {
    match c
    case Eql => Eql
    case Neq => Neq
    case Lss => Gtr
    case Leq => Geq
    case Gtr => Lss
    case Geq => Leq
    case Aeq => Beq
    case Beq => Aeq
  }

  /** Mirroring twice gives the condition back. */
  lemma MirrorInvolution(c: Cond)
    ensures Mirror(Mirror(c)) == c
  {
  }

  /** Branch targets: the division-by-zero stub or a basic block. */
  datatype Label = DivByZeroStub | Block(id: nat)

  /** The arithmetic LIR operations (add, sub, mul, div, rem). */
  datatype ArithCode = Add | Sub | Mul | Div | Rem
  {
    predicate IsDivision()
    {
      Div? || Rem?
    }
  }

  datatype LirOp =
    | Move(src: Opr, dst: Opr)
    | ShiftLeft(src: Opr, count: nat, dst: Opr)
    | Arith(code: ArithCode, left: Opr, right: Opr, dst: Opr)
    | Cmp(cond: Cond, left: Opr, right: Opr)
    | Branch(cond: Cond, target: Label)
    | Jump(target: Label)

  /** The virtual registers' contents. */
  type Env = nat -> int

  /** The machine the emitted code runs on: registers and the operands of the last compare. */
  datatype Machine = Machine(regs: Env, cmpLeft: int, cmpRight: int)

  /** How a piece of code ends: it falls through, jumps to a label, or divides by zero. */
  datatype RunResult = Running(m: Machine) | Jumped(target: Label) | DividedByZero

  function Value(o: Opr, regs: Env): int
  {
    match o
    case Illegal => 0
    case VReg(id, _) => regs(id)
    case IntConst(i) => i
    case LongConst(l) => l
  }

  /** A result narrowed to the width of a register of type `ty`. */
  function Narrow(ty: BasicType, v: int): int
  {
    if ty == TInt then Wrap32(v) else Wrap64(v)
  }

  /** The registers after `dst` receives `v`. */
  function Write(regs: Env, dst: Opr, v: int): Env
  {
    if dst.VReg? then (j: nat) => if j == dst.id then Narrow(dst.ty, v) else regs(j)
    else regs
  }

  /** Java's integer quotient: truncated toward zero. */
  function TruncDiv(a: int, b: int): int
    requires b != 0
  {
    var q := (if a < 0 then -a else a) / (if b < 0 then -b else b);
    if (a < 0) == (b < 0) then q else -q
  }

  /** The exact result of an arithmetic operation, before narrowing. */
  function Compute(code: ArithCode, a: int, b: int): int
    requires code.IsDivision() ==> b != 0
  {
    match code
    case Add => a + b
    case Sub => a - b
    case Mul => a * b
    case Div => TruncDiv(a, b)
    case Rem => a - b * TruncDiv(a, b)
  }

  /** One LIR operation. A division by zero is reported, since the RISC-V divide instructions do not trap. */
  function Step(op: LirOp, m: Machine): RunResult
  {
    match op
    case Move(src, dst) => Running(m.(regs := Write(m.regs, dst, Value(src, m.regs))))
    case ShiftLeft(src, k, dst) => Running(m.(regs := Write(m.regs, dst, Value(src, m.regs) * Pow2(k))))
    case Arith(code, l, r, dst) =>
      var a, b := Value(l, m.regs), Value(r, m.regs);
      if code.IsDivision() && b == 0 then DividedByZero
      else Running(m.(regs := Write(m.regs, dst, Compute(code, a, b))))
    case Cmp(_, l, r) => Running(m.(cmpLeft := Value(l, m.regs), cmpRight := Value(r, m.regs)))
    case Branch(c, target) => if EvalCond(c, m.cmpLeft, m.cmpRight) then Jumped(target) else Running(m)
    case Jump(target) => Jumped(target)
  }

  /** A sequence of LIR operations, run until it falls off the end, jumps, or divides by zero. */
  function Run(ops: seq<LirOp>, m: Machine): RunResult
    decreases |ops|
  {
    if ops == [] then Running(m)
    else
      match Step(ops[0], m)
      case Running(m') => Run(ops[1..], m')
      case r => r
  }

  /** Running two pieces of code in sequence is running the first, then the second from where it left off. */
  lemma {:induction false} RunAppend(a: seq<LirOp>, b: seq<LirOp>, m: Machine)
    ensures Run(a + b, m) == match Run(a, m) { case Running(m') => Run(b, m') case r => r }
    decreases |a|
  {
    if a == [] {
      assert a + b == b;
    } else {
      assert (a + b)[0] == a[0];
      assert (a + b)[1..] == a[1..] + b;
      match Step(a[0], m)
      case Running(m') =>
        RunAppend(a[1..], b, m');
      case DividedByZero =>
      case Jumped(_) =>
    }
  }

  /** Registers below `n` hold the same values in both machines. */
  ghost predicate AgreeBelow(r1: Env, r2: Env, n: nat)
  {
    forall j: nat :: j < n ==> r1(j) == r2(j)
  }

  /** An operand that is a constant, or a register allocated below `n`. */
  predicate AllocatedBelow(o: Opr, n: nat)
  {
    o.VReg? ==> o.id < n
  }

  /** An operand's value depends only on the registers allocated before it. */
  lemma ValueAgree(o: Opr, r1: Env, r2: Env, n: nat)
    requires AllocatedBelow(o, n) && AgreeBelow(r1, r2, n)
    ensures Value(o, r1) == Value(o, r2)
  {
  }
}

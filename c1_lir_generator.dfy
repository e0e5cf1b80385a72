/**
 * The constant-selection and strength-reduction rules of the RISC-V C1 LIR
 * generator (src/hotspot/cpu/riscv/c1_LIRGenerator_riscv.cpp): folding a
 * constant array index into a displacement, rewriting a multiplication by
 * 2^k +- 1, the division-by-zero check and which constant operands stay
 * unloaded, and the mirroring of long conditions in `do_If`.
 *
 * The generator is a class whose `ops` field is the LIR list that `__ op`
 * appends to and whose `nextVreg` field numbers the virtual registers that
 * `new_register` hands out. The meaning of what it emits is given by the
 * interpreter of module C1Lir.
 */
module C1LirGenerator {
  import opened Bits
  import opened C1Constants
  import opened C1Lir

  /*
   * Loading operands. `LIRItem::load_item` leaves a register where it is and
   * moves a constant into a fresh register.
   */

  /** The register `load_item` leaves an operand in, when a constant goes to the fresh register number `slot`. */
  function Loaded(o: Opr, slot: nat): (r: Opr)
    requires o.VReg? || o.IsConstant()
    ensures r.VReg? && r.ty == o.Type()
    ensures AllocatedBelow(o, slot) ==> AllocatedBelow(r, slot + 1)
  {
    if o.VReg? then o else VReg(slot, o.Type())
  }

  /** The code `load_item` emits: nothing for a register, one move for a constant. */
  function LoadOps(o: Opr, slot: nat): (code: seq<LirOp>)
    requires o.VReg? || o.IsConstant()
    ensures |code| == if o.VReg? then 0 else 1
  {
    if o.VReg? then [] else [Move(o, Loaded(o, slot))]
  }

  /** After a load, the register holds the operand's value and no register below `slot` has changed. */
  lemma LoadRuns(o: Opr, slot: nat, m: Machine)
    requires o.VReg? || o.IsConstant()
    requires AllocatedBelow(o, slot)
    ensures Run(LoadOps(o, slot), m).Running?
    ensures Value(Loaded(o, slot), Run(LoadOps(o, slot), m).m.regs) == Value(o, m.regs)
    ensures AgreeBelow(Run(LoadOps(o, slot), m).m.regs, m.regs, slot)
    ensures Run(LoadOps(o, slot), m).m.cmpLeft == m.cmpLeft
    ensures Run(LoadOps(o, slot), m).m.cmpRight == m.cmpRight
  {
    if !o.VReg? {
      var mv := Move(o, Loaded(o, slot));
      assert LoadOps(o, slot)[1..] == [];
      assert Run(LoadOps(o, slot), m) == Step(mv, m);
    }
  }

  /*
   * generate_address with a constant index.
   */

  /** `(index << shift) + disp`, computed as a jlong. */
  function ConstantIndexDisplacement(index: Opr, shift: nat, disp: Int32): (c: Int64)
    requires index.IsConstant()
    ensures c % TWO_64 == (index.ConstValue() * Pow2(shift) + disp) % TWO_64
  {
    var shifted := Wrap64(index.ConstValue() * Pow2(shift));
    ModAddCongruent(shifted, index.ConstValue() * Pow2(shift), disp, TWO_64);
    Wrap64(shifted + disp)
  }

  /** `(jlong)((jint)c) == c`: the value survives a round trip through a 32-bit int. */
  function FitsInt(c: int): (r: bool)
    ensures r <==> -TWO_31 <= c < TWO_31
  {
    Wrap32(c) == c
  }

  /** The byte address `base + (index << shift) + disp` in 64-bit arithmetic. */
  function AddressOf(base: int, index: int, shift: nat, disp: int): int
  {
    Wrap64(base + index * Pow2(shift) + disp)
  }

  /** The address a LIR_Address denotes once its registers hold `regs`. */
  function EffectiveAddress(a: LirAddress, regs: Env): int
  {
    Wrap64(Value(a.base, regs) + Value(a.index, regs) * Pow2(a.scale) + a.disp)
  }

  /** Adding the folded displacement to the base gives the address the index, shift and displacement denote. */
  lemma ConstantDisplacementAddress(b: int, index: Opr, shift: nat, disp: Int32)
    requires index.IsConstant()
    ensures Wrap64(b + ConstantIndexDisplacement(index, shift, disp)) == AddressOf(b, index.ConstValue(), shift, disp)
  {
    var c := ConstantIndexDisplacement(index, shift, disp);
    var e := index.ConstValue() * Pow2(shift) + disp;
    ModAddCongruent(c, e, b, TWO_64);
    Wrap64Congruent(c + b, e + b);
  }

  /**
   * The input on which `generate_address` as written goes wrong: an int index
   * 0x1000_0000 scaled by 8 (shift 3) past a 16-byte header has displacement
   * 0x8000_0010, which does not fit an int; the code then addresses
   * base + 0x1000_0000 instead.
   */
  lemma GenerateAddressCounterexample()
    ensures ConstantIndexDisplacement(IntConst(0x1000_0000), 3, 16) == 0x8000_0010
    ensures !FitsInt(0x8000_0010)
    ensures AddressOf(0, 0x1000_0000, 3, 16) == 0x8000_0010
    ensures Wrap64(0 + 0x1000_0000) != AddressOf(0, 0x1000_0000, 3, 16)
  {
    assert Pow2(3) == 8;
  }

  /*
   * strength_reduce_multiply and the imul constant rule.
   */

  /** When `strength_reduce_multiply` rewrites `left * c`. */
  predicate StrengthReduces(tmpValid: bool, c: Int32)
  {
    tmpValid && 0 < c < MAX_JINT && (IsPowerOf2(c - 1) || IsPowerOf2(c + 1))
  }

  /** `(x << k) + x == x * c` in 32-bit arithmetic when `c - 1 == 2^k`. */
  lemma ShiftAddMultiplies(x: int, k: nat, c: int)
    requires Pow2(k) == c - 1
    ensures Wrap32(Wrap32(x * Pow2(k)) + x) == Wrap32(x * c)
  {
    ModAddCongruent(Wrap32(x * Pow2(k)), x * Pow2(k), x, TWO_32);
    assert x * Pow2(k) + x == x * c by {
      assert x * (c - 1) + x == x * c;
    }
    Wrap32Congruent(Wrap32(x * Pow2(k)) + x, x * c);
  }

  /** `(x << k) - x == x * c` in 32-bit arithmetic when `c + 1 == 2^k`. */
  lemma ShiftSubMultiplies(x: int, k: nat, c: int)
    requires Pow2(k) == c + 1
    ensures Wrap32(Wrap32(x * Pow2(k)) - x) == Wrap32(x * c)
  {
    ModAddCongruent(Wrap32(x * Pow2(k)), x * Pow2(k), -x, TWO_32);
    assert x * Pow2(k) - x == x * c by {
      assert x * (c + 1) - x == x * c;
    }
    Wrap32Congruent(Wrap32(x * Pow2(k)) - x, x * c);
  }

  /** The two instructions of a strength-reduced multiplication, for `c - 1` or `c + 1` a power of two. */
  function StrengthReducedOps(left: Opr, c: Int32, result: Opr, tmp: Opr): seq<LirOp>
    requires IsPowerOf2(c - 1) || IsPowerOf2(c + 1)
  {
    if IsPowerOf2(c - 1) then [ShiftLeft(left, ExactLog2(c - 1), tmp), Arith(Add, tmp, left, result)]
    else [ShiftLeft(left, ExactLog2(c + 1), tmp), Arith(Sub, tmp, left, result)]
  }

  /** Int registers `tmp` and `result`, with `tmp` not the register `left` reads. */
  predicate IntScratch(left: Opr, result: Opr, tmp: Opr)
  {
    tmp.VReg? && tmp.ty == TInt && result.VReg? && result.ty == TInt &&
    !(left.VReg? && left.id == tmp.id)
  }

  /** The strength-reduced code leaves `left * c`, wrapped to 32 bits, in `result`. */
  lemma StrengthReducedCodeMultiplies(left: Opr, c: Int32, result: Opr, tmp: Opr, m: Machine)
    requires IsPowerOf2(c - 1) || IsPowerOf2(c + 1)
    requires IntScratch(left, result, tmp)
    ensures Run(StrengthReducedOps(left, c, result, tmp), m).Running?
    ensures Run(StrengthReducedOps(left, c, result, tmp), m).m.regs(result.id) == Wrap32(Value(left, m.regs) * c)
  {
    var x := Value(left, m.regs);
    var code := StrengthReducedOps(left, c, result, tmp);
    var k := code[0].count;
    var m1 := m.(regs := Write(m.regs, tmp, x * Pow2(k)));
    assert Step(code[0], m) == Running(m1);
    var t := Wrap32(x * Pow2(k));
    assert Value(tmp, m1.regs) == t;
    assert Value(left, m1.regs) == x;
    var v := if code[1].code == Add then t + x else t - x;
    var m2 := m1.(regs := Write(m1.regs, result, v));
    assert Step(code[1], m1) == Running(m2);
    assert code[1..][1..] == [];
    assert Run(code[1..], m1) == Running(m2);
    assert Run(code, m) == Running(m2);
    assert m2.regs(result.id) == Wrap32(v);
    if IsPowerOf2(c - 1) {
      ShiftAddMultiplies(x, k, c);
    } else {
      ShiftSubMultiplies(x, k, c);
    }
  }

  /** When `do_ArithmeticOp_Int` leaves an imul constant unloaded. */
  predicate KeepsImulConstant(c: Int32)
  {
    0 < c < MAX_JINT && (IsPowerOf2(c) || IsPowerOf2(c - 1) || IsPowerOf2(c + 1))
  }

  /**
   * An unloaded imul constant never needs a multiply instruction with an
   * immediate (RISC-V has none): it is a power of two, where a shift
   * computes the product, or `strength_reduce_multiply` applies to it.
   */
  lemma KeptImulConstantIsShiftOrReduced(c: Int32, left: Opr, result: Opr, tmp: Opr, m: Machine)
    requires KeepsImulConstant(c)
    requires IntScratch(left, result, tmp)
    ensures IsPowerOf2(c) || StrengthReduces(true, c)
    ensures IsPowerOf2(c) ==>
      && Run([ShiftLeft(left, ExactLog2(c), result)], m).Running?
      && Run([ShiftLeft(left, ExactLog2(c), result)], m).m.regs(result.id) == Wrap32(Value(left, m.regs) * c)
    ensures !IsPowerOf2(c) ==>
      && Run(StrengthReducedOps(left, c, result, tmp), m).Running?
      && Run(StrengthReducedOps(left, c, result, tmp), m).m.regs(result.id) == Wrap32(Value(left, m.regs) * c)
  {
    if IsPowerOf2(c) {
      var shift := ShiftLeft(left, ExactLog2(c), result);
      assert [shift][1..] == [];
      assert Run([shift], m) == Step(shift, m);
    } else {
      StrengthReducedCodeMultiplies(left, c, result, tmp, m);
    }
  }

  /*
   * Division, remainder, add, sub and mul operands.
   */

  /** `need_zero_check`: false only for a non-zero constant divisor. */
  predicate NeedsZeroCheck(divisor: Opr)
  {
    !(divisor.IsConstant() && divisor.ConstValue() != 0)
  }

  /** A positive power-of-two constant divisor is not loaded. */
  predicate KeepsDivisor(divisor: Opr)
  {
    divisor.IsConstant() && divisor.ConstValue() > 0 && IsPowerOf2(divisor.ConstValue())
  }

  /** A constant operand of ladd/lsub stays unloaded when it (for lsub: its negation) is a 12-bit immediate; of lmul, never. */
  predicate KeepsLongOperand(code: ArithCode, right: Opr)
  {
    right.IsConstant() &&
    ((code == Add && IsSimm12(right.ConstValue())) ||
     (code == Sub && IsSimm12(Wrap64(-(right.ConstValue() as int)))))
  }

  /**
   * A constant operand of iadd/isub stays unloaded when it (for isub: its
   * negation) is NOT a 12-bit immediate; an imul constant by KeepsImulConstant.
   */
  predicate KeepsIntOperand(code: ArithCode, right: Opr)
  {
    right.IntConst? &&
    match code
    case Add => !IsSimm12(right.i)
    case Sub => !IsSimm12(Wrap32(-(right.i as int)))
    case Mul => KeepsImulConstant(right.i)
    case _ => false
  }

  /** Whether the right operand of an arithmetic operation stays an unloaded constant. */
  predicate KeepsRight(code: ArithCode, right: Opr, isLong: bool)
  {
    if code.IsDivision() then KeepsDivisor(right)
    else if isLong then KeepsLongOperand(code, right)
    else KeepsIntOperand(code, right)
  }

  /**
   * The int and long rules for add/sub constants are opposite: on every int
   * constant, the long rule keeps exactly the constants the int rule loads.
   */
  lemma AddSubConstantRulesDisagree(c: Int32)
    ensures KeepsIntOperand(Add, IntConst(c)) == !KeepsLongOperand(Add, LongConst(c))
    ensures KeepsIntOperand(Sub, IntConst(c)) == !KeepsLongOperand(Sub, LongConst(c))
  {
  }

  /** The compare-and-branch to the division-by-zero stub. */
  function ZeroCheckOps(divisor: Opr): seq<LirOp>
  {
    [Cmp(Eql, divisor, LongConst(0)), Branch(Eql, DivByZeroStub)]
  }

  /** The code an arithmetic operation emits once the decisions are taken. */
  function ArithmeticOps(code: ArithCode, x: Opr, y: Opr, keepY: bool, n0: nat, n1: nat, result: Opr): seq<LirOp>
    requires x.VReg? || x.IsConstant()
    requires y.VReg? || y.IsConstant()
  {
    var ry := if keepY then y else Loaded(y, n1);
    LoadOps(x, n0)
    + (if keepY then [] else LoadOps(y, n1))
    + (if code.IsDivision() && NeedsZeroCheck(y) then ZeroCheckOps(ry) else [])
    + [Arith(code, Loaded(x, n0), ry, result)]
  }

  /** The emitted list, put together from its parts, is ArithmeticOps. */
  lemma ArithmeticOpsShape(code: ArithCode, x: Opr, y: Opr, keepY: bool, n0: nat, n1: nat, result: Opr,
                           before: seq<LirOp>, after: seq<LirOp>, ry: Opr)
    requires x.VReg? || x.IsConstant()
    requires y.VReg? || y.IsConstant()
    requires ry == if keepY then y else Loaded(y, n1)
    requires after == before + LoadOps(x, n0) + (if keepY then [] else LoadOps(y, n1))
                      + (if code.IsDivision() && NeedsZeroCheck(y) then ZeroCheckOps(ry) else [])
                      + [Arith(code, Loaded(x, n0), ry, result)]
    ensures after == before + ArithmeticOps(code, x, y, keepY, n0, n1, result)
    ensures after[|before|..] == ArithmeticOps(code, x, y, keepY, n0, n1, result)
  {
  }

  /** What running an arithmetic operation's code must do: reach the stub on a zero divisor, else compute the result. */
  ghost predicate ComputesOrTraps(r: RunResult, code: ArithCode, a: int, b: int, result: Opr)
    requires result.VReg?
  {
    if code.IsDivision() && b == 0 then r == Jumped(DivByZeroStub)
    else r.Running? && r.m.regs(result.id) == Narrow(result.ty, Compute(code, a, b))
  }

  /**
   * The emitted code never divides by zero: a zero divisor reaches the
   * division-by-zero stub, and otherwise the result register receives the
   * operation's value narrowed to its width.
   */
  lemma ArithmeticOpsRun(code: ArithCode, x: Opr, y: Opr, keepY: bool, n0: nat, n1: nat, result: Opr, m: Machine)
    requires x.VReg? || x.IsConstant()
    requires y.VReg? || y.IsConstant()
    requires AllocatedBelow(x, n0) && AllocatedBelow(y, n0)
    requires n0 + |LoadOps(x, n0)| <= n1
    requires result.VReg?
    requires keepY ==> y.IsConstant()
    requires keepY && code.IsDivision() ==> y.ConstValue() != 0
    ensures ComputesOrTraps(Run(ArithmeticOps(code, x, y, keepY, n0, n1, result), m), code,
                            Value(x, m.regs), Value(y, m.regs), result)
  {
    var a, b := Value(x, m.regs), Value(y, m.regs);
    var lx := Loaded(x, n0);
    var ry := if keepY then y else Loaded(y, n1);
    var loadX := LoadOps(x, n0);
    var loadY: seq<LirOp> := if keepY then [] else LoadOps(y, n1);
    var check := if code.IsDivision() && NeedsZeroCheck(y) then ZeroCheckOps(ry) else [];
    var op := Arith(code, lx, ry, result);
    assert ArithmeticOps(code, x, y, keepY, n0, n1, result) == loadX + loadY + check + [op];

    // The loads.
    LoadRuns(x, n0, m);
    var m1 := Run(loadX, m).m;
    ValueAgree(y, m1.regs, m.regs, n0);
    var m2: Machine;
    if keepY {
      assert Run(loadY, m1) == Running(m1);
      m2 := m1;
    } else {
      LoadRuns(y, n1, m1);
      m2 := Run(loadY, m1).m;
      ValueAgree(lx, m2.regs, m1.regs, n1);
    }
    assert Value(lx, m2.regs) == a;
    assert Value(ry, m2.regs) == b;
    RunAppend(loadX, loadY, m);
    assert Run(loadX + loadY, m) == Running(m2);

    // The zero check.
    RunAppend(loadX + loadY, check, m);
    RunAppend(loadX + loadY + check, [op], m);
    if check != [] {
      var m3 := m2.(cmpLeft := b, cmpRight := 0);
      assert Step(check[0], m2) == Running(m3);
      assert check[1..][1..] == [];
      if b == 0 {
        assert Run(check, m2) == Jumped(DivByZeroStub);
      } else {
        assert Step(check[1], m3) == Running(m3);
        assert Run(check[1..], m3) == Running(m3);
        assert Run(check, m2) == Running(m3);
        assert Value(lx, m3.regs) == a && Value(ry, m3.regs) == b;
      }
    } else {
      assert code.IsDivision() ==> b != 0;
    }
  }

  /** ArithmeticOpsRun on every machine state. */
  lemma ArithmeticOpsRunAll(code: ArithCode, x: Opr, y: Opr, keepY: bool, n0: nat, n1: nat, result: Opr)
    requires x.VReg? || x.IsConstant()
    requires y.VReg? || y.IsConstant()
    requires AllocatedBelow(x, n0) && AllocatedBelow(y, n0)
    requires n0 + |LoadOps(x, n0)| <= n1
    requires result.VReg?
    requires keepY ==> y.IsConstant()
    requires keepY && code.IsDivision() ==> y.ConstValue() != 0
    ensures forall m: Machine :: ComputesOrTraps(Run(ArithmeticOps(code, x, y, keepY, n0, n1, result), m), code,
                                                 Value(x, m.regs), Value(y, m.regs), result)
  {
    forall m: Machine
      ensures ComputesOrTraps(Run(ArithmeticOps(code, x, y, keepY, n0, n1, result), m), code,
                              Value(x, m.regs), Value(y, m.regs), result)
    {
      ArithmeticOpsRun(code, x, y, keepY, n0, n1, result, m);
    }
  }

  /**
   * An unloaded divisor is a non-zero constant, so it never gets the zero
   * check: the emitted code has no branch to the division-by-zero stub, and
   * it never ends there.
   */
  lemma KeptDivisorNeedsNoCheck(code: ArithCode, x: Opr, y: Opr, n0: nat, n1: nat, result: Opr)
    requires code.IsDivision()
    requires x.VReg? || x.IsConstant()
    requires KeepsDivisor(y)
    requires AllocatedBelow(x, n0)
    requires n0 + |LoadOps(x, n0)| <= n1
    requires result.VReg?
    ensures !NeedsZeroCheck(y) && y.ConstValue() != 0
    ensures Branch(Eql, DivByZeroStub) !in ArithmeticOps(code, x, y, true, n0, n1, result)
    ensures forall m: Machine :: Run(ArithmeticOps(code, x, y, true, n0, n1, result), m).Running?
  {
    assert ArithmeticOps(code, x, y, true, n0, n1, result) == LoadOps(x, n0) + [Arith(code, Loaded(x, n0), y, result)];
    forall m: Machine
      ensures Run(ArithmeticOps(code, x, y, true, n0, n1, result), m).Running?
    {
      ArithmeticOpsRun(code, x, y, true, n0, n1, result, m);
    }
  }

  /*
   * do_If on longs.
   */

  /** The operand kinds `do_If` compares with a single branch (float and double compares are not modelled). */
  datatype IfTag = IntTag | LongTag | ObjectTag | AddressTag

  /** Whether `do_If` replaces the condition by its mirror and swaps the operands. */
  predicate MirrorsCondition(tag: IfTag, cond: Cond)
  {
    tag == LongTag && (cond == Gtr || cond == Leq)
  }

  /** The code `do_If` emits for a compare of `a` with `b` under `c`. */
  function IfOps(a: Opr, b: Opr, c: Cond, n0: nat, n1: nat, tsux: Label, fsux: Label): seq<LirOp>
    requires a.VReg? || a.IsConstant()
    requires b.VReg? || b.IsConstant()
  {
    LoadOps(a, n0) + LoadOps(b, n1) + [Cmp(c, Loaded(a, n0), Loaded(b, n1)), Branch(c, tsux), Jump(fsux)]
  }

  /** The emitted compare-and-branch goes to `tsux` exactly when the condition holds, and to `fsux` otherwise. */
  lemma IfOpsRun(a: Opr, b: Opr, c: Cond, n0: nat, n1: nat, tsux: Label, fsux: Label, m: Machine)
    requires a.VReg? || a.IsConstant()
    requires b.VReg? || b.IsConstant()
    requires AllocatedBelow(a, n0) && AllocatedBelow(b, n0)
    requires n0 + |LoadOps(a, n0)| <= n1
    ensures Run(IfOps(a, b, c, n0, n1, tsux, fsux), m)
         == Jumped(if EvalCond(c, Value(a, m.regs), Value(b, m.regs)) then tsux else fsux)
  {
    var la, lb := Loaded(a, n0), Loaded(b, n1);
    var loadA, loadB := LoadOps(a, n0), LoadOps(b, n1);
    var tail := [Cmp(c, la, lb), Branch(c, tsux), Jump(fsux)];
    assert IfOps(a, b, c, n0, n1, tsux, fsux) == loadA + loadB + tail;
    LoadRuns(a, n0, m);
    var m1 := Run(loadA, m).m;
    ValueAgree(b, m1.regs, m.regs, n0);
    LoadRuns(b, n1, m1);
    var m2 := Run(loadB, m1).m;
    ValueAgree(la, m2.regs, m1.regs, n1);
    RunAppend(loadA, loadB, m);
    RunAppend(loadA + loadB, tail, m);
    var m3 := m2.(cmpLeft := Value(a, m.regs), cmpRight := Value(b, m.regs));
    assert Step(tail[0], m2) == Running(m3);
    assert tail[1..][0] == Branch(c, tsux);
    assert tail[1..][1..] == [Jump(fsux)];
    assert Run([Jump(fsux)], m3) == Jumped(fsux);
    if EvalCond(c, Value(a, m.regs), Value(b, m.regs)) {
      assert Run(tail[1..], m3) == Jumped(tsux);
    } else {
      assert Run(tail[1..], m3) == Jumped(fsux);
    }
    assert Run(tail, m2) == Run(tail[1..], m3);
  }

  /** The emitted list, put together from its parts, is IfOps. */
  lemma IfOpsShape(a: Opr, b: Opr, c: Cond, n0: nat, n1: nat, tsux: Label, fsux: Label, before: seq<LirOp>, after: seq<LirOp>)
    requires a.VReg? || a.IsConstant()
    requires b.VReg? || b.IsConstant()
    requires after == before + LoadOps(a, n0) + LoadOps(b, n1) + [Cmp(c, Loaded(a, n0), Loaded(b, n1))]
                      + [Branch(c, tsux)] + [Jump(fsux)]
    ensures after == before + IfOps(a, b, c, n0, n1, tsux, fsux)
    ensures after[|before|..] == IfOps(a, b, c, n0, n1, tsux, fsux)
  {
  }

  /** The code `do_If` emits: the compare of IfOps, on the mirrored condition and swapped operands where MirrorsCondition says. */
  function DoIfOps(tag: IfTag, cond: Cond, x: Opr, y: Opr, n0: nat, tsux: Label, fsux: Label): seq<LirOp>
    requires x.VReg? || x.IsConstant()
    requires y.VReg? || y.IsConstant()
  {
    if MirrorsCondition(tag, cond) then IfOps(y, x, Mirror(cond), n0, n0 + |LoadOps(y, n0)|, tsux, fsux)
    else IfOps(x, y, cond, n0, n0 + |LoadOps(x, n0)|, tsux, fsux)
  }

  /**
   * On longs, no compare or branch that `do_If` emits uses `gtr` or `leq`;
   * for a signed condition they use `eql`, `neq`, `lss` or `geq`.
   */
  lemma MirroredLongConditionIsValid(cond: Cond, x: Opr, y: Opr, n0: nat, tsux: Label, fsux: Label)
    requires x.VReg? || x.IsConstant()
    requires y.VReg? || y.IsConstant()
    ensures forall op :: op in DoIfOps(LongTag, cond, x, y, n0, tsux, fsux) && (op.Cmp? || op.Branch?) ==>
      op.cond != Gtr && op.cond != Leq && (cond != Aeq && cond != Beq ==> op.cond in {Eql, Neq, Lss, Geq})
  {
    var mirrored := MirrorsCondition(LongTag, cond);
    var c := if mirrored then Mirror(cond) else cond;
    var a, b := if mirrored then y else x, if mirrored then x else y;
    var n1 := n0 + |LoadOps(a, n0)|;
    var code := DoIfOps(LongTag, cond, x, y, n0, tsux, fsux);
    assert code == IfOps(a, b, c, n0, n1, tsux, fsux);
    forall op | op in code && (op.Cmp? || op.Branch?)
      ensures op.cond == c
    {
      assert op !in LoadOps(a, n0) && op !in LoadOps(b, n1);
    }
  }

  /**
   * Whatever the condition and operand order, the code `do_If` emits goes to
   * `tsux` exactly when the ORIGINAL condition holds of the original
   * operands, and to `fsux` otherwise.
   */
  lemma DoIfOpsRun(tag: IfTag, cond: Cond, x: Opr, y: Opr, n0: nat, tsux: Label, fsux: Label)
    requires x.VReg? || x.IsConstant()
    requires y.VReg? || y.IsConstant()
    requires AllocatedBelow(x, n0) && AllocatedBelow(y, n0)
    ensures forall m: Machine ::
      Run(DoIfOps(tag, cond, x, y, n0, tsux, fsux), m) == Jumped(if EvalCond(cond, Value(x, m.regs), Value(y, m.regs)) then tsux else fsux)
  {
    forall m: Machine
      ensures Run(DoIfOps(tag, cond, x, y, n0, tsux, fsux), m)
        == Jumped(if EvalCond(cond, Value(x, m.regs), Value(y, m.regs)) then tsux else fsux)
    {
      if MirrorsCondition(tag, cond) {
        IfOpsRun(y, x, Mirror(cond), n0, n0 + |LoadOps(y, n0)|, tsux, fsux, m);
        assert EvalCond(Mirror(cond), Value(y, m.regs), Value(x, m.regs)) == EvalCond(cond, Value(x, m.regs), Value(y, m.regs));
      } else {
        IfOpsRun(x, y, cond, n0, n0 + |LoadOps(x, n0)|, tsux, fsux, m);
      }
    }
  }

  /*
   * The generator.
   */

  class LirGenerator {
    /** The LIR list the generator appends to. */
    var ops: seq<LirOp>
    /** The number of the next virtual register `new_register` hands out. */
    var nextVreg: nat

    constructor ()
      ensures ops == [] && nextVreg == 0
    {
      ops := [];
      nextVreg := 0;
    }

    /** `new_register`: a slot virtual register of type `ty`. */
    method NewRegister(ty: BasicType) returns (r: Opr)
      modifies this
      ensures r == VReg(old(nextVreg), ty)
      ensures nextVreg == old(nextVreg) + 1 && ops == old(ops)
    {
      r := VReg(nextVreg, ty);
      nextVreg := nextVreg + 1;
    }

    /** `__ op`: append one operation to the LIR list. */
    method Emit(op: LirOp)
      modifies this
      ensures ops == old(ops) + [op] && nextVreg == old(nextVreg)
    {
      ops := ops + [op];
    }

    /** `LIRItem::load_item`. */
    method LoadItem(o: Opr) returns (r: Opr)
      requires o.VReg? || o.IsConstant()
      modifies this
      ensures r == Loaded(o, old(nextVreg))
      ensures ops == old(ops) + LoadOps(o, old(nextVreg))
      ensures nextVreg == old(nextVreg) + |LoadOps(o, old(nextVreg))|
    {
      if o.VReg? {
        r := o;
      } else {
        r := NewRegister(o.Type());
        Emit(Move(o, r));
      }
    }

    /**
     * `generate_address` with the constant-index branch corrected: when the
     * folded displacement does not fit an int, it is the displacement, not
     * the bare index, that goes into the temporary register.
     */
    method GenerateAddress(base: Opr, index: Opr, shift: nat, disp: Int32, ty: BasicType) returns (addr: LirAddress)
      requires base.VReg? && AllocatedBelow(base, nextVreg)
      requires index.VReg? || index.IsConstant()
      requires AllocatedBelow(index, nextVreg)
      requires shift < 64
      modifies this
      ensures index.IsConstant() && FitsInt(ConstantIndexDisplacement(index, shift, disp)) ==>
        addr == LirAddress(base, Illegal, 0, ConstantIndexDisplacement(index, shift, disp), ty) &&
        ops == old(ops) && nextVreg == old(nextVreg)
      ensures index.IsConstant() && !FitsInt(ConstantIndexDisplacement(index, shift, disp)) ==>
        var tmp := VReg(old(nextVreg), TLong);
        addr == LirAddress(base, tmp, 0, 0, ty) &&
        ops == old(ops) + [Move(LongConst(ConstantIndexDisplacement(index, shift, disp)), tmp)] &&
        nextVreg == old(nextVreg) + 1
      ensures index.VReg? ==> addr == LirAddress(base, index, shift, disp, ty) && ops == old(ops) && nextVreg == old(nextVreg)
      ensures forall m: Machine ::
        Run(ops[|old(ops)|..], m).Running? &&
        EffectiveAddress(addr, Run(ops[|old(ops)|..], m).m.regs) == AddressOf(Value(base, m.regs), Value(index, m.regs), shift, disp)
    {
      if index.IsConstant() {
        var c := ConstantIndexDisplacement(index, shift, disp);
        if FitsInt(c) {
          addr := LirAddress(base, Illegal, 0, c, ty);
          forall m: Machine
            ensures Run(ops[|old(ops)|..], m).Running? &&
              EffectiveAddress(addr, Run(ops[|old(ops)|..], m).m.regs) == AddressOf(Value(base, m.regs), Value(index, m.regs), shift, disp)
          {
            assert ops[|old(ops)|..] == [];
            ConstantDisplacementAddress(Value(base, m.regs), index, shift, disp);
          }
        } else {
          ghost var n0 := nextVreg;
          var tmp := NewRegister(TLong);
          Emit(Move(LongConst(c), tmp));
          addr := LirAddress(base, tmp, 0, 0, ty);
          forall m: Machine
            ensures Run(ops[|old(ops)|..], m).Running? &&
              EffectiveAddress(addr, Run(ops[|old(ops)|..], m).m.regs) == AddressOf(Value(base, m.regs), Value(index, m.regs), shift, disp)
          {
            var mv := Move(LongConst(c), tmp);
            assert ops[|old(ops)|..] == [mv];
            assert [mv][1..] == [];
            var regs' := Write(m.regs, tmp, c);
            assert Run([mv], m) == Running(m.(regs := regs'));
            assert Value(base, regs') == Value(base, m.regs);
            assert Pow2(0) == 1;
            ConstantDisplacementAddress(Value(base, m.regs), index, shift, disp);
          }
        }
      } else {
        addr := LirAddress(base, index, shift, disp, ty);
        assert ops[|old(ops)|..] == [];
      }
    }

    /**
     * `generate_address` as written: when the folded displacement does not
     * fit an int it moves the bare index into the temporary register and
     * addresses `base + index`, dropping the shift and the displacement.
     */
    method GenerateAddressAsWritten(base: Opr, index: Opr, shift: nat, disp: Int32, ty: BasicType) returns (addr: LirAddress)
      requires base.VReg? && AllocatedBelow(base, nextVreg)
      requires index.VReg? || index.IsConstant()
      requires AllocatedBelow(index, nextVreg)
      requires shift < 64
      modifies this
      ensures index.IsConstant() && FitsInt(ConstantIndexDisplacement(index, shift, disp)) ==>
        addr == LirAddress(base, Illegal, 0, ConstantIndexDisplacement(index, shift, disp), ty) &&
        ops == old(ops) && nextVreg == old(nextVreg)
      ensures index.IsConstant() && !FitsInt(ConstantIndexDisplacement(index, shift, disp)) ==>
        var tmp := VReg(old(nextVreg), TLong);
        addr == LirAddress(base, tmp, 0, 0, ty) &&
        ops == old(ops) + [Move(index, tmp)] &&
        nextVreg == old(nextVreg) + 1
      ensures index.VReg? ==> addr == LirAddress(base, index, shift, disp, ty) && ops == old(ops) && nextVreg == old(nextVreg)
      ensures forall m: Machine :: Run(ops[|old(ops)|..], m).Running?
      ensures forall m: Machine ::
        index.IsConstant() && !FitsInt(ConstantIndexDisplacement(index, shift, disp)) ==>
          EffectiveAddress(addr, Run(ops[|old(ops)|..], m).m.regs) == Wrap64(Value(base, m.regs) + Value(index, m.regs))
    {
      if index.IsConstant() {
        var c := ConstantIndexDisplacement(index, shift, disp);
        if FitsInt(c) {
          addr := LirAddress(base, Illegal, 0, c, ty);
          assert ops[|old(ops)|..] == [];
        } else {
          var tmp := NewRegister(TLong);
          Emit(Move(index, tmp));
          addr := LirAddress(base, tmp, 0, 0, ty);
          forall m: Machine
            ensures Run(ops[|old(ops)|..], m).Running? &&
              EffectiveAddress(addr, Run(ops[|old(ops)|..], m).m.regs) == Wrap64(Value(base, m.regs) + Value(index, m.regs))
          {
            var mv := Move(index, tmp);
            assert ops[|old(ops)|..] == [mv];
            assert [mv][1..] == [];
            var regs' := Write(m.regs, tmp, Value(index, m.regs));
            assert Run([mv], m) == Running(m.(regs := regs'));
            assert Value(base, regs') == Value(base, m.regs);
            assert Pow2(0) == 1;
          }
        }
      } else {
        addr := LirAddress(base, index, shift, disp, ty);
        assert ops[|old(ops)|..] == [];
      }
    }

    /**
     * `strength_reduce_multiply`: rewrite `left * c` as a shift and an add or
     * subtract when `c - 1` or `c + 1` is a power of two.
     */
    method StrengthReduceMultiply(left: Opr, c: Int32, result: Opr, tmp: Opr) returns (reduced: bool)
      modifies this
      ensures reduced == StrengthReduces(tmp.IsValid(), c)
      ensures reduced ==> ops == old(ops) + StrengthReducedOps(left, c, result, tmp)
      ensures !reduced ==> ops == old(ops)
      ensures nextVreg == old(nextVreg)
      ensures reduced && IntScratch(left, result, tmp) ==> forall m: Machine ::
        Run(ops[|old(ops)|..], m).Running? &&
        Run(ops[|old(ops)|..], m).m.regs(result.id) == Wrap32(Value(left, m.regs) * c)
    {
      reduced := false;
      if tmp.IsValid() && c > 0 && c < MAX_JINT {
        if IsPowerOf2(c - 1) {
          Emit(ShiftLeft(left, ExactLog2(c - 1), tmp));
          Emit(Arith(Add, tmp, left, result));
          reduced := true;
        } else if IsPowerOf2(c + 1) {
          Emit(ShiftLeft(left, ExactLog2(c + 1), tmp));
          Emit(Arith(Sub, tmp, left, result));
          reduced := true;
        }
      }
      if reduced && IntScratch(left, result, tmp) {
        assert ops[|old(ops)|..] == StrengthReducedOps(left, c, result, tmp);
        forall m: Machine
          ensures Run(ops[|old(ops)|..], m).Running? &&
            Run(ops[|old(ops)|..], m).m.regs(result.id) == Wrap32(Value(left, m.regs) * c)
        {
          StrengthReducedCodeMultiplies(left, c, result, tmp, m);
        }
      }
    }

    /**
     * The divisor half of `do_ArithmeticOp_Long` and `do_ArithmeticOp_Int` for
     * ldiv, lrem, idiv and irem: a positive power-of-two constant stays
     * unloaded, anything else is loaded, and unless the divisor is a non-zero
     * constant a compare-and-branch to the division-by-zero stub follows.
     */
    method PrepareDivisor(y: Opr) returns (right: Opr)
      requires y.VReg? || y.IsConstant()
      modifies this
      ensures right == if KeepsDivisor(y) then y else Loaded(y, old(nextVreg))
      ensures ops == old(ops) + (if KeepsDivisor(y) then [] else LoadOps(y, old(nextVreg)))
                    + (if NeedsZeroCheck(y) then ZeroCheckOps(right) else [])
      ensures nextVreg == old(nextVreg) + (if KeepsDivisor(y) then 0 else |LoadOps(y, old(nextVreg))|)
    {
      var needZeroCheck := true;
      if y.IsConstant() {
        var c := y.ConstValue();
        if c != 0 {
          needZeroCheck := false;
        }
        if c > 0 && IsPowerOf2(c) {
          right := y;
        } else {
          right := LoadItem(y);
        }
      } else {
        right := LoadItem(y);
      }
      ghost var afterLoad := ops;
      if needZeroCheck {
        Emit(Cmp(Eql, right, LongConst(0)));
        Emit(Branch(Eql, DivByZeroStub));
        assert ops == afterLoad + ZeroCheckOps(right);
      }
    }

    /** The right operand of ladd, lsub and lmul: loaded unless it is a constant KeepsLongOperand admits. */
    method PrepareLongOperand(code: ArithCode, y: Opr) returns (right: Opr)
      requires y.VReg? || y.IsConstant()
      requires !code.IsDivision()
      modifies this
      ensures right == if KeepsLongOperand(code, y) then y else Loaded(y, old(nextVreg))
      ensures ops == old(ops) + (if KeepsLongOperand(code, y) then [] else LoadOps(y, old(nextVreg)))
      ensures nextVreg == old(nextVreg) + (if KeepsLongOperand(code, y) then 0 else |LoadOps(y, old(nextVreg))|)
    {
      right := y;
      if y.IsConstant() {
        if code == Mul || (code == Add && !IsSimm12(y.ConstValue())) ||
           (code == Sub && !IsSimm12(Wrap64(-(y.ConstValue() as int)))) {
          right := LoadItem(y);
        }
      }
    }

    /**
     * The right operand of iadd, isub and imul: an iadd/isub constant that is
     * not a 12-bit immediate stays (`load_nonconstant`), one that is gets
     * loaded; an imul constant stays by KeepsImulConstant.
     */
    method PrepareIntOperand(code: ArithCode, y: Opr) returns (right: Opr)
      requires y.VReg? || y.IntConst?
      requires !code.IsDivision()
      modifies this
      ensures right == if KeepsIntOperand(code, y) then y else Loaded(y, old(nextVreg))
      ensures ops == old(ops) + (if KeepsIntOperand(code, y) then [] else LoadOps(y, old(nextVreg)))
      ensures nextVreg == old(nextVreg) + (if KeepsIntOperand(code, y) then 0 else |LoadOps(y, old(nextVreg))|)
    {
      right := y;
      if code == Add || code == Sub {
        if y.IsConstant() &&
           ((code == Add && !IsSimm12(y.i)) || (code == Sub && !IsSimm12(Wrap32(-(y.i as int))))) {
          right := y;
        } else {
          right := LoadItem(y);
        }
      } else if y.IsConstant() {
        var c: Int32 := y.i;
        if !(c > 0 && c < MAX_JINT && (IsPowerOf2(c) || IsPowerOf2(c - 1) || IsPowerOf2(c + 1))) {
          right := LoadItem(y);
        }
      } else {
        right := LoadItem(y);
      }
    }

    /**
     * `do_ArithmeticOp_Long`: ldiv/lrem get a zero-divisor check unless the
     * divisor is a non-zero constant and keep a positive power-of-two divisor
     * unloaded; ladd/lsub keep a constant that is a 12-bit immediate.
     */
    method DoArithmeticOpLong(code: ArithCode, x: Opr, y: Opr) returns (result: Opr)
      requires (x.VReg? && x.ty == TLong) || x.LongConst?
      requires (y.VReg? && y.ty == TLong) || y.LongConst?
      requires AllocatedBelow(x, nextVreg) && AllocatedBelow(y, nextVreg)
      modifies this
      ensures result.VReg? && result.ty == TLong && old(nextVreg) <= result.id < nextVreg
      ensures var n1 := old(nextVreg) + |LoadOps(x, old(nextVreg))|;
        result == VReg(n1 + (if KeepsRight(code, y, true) then 0 else |LoadOps(y, n1)|), TLong)
      ensures nextVreg == result.id + 1
      ensures var n0 := old(nextVreg);
        ops == old(ops) + ArithmeticOps(code, x, y, KeepsRight(code, y, true), n0, n0 + |LoadOps(x, n0)|, result)
      ensures forall m: Machine ::
        ComputesOrTraps(Run(ops[|old(ops)|..], m), code, Value(x, m.regs), Value(y, m.regs), result)
    {
      ghost var n0 := nextVreg;
      ghost var n1 := n0 + |LoadOps(x, n0)|;
      ghost var keep := KeepsRight(code, y, true);
      var left := LoadItem(x);
      ghost var afterLeft := ops;
      var right: Opr;
      if code.IsDivision() {
        right := PrepareDivisor(y);
        assert ops == afterLeft + (if keep then [] else LoadOps(y, n1)) + (if NeedsZeroCheck(y) then ZeroCheckOps(right) else []);
      } else {
        right := PrepareLongOperand(code, y);
        assert ops == afterLeft + (if keep then [] else LoadOps(y, n1)) + [];
      }
      assert right == if keep then y else Loaded(y, n1);
      result := NewRegister(TLong);
      Emit(Arith(code, left, right, result));
      ArithmeticOpsShape(code, x, y, keep, n0, n1, result, old(ops), ops, right);
      ArithmeticOpsRunAll(code, x, y, keep, n0, n1, result);
    }

    /**
     * `do_ArithmeticOp_Int`: idiv/irem as for longs (the result register is
     * allocated before the divisor is loaded); iadd/isub keep a constant that
     * is not a 12-bit immediate; imul keeps a constant by KeepsImulConstant.
     */
    method DoArithmeticOpInt(code: ArithCode, x: Opr, y: Opr) returns (result: Opr)
      requires (x.VReg? && x.ty == TInt) || x.IntConst?
      requires (y.VReg? && y.ty == TInt) || y.IntConst?
      requires AllocatedBelow(x, nextVreg) && AllocatedBelow(y, nextVreg)
      modifies this
      ensures result.VReg? && result.ty == TInt && old(nextVreg) <= result.id < nextVreg
      ensures var n1 := old(nextVreg) + |LoadOps(x, old(nextVreg))|;
        result == VReg(if code.IsDivision() then n1 else n1 + (if KeepsRight(code, y, false) then 0 else |LoadOps(y, n1)|), TInt)
      ensures var n1 := old(nextVreg) + |LoadOps(x, old(nextVreg))| + (if code.IsDivision() then 1 else 0);
        nextVreg == n1 + (if KeepsRight(code, y, false) then 0 else |LoadOps(y, n1)|) + (if code.IsDivision() then 0 else 1)
      ensures var n0 := old(nextVreg);
        var n1 := n0 + |LoadOps(x, n0)| + (if code.IsDivision() then 1 else 0);
        ops == old(ops) + ArithmeticOps(code, x, y, KeepsRight(code, y, false), n0, n1, result)
      ensures forall m: Machine ::
        ComputesOrTraps(Run(ops[|old(ops)|..], m), code, Value(x, m.regs), Value(y, m.regs), result)
    {
      ghost var n0 := nextVreg;
      ghost var n1 := n0 + |LoadOps(x, n0)| + (if code.IsDivision() then 1 else 0);
      ghost var keep := KeepsRight(code, y, false);
      var left := LoadItem(x);
      var right;
      right, result := PrepareIntRightAndResult(code, y);
      Emit(Arith(code, left, right, result));
      ArithmeticOpsShape(code, x, y, keep, n0, n1, result, old(ops), ops, right);
      ArithmeticOpsRunAll(code, x, y, keep, n0, n1, result);
    }

    /**
     * The right operand and the result register of an int operation, in the
     * order `do_ArithmeticOp_Int` allocates them: for a division the result
     * register comes first and the divisor is then prepared (with its zero
     * check); otherwise the operand is prepared first.
     */
    method PrepareIntRightAndResult(code: ArithCode, y: Opr) returns (right: Opr, result: Opr)
      requires (y.VReg? && y.ty == TInt) || y.IntConst?
      modifies this
      ensures var n1 := old(nextVreg) + (if code.IsDivision() then 1 else 0);
        && right == (if KeepsRight(code, y, false) then y else Loaded(y, n1))
        && ops == old(ops) + (if KeepsRight(code, y, false) then [] else LoadOps(y, n1))
                 + (if code.IsDivision() && NeedsZeroCheck(y) then ZeroCheckOps(right) else [])
      ensures result.VReg? && result.ty == TInt && old(nextVreg) <= result.id < nextVreg
      ensures result == VReg(if code.IsDivision() then old(nextVreg) else nextVreg - 1, TInt)
      ensures var n1 := old(nextVreg) + (if code.IsDivision() then 1 else 0);
        nextVreg == n1 + (if KeepsRight(code, y, false) then 0 else |LoadOps(y, n1)|) + (if code.IsDivision() then 0 else 1)
    {
      if code.IsDivision() {
        result := NewRegister(TInt);
        right := PrepareDivisor(y);
      } else {
        right := PrepareIntOperand(code, y);
        result := NewRegister(TInt);
      }
    }

    /**
     * `do_If` for operands compared with one branch: on longs, `gtr` and
     * `leq` become their mirrors with the operands swapped; the emitted code
     * still goes to `tsux` exactly when the original condition holds.
     */
    method DoIf(tag: IfTag, cond: Cond, x: Opr, y: Opr, tsux: Label, fsux: Label)
      requires x.VReg? || x.IsConstant()
      requires y.VReg? || y.IsConstant()
      requires AllocatedBelow(x, nextVreg) && AllocatedBelow(y, nextVreg)
      modifies this
      ensures ops == old(ops) + DoIfOps(tag, cond, x, y, old(nextVreg), tsux, fsux)
      ensures nextVreg == old(nextVreg) + |LoadOps(x, 0)| + |LoadOps(y, 0)|
      ensures forall m: Machine ::
        Run(ops[|old(ops)|..], m) == Jumped(if EvalCond(cond, Value(x, m.regs), Value(y, m.regs)) then tsux else fsux)
    {
      var c := cond;
      var xin, yin := x, y;
      if tag == LongTag {
        if cond == Gtr || cond == Leq {
          c := Mirror(cond);
          xin, yin := y, x;
        }
      }
      ghost var n0 := nextVreg;
      ghost var n1 := n0 + |LoadOps(xin, n0)|;
      var left := LoadItem(xin);
      var right := LoadItem(yin);
      Emit(Cmp(c, left, right));
      Emit(Branch(c, tsux));
      Emit(Jump(fsux));
      IfOpsShape(xin, yin, c, n0, n1, tsux, fsux, old(ops), ops);
      assert IfOps(xin, yin, c, n0, n1, tsux, fsux) == DoIfOps(tag, cond, x, y, n0, tsux, fsux);
      DoIfOpsRun(tag, cond, x, y, n0, tsux, fsux);
    }
  }
}

# DoubleMaxVector masks and shuffles, and the RISC-V C1 constant rules

This project models two pieces of the JDK:

1. From `DoubleMaxVector` (the `double` vector of the Vector API at the widest shape the host supports):
   - the bounds-checked lane accessors;
   - the `DoubleMaxMask` class;
   - the `DoubleMaxShuffle` class.

   The lane count `VLENGTH` is an unspecified constant in `[1, 2^31)`, and every property is proved for every such value. A lane is kept as its raw 64-bit pattern (`bv64`), because the code only moves lanes with `doubleToRawLongBits`/`longBitsToDouble`. A mask is a sequence of booleans. A shuffle is a sequence of long indices:
   - an index in `[0, VLENGTH)` names a source lane;
   - an index in `[-VLENGTH, 0)` is an "exceptional" lane.

   Each `VectorSupport` intrinsic is modelled by the fallback lambda passed to it. A Java exception is a `Throws` value of `Outcomes.Outcome`. The loops of the source are methods with loop invariants: the mask's `prepare(bits, offset)`, `prepare(val)` (an `Arrays.fill`), `uOp` and `bOp`, and the shuffle's two `prepare`s, `indicesInRange` and the default branch of `intoArray`. `uOp`, `bOp` and `prepare(val)` are proved equal to a function (`Lanewise1`, `Lanewise2`, `Filled`); the other loops state their result lane by lane. `withLaneHelper` has no loop: it is a method that clones the payload into a fresh array and stores one lane.

2. From the RISC-V C1 LIR generator (`c1_LIRGenerator_riscv.cpp`):
   - the rules that decide which constants a store or an instruction may take as an immediate;
   - folding a constant array index into an address displacement;
   - the strength reduction of `x * (2^k ± 1)`;
   - the division-by-zero check, and which constant operands stay unloaded in `do_ArithmeticOp_Long`/`do_ArithmeticOp_Int`;
   - the mirroring of long conditions in `do_If`.

   The generator is a class whose `ops` field is the LIR list that `__ op` appends to. Its `nextVreg` field numbers the registers `new_register` hands out. To give the emitted code a meaning, module `C1Lir` has a small interpreter:
   - virtual registers hold integers;
   - a write is narrowed to 32 bits for an int register and to 64 bits otherwise;
   - a compare records its operands and a branch tests them;
   - an `ldiv`/`lrem`/`idiv`/`irem` whose divisor is zero ends the run as `DividedByZero`.

   Each emitting method states the list it appends. A lemma then states what that list computes when run: the product, the quotient or a jump to the division-by-zero stub, the branch target, or the address.

Files:
- `bits.dfy`: Java int/long wrap-around, truncating `%`, bitwise AND on non-negative numbers, powers of two and `is_power_of_2`/`exact_log2`.
- `outcomes.dfy`: the Java exceptions as values.
- `double_max_vector.dfy`, `double_max_mask.dfy`, `double_max_shuffle.dfy`: the vector model.
- `c1_constants.dfy`, `c1_lir.dfy`, `c1_lir_generator.dfy`: the LIR generator model.

Two places where the code and its own comments or neighbours differ:
- `can_store_as_constant` compares the raw bits of a float or double with zero, so it rejects `-0.0`. `can_inline_as_constant` compares the value with `0.0`, so it accepts `-0.0`. The model follows the code, and `C1Constants.NegativeZeroInlinedNotStored` states the difference.
- For `iadd`/`isub`, `do_ArithmeticOp_Int` leaves a constant unloaded when it is NOT a 12-bit immediate and loads one that is. `do_ArithmeticOp_Long` does the opposite, which its "don't load constants to save register" comment describes. The model follows the code. `C1LirGenerator.AddSubConstantRulesDisagree` states the inversion, and `C1LirGenerator.LirGenerator.DoArithmeticOpInt` proves the emitted code still computes the right value. This is an inefficiency, not a wrong result, so it is not listed as a finding.

## Model

| member | source | states |
|---|---|---|
| DoubleMaxVector.Lane | src/jdk.incubator.vector/share/classes/jdk/incubator/vector/DoubleMaxVector.java:506-523 | throws IllegalArgumentException exactly when `i < 0` or `i >= VLENGTH`; otherwise returns the raw bits of lane `i`, which `laneHelper` (the `extract` fallback, modelled by the helper `LaneHelper`) reads from the payload |
| DoubleMaxVector.WithLane | src/jdk.incubator.vector/share/classes/jdk/incubator/vector/DoubleMaxVector.java:527-532 | throws IllegalArgumentException exactly when `i` is out of range; otherwise reading lane `i` back gives `e`, every other lane reads as before, and writing a lane's own value gives the same vector |
| DoubleMaxVector.WithLaneHelper | src/jdk.incubator.vector/share/classes/jdk/incubator/vector/DoubleMaxVector.java:535-544 | the cloned payload has `VLENGTH` lanes, `e` in lane `i` and every other lane copied from the receiver |
| DoubleMaxMask.PrepareFromArray | src/jdk.incubator.vector/share/classes/jdk/incubator/vector/DoubleMaxVector.java:564-570 | fails with ArrayIndexOutOfBoundsException exactly when `bits[offset .. offset+VLENGTH)` is not inside the array; otherwise gives `VLENGTH` lanes with lane `i` = `bits[offset+i]` |
| DoubleMaxMask.PrepareFill | src/jdk.incubator.vector/share/classes/jdk/incubator/vector/DoubleMaxVector.java:572-576 | gives the mask of `VLENGTH` lanes that all equal `val` |
| DoubleMaxMask.Filled | src/jdk.incubator.vector/share/classes/jdk/incubator/vector/DoubleMaxVector.java:572-576 | every one of the `VLENGTH` lanes equals `val` |
| DoubleMaxMask.FromArrayAt | src/jdk.incubator.vector/share/classes/jdk/incubator/vector/DoubleMaxVector.java:556-558 | the `(bits, offset)` constructor: throws exactly when the window is out of bounds, otherwise copies it |
| DoubleMaxMask.FromArray | src/jdk.incubator.vector/share/classes/jdk/incubator/vector/DoubleMaxVector.java:552-554 | the `(bits)` constructor: throws exactly when `bits` is shorter than `VLENGTH`, otherwise the mask is `bits[..VLENGTH]` |
| DoubleMaxMask.FromValue | src/jdk.incubator.vector/share/classes/jdk/incubator/vector/DoubleMaxVector.java:560-562 | the `(val)` constructor: every lane equals `val` |
| DoubleMaxMask.MaskAll | src/jdk.incubator.vector/share/classes/jdk/incubator/vector/DoubleMaxVector.java:768-774 | `maskAll(bit)` is TRUE_MASK or FALSE_MASK: every lane equals `bit` |
| DoubleMaxMask.Lanewise1 | src/jdk.incubator.vector/share/classes/jdk/incubator/vector/DoubleMaxVector.java:593-600 | lane `i` of the result is `f(i, m[i])` |
| DoubleMaxMask.Lanewise2 | src/jdk.incubator.vector/share/classes/jdk/incubator/vector/DoubleMaxVector.java:603-611 | lane `i` of the result is `f(i, a[i], b[i])` |
| DoubleMaxMask.UOp | src/jdk.incubator.vector/share/classes/jdk/incubator/vector/DoubleMaxVector.java:593-600 | the loop fills a fresh array with `f(i, bits[i])`, which is the lane-wise function |
| DoubleMaxMask.BOp | src/jdk.incubator.vector/share/classes/jdk/incubator/vector/DoubleMaxVector.java:603-611 | the loop fills a fresh array with `f(i, bits[i], mbits[i])`, which is the lane-wise function; the inputs are values and stay unchanged |
| DoubleMaxMask.And | src/jdk.incubator.vector/share/classes/jdk/incubator/vector/DoubleMaxVector.java:677-683 | lane `i` is set iff it is set in both masks |
| DoubleMaxMask.Or | src/jdk.incubator.vector/share/classes/jdk/incubator/vector/DoubleMaxVector.java:687-693 | lane `i` is set iff it is set in either mask |
| DoubleMaxMask.Xor | src/jdk.incubator.vector/share/classes/jdk/incubator/vector/DoubleMaxVector.java:697-703 | lane `i` is set iff the masks differ there |
| DoubleMaxMask.Not | src/jdk.incubator.vector/share/classes/jdk/incubator/vector/DoubleMaxVector.java:660-662 | `xor(maskAll(true))` flips every lane |
| DoubleMaxMask.NotNot | src/jdk.incubator.vector/share/classes/jdk/incubator/vector/DoubleMaxVector.java:660-662 | `not(not(m)) == m` |
| DoubleMaxMask.TrueCount | src/jdk.incubator.vector/share/classes/jdk/incubator/vector/DoubleMaxVector.java:709-712 | the number of set lanes, at most `VLENGTH`; it is 0 exactly for the all-false mask and `VLENGTH` exactly for the all-true one (`trueCountHelper` is not part of this model, see "## Left out") |
| DoubleMaxMask.TrueCountNot | src/jdk.incubator.vector/share/classes/jdk/incubator/vector/DoubleMaxVector.java:660-662 | the true counts of a mask and its complement add up to `VLENGTH` |
| DoubleMaxMask.Compress | src/jdk.incubator.vector/share/classes/jdk/incubator/vector/DoubleMaxVector.java:666-670 | lane `i` is set iff `i < trueCount()` (iota < trueCount), so the set lanes are packed at the low end |
| DoubleMaxMask.CompressTrueCount | src/jdk.incubator.vector/share/classes/jdk/incubator/vector/DoubleMaxVector.java:666-670 | compressing keeps the true count |
| DoubleMaxMask.LaneIsSet | src/jdk.incubator.vector/share/classes/jdk/incubator/vector/DoubleMaxVector.java:742-746 | throws IndexOutOfBoundsException exactly when `i` is outside `[0, length())`; otherwise returns lane `i` |
| DoubleMaxMask.ToLong | src/jdk.incubator.vector/share/classes/jdk/incubator/vector/DoubleMaxVector.java:730-736 | throws UnsupportedOperationException exactly when `length() > 64`; otherwise bit `i` of the long is lane `i`, and no bit at or above `VLENGTH` is set |
| DoubleMaxMask.ToLongHelper | src/jdk.incubator.vector/share/classes/jdk/incubator/vector/DoubleMaxVector.java:734-735 | the fallback packs lane `i` into bit `i` of the long, for up to 64 lanes |
| DoubleMaxMask.LaneBitsTest | src/jdk.incubator.vector/share/classes/jdk/incubator/vector/DoubleMaxVector.java:734-735 | reading bit `i` back from the packed lanes gives lane `i` |
| DoubleMaxMask.Cast | src/jdk.incubator.vector/share/classes/jdk/incubator/vector/DoubleMaxVector.java:635-645 | throws IllegalArgumentException exactly when the target lane count differs; otherwise the mask of the target species carries the same booleans |
| DoubleMaxMask.DefaultMaskCast | src/jdk.incubator.vector/share/classes/jdk/incubator/vector/DoubleMaxVector.java:626-631 | the same guard and the same lane-by-lane copy as `cast` |
| DoubleMaxShuffle.PartiallyWrapIndex | src/jdk.incubator.vector/share/classes/jdk/incubator/vector/DoubleMaxVector.java:932 | the result lies in `[-laneCount, laneCount)`, and an index already in `[0, laneCount)` is kept |
| DoubleMaxShuffle.IndicesInRange | src/jdk.incubator.vector/share/classes/jdk/incubator/vector/DoubleMaxVector.java:948-958 | returns true iff every index is in `[-length, length)`; otherwise throws AssertionError |
| DoubleMaxShuffle.FromLongs | src/jdk.incubator.vector/share/classes/jdk/incubator/vector/DoubleMaxVector.java:784-788 | the `(long[])` constructor keeps the indices, and they form a valid shuffle |
| DoubleMaxShuffle.PrepareFromArray | src/jdk.incubator.vector/share/classes/jdk/incubator/vector/DoubleMaxVector.java:928-936 | fails exactly when the window is out of bounds; otherwise gives `VLENGTH` in-range indices, with index `i` = `partiallyWrapIndex(indices[offset+i])` |
| DoubleMaxShuffle.PrepareFromFunction | src/jdk.incubator.vector/share/classes/jdk/incubator/vector/DoubleMaxVector.java:938-946 | gives `VLENGTH` in-range indices, with index `i` = `partiallyWrapIndex(f(i))` |
| DoubleMaxShuffle.FromIntArray | src/jdk.incubator.vector/share/classes/jdk/incubator/vector/DoubleMaxVector.java:790-792 | the `(int[], offset)` constructor gives a valid shuffle of the wrapped indices, or the exception of `prepare` |
| DoubleMaxShuffle.FromFunction | src/jdk.incubator.vector/share/classes/jdk/incubator/vector/DoubleMaxVector.java:794-796 | the `(IntUnaryOperator)` constructor gives a valid shuffle of the wrapped values of `f` |
| DoubleMaxShuffle.LaneSource | src/jdk.incubator.vector/share/classes/jdk/incubator/vector/DoubleMaxVector.java:835-837 | throws exactly when `i` is out of range; otherwise gives index `i` narrowed to an int, which is index `i` itself |
| DoubleMaxShuffle.LaneIsValid | src/jdk.incubator.vector/share/classes/jdk/incubator/vector/DoubleMaxVector.java:902-905 | lane `i` of the mask is set iff index `i` is non-negative |
| DoubleMaxShuffle.WrapIndexes | src/jdk.incubator.vector/share/classes/jdk/incubator/vector/DoubleMaxVector.java:917-926 | both paths (mask with `VLENGTH-1` when the length test passes, else add `VLENGTH` to negatives) give indices in `[0, VLENGTH)` equal to `((s % n) + n) % n` |
| DoubleMaxShuffle.LengthTestIsPowerOf2 | src/jdk.incubator.vector/share/classes/jdk/incubator/vector/DoubleMaxVector.java:919 | `(length() & (length() - 1)) == 0` holds iff the lane count is a power of two |
| DoubleMaxShuffle.MaskWraps | src/jdk.incubator.vector/share/classes/jdk/incubator/vector/DoubleMaxVector.java:920 | for a power-of-two lane count, `index & (VLENGTH-1)` on the 64-bit pattern adds `VLENGTH` to an exceptional index and keeps a valid one |
| DoubleMaxShuffle.WrapOneIsJavaRem | src/jdk.incubator.vector/share/classes/jdk/incubator/vector/DoubleMaxVector.java:922-923 | on `[-n, n)`, adding `n` to negatives equals Java's `((x % n) + n) % n` |
| DoubleMaxShuffle.WrapIndexesAllValid | src/jdk.incubator.vector/share/classes/jdk/incubator/vector/DoubleMaxVector.java:902-926 | after `wrapIndexes`, `laneIsValid` is the all-true mask |
| DoubleMaxShuffle.IntoArray | src/jdk.incubator.vector/share/classes/jdk/incubator/vector/DoubleMaxVector.java:841-868 | throws, leaving the array unchanged, exactly when `a[offset .. offset+VLENGTH)` is out of bounds. With one lane the exception is `ArrayIndexOutOfBoundsException`, otherwise `IndexOutOfBoundsException`. Otherwise sets `a[offset+i]` to `laneSource(i)` and leaves every other element unchanged |
| C1Constants.FloatBitsAsInt | src/hotspot/cpu/riscv/c1_LIRGenerator_riscv.cpp:117 | `jint_cast` of a float is zero iff its bit pattern is all zero |
| C1Constants.DoubleBitsAsLong | src/hotspot/cpu/riscv/c1_LIRGenerator_riscv.cpp:119 | `jlong_cast` of a double is zero iff its bit pattern is all zero |
| C1Constants.CanStoreAsConstant | src/hotspot/cpu/riscv/c1_LIRGenerator_riscv.cpp:109-122 | true exactly for int 0, long 0, the null object, and the all-zero float and double patterns |
| C1Constants.CanInlineAsConstant | src/hotspot/cpu/riscv/c1_LIRGenerator_riscv.cpp:124-141 | an int or long iff it lies in `[-2047, 2047]` (it and its negation are 12-bit immediates); the null object; a float or double iff it is +0.0 or -0.0; nothing else |
| C1Constants.CanInlineConst | src/hotspot/cpu/riscv/c1_LIRGenerator_riscv.cpp:143-155 | an int or long constant iff it lies in `[-2047, 2047]`; constants of other types never |
| C1Constants.InlineInvariantUnderNegation | src/hotspot/cpu/riscv/c1_LIRGenerator_riscv.cpp:124-155 | both overloads give the same answer for `v` and `-v`, negation wrapping around |
| C1Constants.InlineOverloadsAgree | src/hotspot/cpu/riscv/c1_LIRGenerator_riscv.cpp:124-155 | the `Value` and `LIR_Const` overloads agree on every int and long |
| C1Constants.StorableIsInlinable | src/hotspot/cpu/riscv/c1_LIRGenerator_riscv.cpp:109-141 | every constant that may be stored from the zero register may also be inlined |
| C1Constants.NegativeZeroInlinedNotStored | src/hotspot/cpu/riscv/c1_LIRGenerator_riscv.cpp:116-138 | -0.0 is inlined but not stored; apart from it, only non-zero ints and longs are inlined but not stored |
| C1Lir.Mirror | src/hotspot/cpu/riscv/c1_LIRGenerator_riscv.cpp:1127 | the mirrored condition holds of swapped operands exactly when the original holds of the originals |
| C1Lir.MirrorInvolution | src/hotspot/cpu/riscv/c1_LIRGenerator_riscv.cpp:1127 | mirroring twice gives the condition back |
| C1LirGenerator.LirGenerator.LoadItem | src/hotspot/cpu/riscv/c1_LIRGenerator_riscv.cpp:370 | `load_item` leaves a register as it is and moves a constant into one fresh register of its type |
| C1LirGenerator.LoadRuns | src/hotspot/cpu/riscv/c1_LIRGenerator_riscv.cpp:370 | after the load, the register holds the operand's value, and no older register and no compare state has changed |
| C1LirGenerator.ConstantIndexDisplacement | src/hotspot/cpu/riscv/c1_LIRGenerator_riscv.cpp:166-173 | the jlong `(index << shift) + disp` is congruent to the exact value modulo 2^64 |
| C1LirGenerator.FitsInt | src/hotspot/cpu/riscv/c1_LIRGenerator_riscv.cpp:174 | `(jlong)(jint)c == c` holds iff `c` lies in `[-2^31, 2^31)` |
| C1LirGenerator.ConstantDisplacementAddress | src/hotspot/cpu/riscv/c1_LIRGenerator_riscv.cpp:174-175 | base plus the folded displacement is the address `base + (index << shift) + disp` |
| C1LirGenerator.GenerateAddressCounterexample | src/hotspot/cpu/riscv/c1_LIRGenerator_riscv.cpp:174-179 | for int index 0x1000_0000, shift 3 and disp 16, the displacement does not fit an int, and (with base 0) `base + index` differs from the element's address |
| C1LirGenerator.LirGenerator.GenerateAddressAsWritten | src/hotspot/cpu/riscv/c1_LIRGenerator_riscv.cpp:161-184 | the code as written: fold when the displacement fits; otherwise move the bare index into a long register, and the address denotes `base + index` |
| C1LirGenerator.LirGenerator.GenerateAddress | src/hotspot/cpu/riscv/c1_LIRGenerator_riscv.cpp:161-184 | corrected: in every case, including a displacement that does not fit, the address denotes `base + (index << shift) + disp` |
| C1LirGenerator.ShiftAddMultiplies | src/hotspot/cpu/riscv/c1_LIRGenerator_riscv.cpp:237-240 | `(x << k) + x == x * c` in 32-bit arithmetic when `c - 1 == 2^k` |
| C1LirGenerator.ShiftSubMultiplies | src/hotspot/cpu/riscv/c1_LIRGenerator_riscv.cpp:241-244 | `(x << k) - x == x * c` in 32-bit arithmetic when `c + 1 == 2^k` |
| C1LirGenerator.StrengthReducedCodeMultiplies | src/hotspot/cpu/riscv/c1_LIRGenerator_riscv.cpp:237-244 | running the shift and the add (or sub) leaves `left * c`, wrapped to 32 bits, in `result` |
| C1LirGenerator.LirGenerator.StrengthReduceMultiply | src/hotspot/cpu/riscv/c1_LIRGenerator_riscv.cpp:235-248 | reduces exactly when `tmp` is valid, `0 < c < max_jint` and `c-1` or `c+1` is a power of two; then it appends the two instructions, which compute `left * c`; otherwise it emits nothing |
| C1LirGenerator.KeptImulConstantIsShiftOrReduced | src/hotspot/cpu/riscv/c1_LIRGenerator_riscv.cpp:485-492 | an unloaded imul constant is a power of two or one that strength reduction takes; on every machine state the single shift (power of two) or the shift-and-add/sub pair leaves `left * c`, wrapped to 32 bits, in the result register |
| C1LirGenerator.KeptDivisorNeedsNoCheck | src/hotspot/cpu/riscv/c1_LIRGenerator_riscv.cpp:372-390 | an unloaded divisor is a non-zero constant, so the emitted division has no branch to the division-by-zero stub and never ends there |
| C1LirGenerator.AddSubConstantRulesDisagree | src/hotspot/cpu/riscv/c1_LIRGenerator_riscv.cpp:473-480 | on every int constant, the iadd/isub rule keeps unloaded exactly the constants that the ladd/lsub rule loads |
| C1LirGenerator.LirGenerator.PrepareDivisor | src/hotspot/cpu/riscv/c1_LIRGenerator_riscv.cpp:372-390 | a positive power-of-two constant stays unloaded and anything else is loaded; the compare-and-branch to the stub follows unless the divisor is a non-zero constant |
| C1LirGenerator.LirGenerator.PrepareLongOperand | src/hotspot/cpu/riscv/c1_LIRGenerator_riscv.cpp:407-421 | a ladd/lsub constant stays unloaded iff it (for lsub, its negation) is a 12-bit immediate; an lmul constant is always loaded |
| C1LirGenerator.LirGenerator.PrepareIntOperand | src/hotspot/cpu/riscv/c1_LIRGenerator_riscv.cpp:473-495 | an iadd/isub constant stays unloaded iff it (for isub, its negation) is NOT a 12-bit immediate; an imul constant iff `0 < c < max_jint` and `c`, `c-1` or `c+1` is a power of two |
| C1LirGenerator.LirGenerator.PrepareIntRightAndResult | src/hotspot/cpu/riscv/c1_LIRGenerator_riscv.cpp:442-464 | for idiv/irem, the result register is the first fresh one and the divisor is prepared after it; otherwise the result is the last register allocated, after the operand's load. States the right operand, the code appended and the new register counter |
| C1LirGenerator.ArithmeticOpsRun | src/hotspot/cpu/riscv/c1_LIRGenerator_riscv.cpp:386-398 | the emitted code never divides by zero: a zero divisor reaches the division-by-zero stub, and otherwise the result register receives the operation's value narrowed to its width |
| C1LirGenerator.LirGenerator.DoArithmeticOpLong | src/hotspot/cpu/riscv/c1_LIRGenerator_riscv.cpp:362-425 | appends the loads, the zero check and the operation as decided above; the result is the register allocated after both loads, and the last one allocated; on every machine state the code computes the long result or jumps to the stub |
| C1LirGenerator.LirGenerator.DoArithmeticOpInt | src/hotspot/cpu/riscv/c1_LIRGenerator_riscv.cpp:428-499 | the same for ints, with the int operand rules and the result wrapped to 32 bits; for idiv/irem the result register comes right after the left operand's load, before the divisor's; the new register counter is stated exactly |
| C1LirGenerator.MirroredLongConditionIsValid | src/hotspot/cpu/riscv/c1_LIRGenerator_riscv.cpp:1123-1157 | on longs, no compare or branch that `do_If` emits uses `gtr` or `leq`; for a signed condition they use `eql`, `neq`, `lss` or `geq` |
| C1LirGenerator.IfOpsRun | src/hotspot/cpu/riscv/c1_LIRGenerator_riscv.cpp:1133-1159 | the loads, compare, branch and jump go to `tsux` iff the condition holds of the operands, else to `fsux` |
| C1LirGenerator.DoIfOpsRun | src/hotspot/cpu/riscv/c1_LIRGenerator_riscv.cpp:1123-1159 | with or without the mirroring, the code goes to `tsux` iff the ORIGINAL condition holds of the original operands |
| C1LirGenerator.LirGenerator.DoIf | src/hotspot/cpu/riscv/c1_LIRGenerator_riscv.cpp:1110-1160 | appends the code for the possibly mirrored compare, allocating one register per constant operand; on every machine state it branches as the original condition says |

## Left out

- The delegating vector operations of `DoubleMaxVector` are not modelled. These include lanewise arithmetic, reductions, comparisons, blend, slice, rearrange, selectFrom, shape conversions, and the `fromArray0`/`intoArray0`/`MemorySegment` accesses, including the shuffle's `intoMemorySegment`. They call templates in `DoubleVector` and `AbstractVector`, which are not part of this model, and most of them need IEEE-754 arithmetic.
- No lane's double value is ever interpreted: lanes are raw bit patterns, and signalling-NaN canonicalisation is not modelled.
- The `VectorSupport` intrinsics are modelled by their fallback lambdas. The compiled intrinsic is assumed to agree with its fallback.
- The static initialiser, the `VSPECIES`/`IOTA` constants, `bitsToShuffle`, `vspecies`, `toVector`, `Shuffle.rearrange` and `indexPartiallyInUpperRange` are not modelled. They only delegate or build constants.
- DoubleMaxShuffle.WrapIndexes / LaneSource / LaneIsValid: `toBitsVector()` and `LongMaxVector` are not part of this model. The model assumes two things. First, lane `i` of `toBitsVector()` is index `i` of the shuffle. Second, `v.toShuffle(vspecies(), false)` (line 925) keeps indices already in `[0, VLENGTH)` unchanged. `lanewise(AND)`, `lanewise(ADD)`, `blend` and `compare(LT/GE)` are modelled lane by lane on the long indices. The range property of `WrapIndexes` rests on both assumptions.
- DoubleMaxShuffle.FromLongs: the constructor's `assert`s (lines 786-787) become its `requires`. The AssertionError they raise under `-ea` on a wrong length or an out-of-range index is not modelled, and neither is the invalid shuffle built without `-ea`. The callers that are modelled (the two `prepare`s) are proved to meet the `requires`.
- DoubleMaxMask.And / Or / Xor: `Objects.requireNonNull(mask)` and the `(DoubleMaxMask)mask` cast (lines 678-679, 688-689, 698-699) are not modelled. The argument is always a non-null mask of this species, so the NullPointerException and ClassCastException paths are left out.
- The lane-count asserts of the shuffle's static block become the type of `VLENGTH` (`0 < VLENGTH < 2^31`).
- `trueCount`, `firstTrue`, `lastTrue`, `anyTrue` and `allTrue` call helpers (`trueCountHelper` and others) that are not part of this model. Only `trueCount` is modelled, as the number of set lanes (`DoubleMaxMask.TrueCount`), because `compress` uses it.
- DoubleMaxShuffle.PartiallyWrapIndex: the JDK helper is not part of this model. The function has a body that meets the range contract the class relies on, and no property depends on the body beyond that contract.
- DoubleMaxMask.ToLongHelper: `toLongHelper` is not part of this model. It is given the packing of lane `i` into bit `i` that `toLong` promises.
- DoubleMaxMask.Cast: `maskFactory(...).check(dsp)` of the target species is modelled as a mask of that species carrying the same booleans. Species other than their element type and lane count are not modelled.
- DoubleMaxShuffle.IntoArray: the 2/4/8/16-lane paths go through `convertShape(L2I, ...)` and an `IntVector` store, which are not part of this model. They are modelled by their effect: a range check, then `(int)` of each index stored in place. `offset + i` is not checked for int overflow, since the range check rules out an overflowing offset.
- A null array passed to a mask or shuffle constructor, or to `intoArray`, is not modelled: Dafny arrays are never null.
- `Assembler::is_simm12` is not part of this model. `IsSimm12` is the signed 12-bit range of the RISC-V I-type immediate.
- `LIRItem::load_item`, `dont_load_item`, `rlock_result`, `arithmetic_op_long`/`arithmetic_op_int` and the LIR assembler are not part of this model. A value is either a virtual register or an int/long constant; stack and cached operands are not modelled. `load_item` is modelled by `C1LirGenerator.LirGenerator.LoadItem`: a constant is moved into a fresh register, a register is used as it is. `arithmetic_op_*` is modelled as emitting one arithmetic instruction.
- `LIRItem::load_nonconstant` (src/hotspot/cpu/riscv/c1_LIRGenerator_riscv.cpp:55-62) is modelled inline in `C1LirGenerator.LirGenerator.PrepareIntOperand`, where it applies: a constant operand is kept, and a register operand is used as it is.
- C1LirGenerator.LirGenerator.DoArithmeticOpInt: the swap of a commutative operation's operands when the left one is on the stack (lines 433-439) is not modelled, because stack operands are not. The extra temporary register passed to `arithmetic_op_int` for `imul` is not modelled either.
- C1LirGenerator.LirGenerator.DoIf: `set_destroys_register`, the safepoint, the backedge counter, branch profiling and `move_to_phi` do not change which branch is taken, so they are left out. Float and double compares, which branch to `usux` on unordered operands, are not modelled.
- `increment_counter`, `do_NewMultiArray` and the remaining visitors of `c1_LIRGenerator_riscv.cpp` are not modelled. These cover monitors, allocation, type checks, arraycopy, CRC32, the libm and FMA calls, atomics, volatile accesses, the float arithmetic and the conversions. They emit code through assemblers and register maps that are not part of this model.

## Findings

| source | as written | input that shows it | evidently intended | confidence | as-written member | corrected member |
|---|---|---|---|---|---|---|
| src/hotspot/cpu/riscv/c1_LIRGenerator_riscv.cpp:176-179 | when the folded displacement `(index << shift) + disp` does not fit a jint, `generate_address` moves the bare constant index into `tmp` and returns `LIR_Address(base, tmp)`, whose address is `base + index`: the shift and the displacement are lost | a `long[]` element at constant int index 0x1000_0000 (shift 3, header 16): the displacement is 0x8000_0010, but the address used is `base + 0x1000_0000` | move the folded displacement `c` into `tmp`, so the address is `base + c` | medium, not executed | C1LirGenerator.LirGenerator.GenerateAddressAsWritten | C1LirGenerator.LirGenerator.GenerateAddress |

/**
 * DoubleMaxMask: an immutable VLENGTH-wide vector of booleans. Construction
 * copies from a caller's array or fills one value; the lane-wise operations
 * run the `uOp`/`bOp` loops, which every VectorSupport intrinsic here falls
 * back to.
 */
module DoubleMaxMask {
  import opened Bits
  import opened Outcomes
  import opened DoubleMaxVector

  /** A mask value: its payload array, one boolean per lane. */
  datatype Mask = Mask(bits: seq<bool>) {
    predicate Valid() {
      |bits| == VLENGTH
    }
  }

  /** Element types of the species a mask can be cast to. */
  datatype ElementType = Byte | Short | Int | Long | Float | Double

  /** A vector species: element type and lane count. */
  datatype Species = Species(elementType: ElementType, laneCount: int)

  /** A mask of some other species, as `cast` produces. */
  datatype SpeciesMask = SpeciesMask(species: Species, bits: seq<bool>)

  // ---------------------------------------------------------------- construction

  /**
   * `prepare(boolean[] bits, int offset)`: a fresh array of VLENGTH lanes
   * whose lane `i` is `bits[offset + i]`. The first out-of-range read throws,
   * so the copy succeeds exactly when `[offset, offset + VLENGTH)` lies in `bits`.
   */
  method PrepareFromArray(bits: array<bool>, offset: int) returns (r: Outcome<seq<bool>>)
    ensures r.Throws? <==> offset < 0 || offset + VLENGTH > bits.Length
    ensures r.Throws? ==> r.error == ArrayIndexOutOfBounds
    ensures r.Ok? ==> |r.value| == VLENGTH
    ensures r.Ok? ==> forall i :: 0 <= i < VLENGTH ==> r.value[i] == bits[offset + i]
  {
    var newBits := new bool[VLENGTH];
    var i := 0;
    while i < newBits.Length
      invariant 0 <= i <= VLENGTH
      invariant i > 0 ==> 0 <= offset && offset + i <= bits.Length
      invariant forall k :: 0 <= k < i ==> newBits[k] == bits[offset + k]
    {
      if offset + i < 0 || offset + i >= bits.Length {
        return Throws(ArrayIndexOutOfBounds);
      }
      newBits[i] := bits[offset + i];
      i := i + 1;
    }
    return Ok(newBits[..]);
  }

  /** The specification of `prepare(boolean val)`: every lane holds `val`. */
  function Filled(val: bool): (m: Mask)
    ensures m.Valid()
    ensures forall i :: 0 <= i < VLENGTH ==> m.bits[i] == val
  {
    Mask(seq(VLENGTH, _ => val))
  }

  /** `prepare(boolean val)`: a fresh array of VLENGTH lanes filled with `val` (Arrays.fill). */
  method PrepareFill(val: bool) returns (r: seq<bool>)
    ensures Mask(r) == Filled(val)
  {
    var bits := new bool[VLENGTH];
    var i := 0;
    while i < bits.Length
      invariant 0 <= i <= bits.Length
      invariant forall k :: 0 <= k < i ==> bits[k] == val
    {
      bits[i] := val;
      i := i + 1;
    }
    r := bits[..];
  }

  /** `new DoubleMaxMask(bits, offset)`. */
  method FromArrayAt(bits: array<bool>, offset: int) returns (r: Outcome<Mask>)
    ensures r.Throws? <==> offset < 0 || offset + VLENGTH > bits.Length
    ensures r.Ok? ==> r.value.Valid()
    ensures r.Ok? ==> forall i :: 0 <= i < VLENGTH ==> r.value.bits[i] == bits[offset + i]
  {
    var p := PrepareFromArray(bits, offset);
    match p
    case Ok(b) => return Ok(Mask(b));
    case Throws(e) => return Throws(e);
  }

  /** `new DoubleMaxMask(bits)`, that is `new DoubleMaxMask(bits, 0)`. */
  method FromArray(bits: array<bool>) returns (r: Outcome<Mask>)
    ensures r.Throws? <==> bits.Length < VLENGTH
    ensures r.Ok? ==> r.value.Valid() && r.value.bits == bits[..VLENGTH]
  {
    r := FromArrayAt(bits, 0);
  }

  /** `new DoubleMaxMask(val)`. */
  method FromValue(val: bool) returns (r: Mask)
    ensures r.Valid()
    ensures forall i :: 0 <= i < VLENGTH ==> r.bits[i] == val
  {
    var b := PrepareFill(val);
    r := Mask(b);
  }

  /**
   * `maskAll(bit)`, by the fallback of VectorSupport.fromBitsCoerced: the
   * broadcast long is -1 or 0, and a non-zero one selects TRUE_MASK.
   */
  function MaskAll(bit: bool): (m: Mask)
    ensures m.Valid()
    ensures forall i :: 0 <= i < VLENGTH ==> m.bits[i] == bit
  {
    var v: Int64 := if bit then -1 else 0;
    if v != 0 then Filled(true) else Filled(false)
  }

  // ---------------------------------------------------------------- lane-wise operations

  /** The mask the `uOp` loop builds: lane `i` is `f(i, m[i])`. */
  function Lanewise1(m: Mask, f: (int, bool) -> bool): (r: Mask)
    requires m.Valid()
    ensures r.Valid()
    ensures forall i :: 0 <= i < VLENGTH ==> r.bits[i] == f(i, m.bits[i])
  {
    Mask(seq(VLENGTH, i requires 0 <= i < VLENGTH => f(i, m.bits[i])))
  }

  /** The mask the `bOp` loop builds: lane `i` is `f(i, a[i], b[i])`. */
  function Lanewise2(a: Mask, b: Mask, f: (int, bool, bool) -> bool): (r: Mask)
    requires a.Valid() && b.Valid()
    ensures r.Valid()
    ensures forall i :: 0 <= i < VLENGTH ==> r.bits[i] == f(i, a.bits[i], b.bits[i])
  {
    Mask(seq(VLENGTH, i requires 0 <= i < VLENGTH => f(i, a.bits[i], b.bits[i])))
  }

  /** `uOp(f)`: fills a fresh array lane by lane; the receiver is a value and stays as it was. */
  method UOp(m: Mask, f: (int, bool) -> bool) returns (r: Mask)
    requires m.Valid()
    ensures r == Lanewise1(m, f)
  {
    var res := new bool[VLENGTH];
    var i := 0;
    while i < res.Length
      invariant 0 <= i <= res.Length
      invariant forall k :: 0 <= k < i ==> res[k] == f(k, m.bits[k])
    {
      res[i] := f(i, m.bits[i]);
      i := i + 1;
    }
    r := Mask(res[..]);
  }

  /** `bOp(m, f)`: fills a fresh array lane by lane from both operands. */
  method BOp(a: Mask, b: Mask, f: (int, bool, bool) -> bool) returns (r: Mask)
    requires a.Valid() && b.Valid()
    ensures r == Lanewise2(a, b, f)
  {
    var res := new bool[VLENGTH];
    var i := 0;
    while i < res.Length
      invariant 0 <= i <= res.Length
      invariant forall k :: 0 <= k < i ==> res[k] == f(k, a.bits[k], b.bits[k])
    {
      res[i] := f(i, a.bits[i], b.bits[i]);
      i := i + 1;
    }
    r := Mask(res[..]);
  }

  /** `and(m)`: the fallback `bOp(m, (i, a, b) -> a & b)`. */
  function And(a: Mask, b: Mask): (r: Mask)
    requires a.Valid() && b.Valid()
    ensures r.Valid()
    ensures forall i :: 0 <= i < VLENGTH ==> (r.bits[i] <==> a.bits[i] && b.bits[i])
  {
    Lanewise2(a, b, (i, x, y) => x && y)
  }

  /** `or(m)`: the fallback `bOp(m, (i, a, b) -> a | b)`. */
  function Or(a: Mask, b: Mask): (r: Mask)
    requires a.Valid() && b.Valid()
    ensures r.Valid()
    ensures forall i :: 0 <= i < VLENGTH ==> (r.bits[i] <==> a.bits[i] || b.bits[i])
  {
    Lanewise2(a, b, (i, x, y) => x || y)
  }

  /** `xor(m)`: the fallback `bOp(m, (i, a, b) -> a ^ b)`. */
  function Xor(a: Mask, b: Mask): (r: Mask)
    requires a.Valid() && b.Valid()
    ensures r.Valid()
    ensures forall i :: 0 <= i < VLENGTH ==> (r.bits[i] <==> a.bits[i] != b.bits[i])
  {
    Lanewise2(a, b, (i, x, y) => x != y)
  }

  /** `not()`: `xor(maskAll(true))`, so every lane is negated. */
  function Not(m: Mask): (r: Mask)
    requires m.Valid()
    ensures r.Valid()
    ensures forall i :: 0 <= i < VLENGTH ==> r.bits[i] == !m.bits[i]
  {
    Xor(m, MaskAll(true))
  }

  /** Negating twice gives the mask back. */
  lemma NotNot(m: Mask)
    requires m.Valid()
    ensures Not(Not(m)) == m
  {
    assert Not(Not(m)).bits == m.bits;
  }

  // ---------------------------------------------------------------- queries

  /** The number of set lanes of a boolean sequence (what trueCountHelper counts). */
  function Count(s: seq<bool>): (n: nat)
    ensures n <= |s|
    ensures n == 0 <==> forall i :: 0 <= i < |s| ==> !s[i]
    ensures n == |s| <==> forall i :: 0 <= i < |s| ==> s[i]
  {
    if |s| == 0 then 0
    else
      var init := s[..|s| - 1];
      assert forall i :: 0 <= i < |init| ==> init[i] == s[i];
      Count(init) + (if s[|s| - 1] then 1 else 0)
  }

  /**
   * `trueCount()`, by the fallback `trueCountHelper(bits)`: the number of set
   * lanes, which is 0 exactly for the all-false mask and VLENGTH exactly for
   * the all-true one.
   */
  function TrueCount(m: Mask): (n: nat)
    requires m.Valid()
    ensures n <= VLENGTH
    ensures n == 0 <==> forall i :: 0 <= i < VLENGTH ==> !m.bits[i]
    ensures n == VLENGTH <==> forall i :: 0 <= i < VLENGTH ==> m.bits[i]
  {
    Count(m.bits)
  }

  /** Every lane is counted once, either in `s` or in its lane-wise negation. */
  lemma {:induction false} CountComplement(s: seq<bool>, t: seq<bool>)
    requires |s| == |t|
    requires forall i :: 0 <= i < |s| ==> t[i] == !s[i]
    ensures Count(s) + Count(t) == |s|
  {
    if |s| > 0 {
      CountComplement(s[..|s| - 1], t[..|t| - 1]);
    }
  }

  /** A mask and its negation split the lanes: trueCount(m) + trueCount(m.not()) == VLENGTH. */
  lemma TrueCountNot(m: Mask)
    requires m.Valid()
    ensures TrueCount(m) + TrueCount(Not(m)) == VLENGTH
  {
    CountComplement(m.bits, Not(m).bits);
  }

  /**
   * `compress()`, by its fallback `iota().compare(LT, trueCount())`: lane `i`
   * is set exactly when `i < trueCount()`, so the set lanes are packed at the
   * low end.
   */
  function Compress(m: Mask): (r: Mask)
    requires m.Valid()
    ensures r.Valid()
    ensures forall i :: 0 <= i < VLENGTH ==> (r.bits[i] <==> i < TrueCount(m))
    ensures forall i, j :: 0 <= i <= j < VLENGTH && r.bits[j] ==> r.bits[i]
  {
    var t := TrueCount(m);
    Mask(seq(VLENGTH, i => i < t))
  }

  /** A sequence whose first `t` lanes are set and the rest clear counts `t`. */
  lemma {:induction false} CountPrefix(s: seq<bool>, t: nat)
    requires t <= |s|
    requires forall i :: 0 <= i < |s| ==> (s[i] <==> i < t)
    ensures Count(s) == t
  {
    if |s| > 0 {
      var init := s[..|s| - 1];
      if t == |s| {
        CountPrefix(init, t - 1);
      } else {
        CountPrefix(init, t);
      }
    }
  }

  /** `compress()` keeps the number of set lanes. */
  lemma CompressTrueCount(m: Mask)
    requires m.Valid()
    ensures TrueCount(Compress(m)) == TrueCount(m)
  {
    CountPrefix(Compress(m).bits, TrueCount(m));
  }

  /**
   * `laneIsSet(i)`: Objects.checkIndex rejects `i` outside `[0, length())`;
   * otherwise the fallback of VectorSupport.extract yields 1 or 0 for the lane.
   */
  function LaneIsSet(m: Mask, i: int): (r: Outcome<bool>)
    requires m.Valid()
    ensures r.Throws? <==> i < 0 || i >= VLENGTH
    ensures r.Throws? ==> r.error == IndexOutOfBounds
    ensures r.Ok? ==> r.value == m.bits[i]
  {
    if i < 0 || i >= VLENGTH then Throws(IndexOutOfBounds)
    else
      var bit: Int64 := if m.bits[i] then 1 else 0;
      Ok(bit == 1)
  }

  /** The lanes of `s` as the bits of a natural number, lane 0 least significant. */
  function LaneBits(s: seq<bool>): (u: nat)
    ensures u < Pow2(|s|)
  {
    if |s| == 0 then 0 else (if s[0] then 1 else 0) + 2 * LaneBits(s[1..])
  }

  /** Bit `i` of a natural number. */
  function TestBit(u: nat, i: nat): bool
  {
    if i == 0 then u % 2 == 1 else TestBit(u / 2, i - 1)
  }

  /** Bit `i` of LaneBits(s) is lane `i` of `s`. */
  lemma {:induction false} LaneBitsTest(s: seq<bool>, i: nat)
    requires i < |s|
    ensures TestBit(LaneBits(s), i) == s[i]
  {
    if i > 0 {
      LaneBitsTest(s[1..], i - 1);
    }
  }

  /**
   * `toLong()`: UnsupportedOperationException when the mask has more than
   * 64 lanes; otherwise the fallback `toLongHelper(bits)`, whose bit `i` is
   * lane `i` and whose bits from VLENGTH up are clear.
   */
  function ToLong(m: Mask): (r: Outcome<Int64>)
    requires m.Valid()
    ensures r.Throws? <==> VLENGTH > 64
    ensures r.Throws? ==> r.error == UnsupportedOperation
    ensures r.Ok? ==> forall i :: 0 <= i < VLENGTH ==> TestBit(Unsigned64(r.value), i) == m.bits[i]
    ensures r.Ok? ==> Unsigned64(r.value) < Pow2(VLENGTH)
  {
    if VLENGTH > 64 then Throws(UnsupportedOperation)
    else Ok(ToLongHelper(m.bits))
  }

  /** `toLongHelper(bits)`: the lanes packed into a long, lane 0 in bit 0. */
  function ToLongHelper(bits: seq<bool>): (r: Int64)
    requires |bits| <= 64
    ensures Unsigned64(r) == LaneBits(bits)
    ensures forall i :: 0 <= i < |bits| ==> TestBit(Unsigned64(r), i) == bits[i]
  {
    var u := LaneBits(bits);
    LaneBitsFitLong(bits);
    Unsigned64Wrap(u);
    forall i | 0 <= i < |bits| ensures TestBit(u, i) == bits[i] {
      LaneBitsTest(bits, i);
    }
    Wrap64(u)
  }

  /** At most 64 lanes fit in the bits of a long. */
  lemma LaneBitsFitLong(bits: seq<bool>)
    requires |bits| <= 64
    ensures LaneBits(bits) < TWO_64
  {
    Pow2Widths();
    Pow2Add(|bits|, 64 - |bits|);
    MulAtLeast(Pow2(|bits|), Pow2(64 - |bits|));
  }

  // ---------------------------------------------------------------- cast

  /**
   * `cast(dsp)`: IllegalArgumentException when the target species has another
   * lane count; otherwise the fallback of VectorSupport.convert,
   * `s.maskFactory(m.toArray()).check(s)`: the same booleans in the target species.
   */
  function Cast(m: Mask, dsp: Species): (r: Outcome<SpeciesMask>)
    requires m.Valid()
    ensures r.Throws? <==> dsp.laneCount != VLENGTH
    ensures r.Throws? ==> r.error == IllegalArgument
    ensures r.Ok? ==> r.value.species == dsp && r.value.bits == m.bits
    ensures r.Ok? ==> |r.value.bits| == dsp.laneCount
  {
    if VLENGTH != dsp.laneCount then Throws(IllegalArgument)
    else Ok(SpeciesMask(dsp, m.bits))
  }

  /** `defaultMaskCast(dsp)`: the same check, then the booleans copied into the target species. */
  function DefaultMaskCast(m: Mask, dsp: Species): (r: Outcome<SpeciesMask>)
    requires m.Valid()
    ensures r.Throws? <==> dsp.laneCount != VLENGTH
    ensures r.Throws? ==> r.error == IllegalArgument
    ensures r.Ok? ==> r.value.species == dsp && |r.value.bits| == dsp.laneCount
    ensures r.Ok? ==> forall i :: 0 <= i < VLENGTH ==> r.value.bits[i] == m.bits[i]
  {
    if VLENGTH != dsp.laneCount then Throws(IllegalArgument)
    else
      var maskArray := m.bits;
      Ok(SpeciesMask(dsp, maskArray))
  }
}

/**
 * DoubleMaxShuffle: an immutable vector of VLENGTH long indices. An index in
 * `[0, VLENGTH)` names a source lane; one in `[-VLENGTH, 0)` is an
 * "exceptional" lane, the partially wrapped encoding of an out-of-range index.
 */
module DoubleMaxShuffle {
  import opened Bits
  import opened Outcomes
  import opened DoubleMaxVector
  import DoubleMaxMask

  /** A shuffle value: its payload array of long indices. */
  datatype Shuffle = Shuffle(indices: seq<int>) {
    /** What the constructor asserts: VLENGTH indices, each in `[-VLENGTH, VLENGTH)`. */
    predicate Valid() {
      |indices| == VLENGTH && InRange(indices, VLENGTH)
    }
  }

  /** Every index lies in `[-length, length)`. */
  predicate InRange(indices: seq<int>, length: int)
  {
    forall k :: 0 <= k < |indices| ==> -length <= indices[k] < length
  }

  // ---------------------------------------------------------------- construction

  /**
   * `partiallyWrapIndex(index, laneCount)`, a helper not shown with the class.
   * The class relies only on its range: the result is a valid index or an
   * exceptional one, and an index already valid is kept. The body is one
   * function meeting that contract: the floor remainder, shifted down by
   * `laneCount` when it differs from the index.
   */
  function PartiallyWrapIndex(index: Int32, laneCount: LaneCount): (r: Int32)
    ensures -(laneCount as int) <= r < laneCount
    ensures 0 <= index < laneCount ==> r == index
  {
    var n: int := laneCount;
    var wrapped := index % n;
    ModOfSmall(index, n);
    if wrapped == index then wrapped else wrapped - n
  }

  /**
   * `indicesInRange(indices)`: walks the indices and throws AssertionError at
   * the first one outside `[-length, length)`; returns true otherwise.
   */
  method IndicesInRange(indices: seq<int>) returns (r: Outcome<bool>)
    ensures r.Ok? <==> InRange(indices, |indices|)
    ensures r.Ok? ==> r.value
    ensures r.Throws? ==> r.error == AssertionFailed
  {
    var length := |indices|;
    var k := 0;
    while k < |indices|
      invariant 0 <= k <= |indices|
      invariant InRange(indices[..k], length)
    {
      var si := indices[k];
      if si >= length || si < -length {
        return Throws(AssertionFailed);
      }
      k := k + 1;
    }
    assert indices[..k] == indices;
    return Ok(true);
  }

  /**
   * `new DoubleMaxShuffle(long[] indices)`. Its two assertions are what every
   * caller must guarantee: VLENGTH indices, all in range.
   */
  method FromLongs(indices: seq<int>) returns (s: Shuffle)
    requires |indices| == VLENGTH && InRange(indices, VLENGTH)
    ensures s.Valid() && s.indices == indices
  {
    var inRange := IndicesInRange(indices);
    assert inRange == Ok(true);
    s := Shuffle(indices);
  }

  /**
   * `prepare(int[] indices, int offset)`: lane `i` is
   * `partiallyWrapIndex(indices[offset + i], VLENGTH)` widened to long; a read
   * outside `indices` throws.
   */
  method PrepareFromArray(indices: array<Int32>, offset: int) returns (r: Outcome<seq<int>>)
    ensures r.Throws? <==> offset < 0 || offset + VLENGTH > indices.Length
    ensures r.Throws? ==> r.error == ArrayIndexOutOfBounds
    ensures r.Ok? ==> |r.value| == VLENGTH && InRange(r.value, VLENGTH)
    ensures r.Ok? ==> forall i :: 0 <= i < VLENGTH ==> r.value[i] == PartiallyWrapIndex(indices[offset + i], VLENGTH)
  {
    var a := new int[VLENGTH];
    var i := 0;
    while i < VLENGTH
      invariant 0 <= i <= VLENGTH
      invariant i > 0 ==> 0 <= offset && offset + i <= indices.Length
      invariant forall k :: 0 <= k < i ==> a[k] == PartiallyWrapIndex(indices[offset + k], VLENGTH)
    {
      if offset + i < 0 || offset + i >= indices.Length {
        return Throws(ArrayIndexOutOfBounds);
      }
      var si := indices[offset + i];
      si := PartiallyWrapIndex(si, VLENGTH);
      a[i] := si;
      i := i + 1;
    }
    return Ok(a[..]);
  }

  /** `prepare(IntUnaryOperator f)`: lane `i` is `partiallyWrapIndex(f(i), VLENGTH)`. */
  method PrepareFromFunction(f: int -> Int32) returns (r: seq<int>)
    ensures |r| == VLENGTH && InRange(r, VLENGTH)
    ensures forall i :: 0 <= i < VLENGTH ==> r[i] == PartiallyWrapIndex(f(i), VLENGTH)
  {
    var a := new int[VLENGTH];
    var i := 0;
    while i < VLENGTH
      invariant 0 <= i <= VLENGTH
      invariant forall k :: 0 <= k < i ==> a[k] == PartiallyWrapIndex(f(k), VLENGTH)
    {
      var si := f(i);
      si := PartiallyWrapIndex(si, VLENGTH);
      a[i] := si;
      i := i + 1;
    }
    r := a[..];
  }

  /** `new DoubleMaxShuffle(int[] indices, int i)`. */
  method FromIntArray(indices: array<Int32>, offset: int) returns (r: Outcome<Shuffle>)
    ensures r.Throws? <==> offset < 0 || offset + VLENGTH > indices.Length
    ensures r.Ok? ==> r.value.Valid()
    ensures r.Ok? ==> forall i :: 0 <= i < VLENGTH ==> r.value.indices[i] == PartiallyWrapIndex(indices[offset + i], VLENGTH)
  {
    var p := PrepareFromArray(indices, offset);
    match p
    case Throws(e) => return Throws(e);
    case Ok(a) =>
      var s := FromLongs(a);
      return Ok(s);
  }

  /** `new DoubleMaxShuffle(IntUnaryOperator fn)`. */
  method FromFunction(f: int -> Int32) returns (s: Shuffle)
    ensures s.Valid()
    ensures forall i :: 0 <= i < VLENGTH ==> s.indices[i] == PartiallyWrapIndex(f(i), VLENGTH)
  {
    var a := PrepareFromFunction(f);
    s := FromLongs(a);
  }

  // ---------------------------------------------------------------- queries

  /**
   * `laneSource(i)`: `(int) toBitsVector().lane(i)`. The lane read throws
   * IllegalArgumentException outside `[0, VLENGTH)`; the narrowing to int
   * loses nothing, because every index fits.
   */
  function LaneSource(s: Shuffle, i: int): (r: Outcome<Int32>)
    requires s.Valid()
    ensures r.Throws? <==> i < 0 || i >= VLENGTH
    ensures r.Throws? ==> r.error == IllegalArgument
    ensures r.Ok? ==> r.value == s.indices[i]
  {
    if i < 0 || i >= VLENGTH then Throws(IllegalArgument)
    else Ok(Wrap32(s.indices[i]))
  }

  /**
   * `laneIsValid()`: `toBitsVector().compare(GE, 0).cast(vspecies())`; lane
   * `i` is set exactly when index `i` is not exceptional.
   */
  function LaneIsValid(s: Shuffle): (m: DoubleMaxMask.Mask)
    requires s.Valid()
    ensures m.Valid()
    ensures forall i :: 0 <= i < VLENGTH ==> (m.bits[i] <==> 0 <= s.indices[i])
  {
    DoubleMaxMask.Mask(seq(VLENGTH, i requires 0 <= i < VLENGTH => s.indices[i] >= 0))
  }

  // ---------------------------------------------------------------- wrapIndexes

  /** The power-of-two test `(length() & (length() - 1)) == 0` on Java ints. */
  predicate LengthIsPowerOf2Test()
  {
    AndInt(VLENGTH, VLENGTH - 1) == 0
  }

  /**
   * `wrapIndexes()`. When the lane count is a power of two the indices are
   * masked with `VLENGTH - 1`; otherwise VLENGTH is added to the negative
   * ones (`blend(v + VLENGTH, v < 0)`). Either way every index becomes valid
   * and equals the Java expression `((s % n) + n) % n`.
   */
  function WrapIndexes(s: Shuffle): (r: Shuffle)
    requires s.Valid()
    ensures r.Valid()
    ensures forall i :: 0 <= i < VLENGTH ==> 0 <= r.indices[i] < VLENGTH
    ensures forall i :: 0 <= i < VLENGTH ==>
      r.indices[i] == JavaRem(JavaRem(s.indices[i], VLENGTH) + VLENGTH, VLENGTH)
  {
    var v := s.indices;
    var n := VLENGTH;
    if LengthIsPowerOf2Test() then
      LengthTestIsPowerOf2();
      var w := seq(n, i requires 0 <= i < n => AndLong(v[i], n - 1));
      assert forall i :: 0 <= i < n ==> w[i] == WrapToRange(v[i]) by {
        forall i | 0 <= i < n ensures w[i] == WrapToRange(v[i]) {
          MaskWraps(v[i]);
        }
      }
      WrapToRangeIsJavaRem(v);
      Shuffle(w)
    else
      var plus := seq(n, i requires 0 <= i < n => Wrap64(v[i] + n));
      var w := seq(n, i requires 0 <= i < n => if v[i] < 0 then plus[i] else v[i]);
      assert forall i :: 0 <= i < n ==> w[i] == WrapToRange(v[i]);
      WrapToRangeIsJavaRem(v);
      Shuffle(w)
  }

  /** The one valid index congruent to an index in `[-VLENGTH, VLENGTH)`. */
  function WrapToRange(x: int): int
  {
    if x < 0 then x + VLENGTH else x
  }

  /** On `[-n, n)`, adding n to negatives is Java's `((x % n) + n) % n`. */
  lemma WrapToRangeIsJavaRem(v: seq<int>)
    requires InRange(v, VLENGTH)
    ensures forall i :: 0 <= i < |v| ==>
      WrapToRange(v[i]) == JavaRem(JavaRem(v[i], VLENGTH) + VLENGTH, VLENGTH)
  {
    forall i | 0 <= i < |v|
      ensures WrapToRange(v[i]) == JavaRem(JavaRem(v[i], VLENGTH) + VLENGTH, VLENGTH)
    {
      WrapOneIsJavaRem(v[i]);
    }
  }

  lemma WrapOneIsJavaRem(x: int)
    requires -(VLENGTH as int) <= x < VLENGTH
    ensures WrapToRange(x) == JavaRem(JavaRem(x, VLENGTH) + VLENGTH, VLENGTH)
  {
    var n: int := VLENGTH;
    if x >= 0 {
      ModUnique(x, n, 0, x);
      ModUnique(x + n, n, 1, x);
    } else if x == -n {
      ModUnique(n, n, 1, 0);
    } else {
      ModUnique(-x, n, 0, -x);
      ModUnique(x + n, n, 0, x + n);
    }
  }

  /** The Java int test `(n & (n - 1)) == 0` holds exactly for a power-of-two lane count. */
  lemma LengthTestIsPowerOf2()
    ensures LengthIsPowerOf2Test() <==> IsPowerOf2(VLENGTH)
  {
    var u := BitAnd(VLENGTH, VLENGTH - 1);
    assert VLENGTH % TWO_32 == VLENGTH && (VLENGTH - 1) % TWO_32 == VLENGTH - 1;
    assert AndInt(VLENGTH, VLENGTH - 1) == Wrap32(u);
    assert Wrap32(u) == u;
  }

  /**
   * For a power-of-two lane count, masking a long index in `[-n, n)` with
   * `n - 1` is adding n to a negative index: the low bits of its two's
   * complement.
   */
  lemma MaskWraps(x: int)
    requires IsPowerOf2(VLENGTH)
    requires -(VLENGTH as int) <= x < VLENGTH
    ensures AndLong(x, VLENGTH - 1) == WrapToRange(x)
  {
    var n: int := VLENGTH;
    var k := ExactLog2(n);
    assert BitAnd(Unsigned64(x), n - 1) == WrapToRange(x) by {
      if x >= 0 {
        BitAndLowMaskSmall(x, k);
      } else {
        MaskWrapsNegative(x, k);
      }
    }
    assert Unsigned64(n - 1) == n - 1;
  }

  lemma MaskWrapsNegative(x: int, k: nat)
    requires Pow2(k) == VLENGTH
    requires -(VLENGTH as int) <= x < 0
    ensures BitAnd(Unsigned64(x), Pow2(k) - 1) == x + VLENGTH
  {
    var n: int := VLENGTH;
    Pow2Below31(k);
    var t := Pow2(64 - k) - 1;
    LowBitsComplement(k);
    assert Unsigned64(x) == (x + n) + Pow2(k) * t;
    BitAndLowMaskPeriodic(x + n, t, k);
    BitAndLowMaskSmall(x + n, k);
  }

  /** 2^64 is 2^k more than a multiple of 2^k. */
  lemma LowBitsComplement(k: nat)
    requires k <= 64
    ensures Pow2(k) * (Pow2(64 - k) - 1) == TWO_64 - Pow2(k)
  {
    var p, q := Pow2(k), Pow2(64 - k);
    Pow2Complement(k);
    MulSubOne(p, q);
  }

  /** After wrapping, no lane is exceptional: `s.wrapIndexes().laneIsValid()` is all true. */
  lemma WrapIndexesAllValid(s: Shuffle)
    requires s.Valid()
    ensures LaneIsValid(WrapIndexes(s)) == DoubleMaxMask.MaskAll(true)
  {
    assert LaneIsValid(WrapIndexes(s)).bits == DoubleMaxMask.MaskAll(true).bits;
  }

  // ---------------------------------------------------------------- intoArray

  /**
   * `intoArray(int[] a, int offset)`: stores `laneSource(i)` at
   * `a[offset + i]` for every lane and nothing else. One lane is a single
   * array store; 2, 4, 8 or 16 lanes go through an int vector whose store
   * checks the range first; any other count checks the range and loops.
   */
  method IntoArray(s: Shuffle, a: array<Int32>, offset: int) returns (r: Outcome<()>)
    requires s.Valid()
    modifies a
    ensures r.Throws? <==> offset < 0 || offset + VLENGTH > a.Length
    ensures r.Throws? ==> a[..] == old(a[..])
    ensures r.Throws? ==> r.error == if VLENGTH == 1 then ArrayIndexOutOfBounds else IndexOutOfBounds
    ensures r.Ok? ==> forall k :: 0 <= k < a.Length ==>
      a[k] == if offset <= k < offset + VLENGTH then LaneSource(s, k - offset).value else old(a[k])
  {
    if VLENGTH == 1 {
      if offset < 0 || offset >= a.Length {
        return Throws(ArrayIndexOutOfBounds);
      }
      a[offset] := LaneSource(s, 0).value;
    } else if VLENGTH == 2 || VLENGTH == 4 || VLENGTH == 8 || VLENGTH == 16 {
      // convertShape(L2I, ...).reinterpretAsInts().intoArray(a, offset)
      if offset < 0 || offset + VLENGTH > a.Length {
        return Throws(IndexOutOfBounds);
      }
      forall i | 0 <= i < VLENGTH {
        a[offset + i] := Wrap32(s.indices[i]);
      }
    } else {
      if offset < 0 || offset + VLENGTH > a.Length {
        return Throws(IndexOutOfBounds);
      }
      var i := 0;
      while i < VLENGTH
        invariant 0 <= i <= VLENGTH
        invariant forall k :: 0 <= k < a.Length ==>
          a[k] == if offset <= k < offset + i then LaneSource(s, k - offset).value else old(a[k])
      {
        a[offset + i] := LaneSource(s, i).value;
        i := i + 1;
      }
    }
    return Ok(());
  }
}

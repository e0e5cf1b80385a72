/**
 * The `double` x Max-shape vector (DoubleMaxVector): its lane count and its
 * bounds-checked lane accessors. A lane holds an IEEE-754 double; every path
 * modelled here moves it as its raw 64-bit pattern
 * (doubleToRawLongBits / longBitsToDouble), so a lane is a `bv64`.
 */
module DoubleMaxVector {
  import opened Outcomes

  /** Lane counts a species can have: positive and representable as a Java int. */
  type LaneCount = n: int | 0 < n < 0x8000_0000 witness 1

  /**
   * VSPECIES.laneCount(): fixed by the widest vector register of the host,
   * so the model leaves it open and proves everything for every value.
   */
  const VLENGTH: LaneCount

  /** A vector value: its payload array, one raw bit pattern per lane. */
  datatype Vector = Vector(vec: seq<bv64>) {
    predicate Valid() {
      |vec| == VLENGTH
    }
  }

  /**
   * `lane(i)`: IllegalArgumentException unless `0 <= i < VLENGTH`, otherwise
   * the raw bits of lane `i` (what the intrinsic's fallback, `laneHelper`, reads).
   */
  function Lane(v: Vector, i: int): (r: Outcome<bv64>)
    requires v.Valid()
    ensures r.Throws? <==> i < 0 || i >= VLENGTH
    ensures r.Throws? ==> r.error == IllegalArgument
    ensures r.Ok? ==> r.value == v.vec[i]
  {
    if i < 0 || i >= VLENGTH then Throws(IllegalArgument) else Ok(LaneHelper(v, i))
  }

  /** `laneHelper(i)`: the fallback of VectorSupport.extract, reading the payload. */
  function LaneHelper(v: Vector, i: int): bv64
    requires v.Valid() && 0 <= i < VLENGTH
  {
    v.vec[i]
  }

  /**
   * `withLane(i, e)`: IllegalArgumentException unless `0 <= i < VLENGTH`,
   * otherwise a new vector equal to `v` except that lane `i` holds `e`.
   */
  method WithLane(v: Vector, i: int, e: bv64) returns (r: Outcome<Vector>)
    requires v.Valid()
    ensures r.Throws? <==> i < 0 || i >= VLENGTH
    ensures r.Throws? ==> r.error == IllegalArgument
    ensures r.Ok? ==> r.value.Valid() && Lane(r.value, i) == Ok(e)
    ensures r.Ok? ==> forall j :: 0 <= j < VLENGTH && j != i ==> Lane(r.value, j) == Lane(v, j)
    ensures r.Ok? && Lane(v, i) == Ok(e) ==> r.value == v
  {
    if i < 0 || i >= VLENGTH {
      return Throws(IllegalArgument);
    }
    var w := WithLaneHelper(v, i, e);
    return Ok(w);
  }

  /**
   * `withLaneHelper(i, e)`, by the fallback of VectorSupport.insert: clone the
   * payload, overwrite slot `i`, wrap the copy in a new vector. The clone is a
   * fresh array, so the receiver's payload is never written.
   */
  method WithLaneHelper(v: Vector, i: int, e: bv64) returns (r: Vector)
    requires v.Valid() && 0 <= i < VLENGTH
    ensures r.Valid()
    ensures r.vec[i] == e
    ensures forall j :: 0 <= j < VLENGTH && j != i ==> r.vec[j] == v.vec[j]
  {
    var res := new bv64[|v.vec|](k requires 0 <= k < |v.vec| => v.vec[k]);
    res[i] := e;
    r := Vector(res[..]);
  }
}

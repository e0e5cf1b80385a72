/**
 * Fixed-width integer arithmetic and bit operations shared by the models of
 * the Java vector classes and of the RISC-V C1 code generator: Java's and
 * C++'s 32- and 64-bit two's-complement wrap-around, Java's truncating
 * remainder, and a bit-by-bit AND on which `x & (x - 1) == 0` and
 * `x & (2^k - 1)` are stated.
 */
module Bits {

  const TWO_31: int := 0x8000_0000
  const TWO_32: int := 0x1_0000_0000
  const TWO_63: int := 0x8000_0000_0000_0000
  const TWO_64: int := 0x1_0000_0000_0000_0000

  /** Java's Integer.MAX_VALUE, HotSpot's max_jint. */
  const MAX_JINT: int := 0x7FFF_FFFF

  /** Values of a Java int / C++ jint. */
  type Int32 = x: int | -0x8000_0000 <= x < 0x8000_0000

  /** Values of a Java long / C++ jlong. */
  type Int64 = x: int | -0x8000_0000_0000_0000 <= x < 0x8000_0000_0000_0000

  /** The 32-bit two's-complement value with the same low 32 bits as `x`: a narrowing `(int)` cast. */
  function Wrap32(x: int): (r: Int32)
    ensures r % TWO_32 == x % TWO_32
    ensures -TWO_31 <= x < TWO_31 ==> r == x
  {
    var m := x % TWO_32;
    if m < TWO_31 then m else m - TWO_32
  }

  /** The 64-bit two's-complement value with the same low 64 bits as `x`. */
  function Wrap64(x: int): (r: Int64)
    ensures r % TWO_64 == x % TWO_64
    ensures -TWO_63 <= x < TWO_63 ==> r == x
  {
    var m := x % TWO_64;
    if m < TWO_63 then m else m - TWO_64
  }

  /** Wrap32 depends only on the low 32 bits of its argument. */
  lemma Wrap32Congruent(x: int, y: int)
    requires x % TWO_32 == y % TWO_32
    ensures Wrap32(x) == Wrap32(y)
  {
  }

  /** Wrap64 depends only on the low 64 bits of its argument. */
  lemma Wrap64Congruent(x: int, y: int)
    requires x % TWO_64 == y % TWO_64
    ensures Wrap64(x) == Wrap64(y)
  {
  }

  /** Java's `%` on integers, for a positive divisor: the remainder truncates toward zero and takes the sign of the dividend. */
  function JavaRem(a: int, b: int): (r: int)
    requires b > 0
    ensures a >= 0 ==> 0 <= r < b
    ensures a < 0 ==> -b < r <= 0
    ensures (a - r) % b == 0
  {
    if a >= 0 then
      MultipleMod(a / b, b);
      a % b
    else
      AbsRemDivides(a, b);
      -((-a) % b)
  }

  lemma AbsRemDivides(a: int, m: int)
    requires a < 0 && m > 0
    ensures (a + (-a) % m) % m == 0
  {
    var q := (-a) / m;
    assert -a == m * q + (-a) % m;
    assert a + (-a) % m == m * -q;
    MultipleMod(-q, m);
  }

  /** Any multiple of `m` leaves remainder 0. */
  lemma MultipleMod(q: int, m: int)
    requires m > 0
    ensures (m * q) % m == 0
  {
    ModUnique(m * q, m, q, 0);
  }

  /** Euclidean division is unique: a quotient and remainder in range are THE quotient and remainder. */
  lemma ModUnique(a: int, d: int, q: int, r: int)
    requires d > 0 && 0 <= r < d && a == d * q + r
    ensures a / d == q && a % d == r
  {
    var q', r' := a / d, a % d;
    assert d * q' + r' == a;
    assert d * (q - q') == r' - r;
    if q' < q {
      assert d * (q - q') >= d by { MulAtLeast(d, q - q'); }
    } else if q' > q {
      assert d * (q' - q) >= d by { MulAtLeast(d, q' - q); }
    }
  }

  /** Adding the same amount to two numbers congruent modulo `m` keeps them congruent. */
  lemma ModAddCongruent(a: int, a': int, b: int, m: int)
    requires m > 0 && a % m == a' % m
    ensures (a + b) % m == (a' + b) % m
  {
    var r := (a % m + b) % m;
    var q := (a % m + b) / m;
    assert a % m + b == m * q + r;
    ModUnique(a + b, m, a / m + q, r);
    ModUnique(a' + b, m, a' / m + q, r);
  }

  /** A number already in `[0, m)` is its own remainder. */
  lemma ModOfSmall(a: int, m: int)
    requires m > 0
    ensures 0 <= a < m ==> a % m == a
  {
    if 0 <= a < m {
      ModUnique(a, m, 0, a);
    }
  }

  lemma MulAtLeast(d: int, k: int)
    requires d > 0 && k >= 1
    ensures d * k >= d
  {
  }

  /** 2 to the power `k`. */
  function Pow2(k: nat): (r: nat)
    ensures r >= 1
  {
    if k == 0 then 1 else 2 * Pow2(k - 1)
  }

  /** Pow2 turns sums of exponents into products. */
  lemma {:induction false} Pow2Add(j: nat, k: nat)
    ensures Pow2(j + k) == Pow2(j) * Pow2(k)
  {
    if j > 0 {
      Pow2Add(j - 1, k);
      assert Pow2(j + k) == 2 * Pow2(j - 1 + k);
    }
  }

  /** The powers of two the 32- and 64-bit wrap-arounds are taken modulo. */
  lemma Pow2Widths()
    ensures Pow2(31) == TWO_31 && Pow2(32) == TWO_32 && Pow2(64) == TWO_64
  {
    assert Pow2(1) == 2;
    Pow2Add(1, 1);
    Pow2Add(2, 2);
    Pow2Add(4, 4);
    Pow2Add(8, 8);
    Pow2Add(16, 16);
    Pow2Add(32, 32);
    assert Pow2(32) == 2 * Pow2(31);
  }

  /** 2^k times 2^(64-k) is 2^64. */
  lemma Pow2Complement(k: nat)
    requires k <= 64
    ensures Pow2(k) * Pow2(64 - k) == TWO_64
  {
    Pow2Add(k, 64 - k);
    assert k + (64 - k) == 64;
    Pow2Widths();
  }

  lemma MulSubOne(p: int, q: int)
    ensures p * (q - 1) == p * q - p
  {
  }

  /** Pow2 is monotonic; a power of two below 2^31 has an exponent below 31. */
  lemma Pow2Below31(k: nat)
    requires Pow2(k) < TWO_31
    ensures k < 31
  {
    if k >= 31 {
      Pow2Add(31, k - 31);
      Pow2Widths();
    }
  }

  /**
   * Bitwise AND of two non-negative integers, from the least significant bit
   * up. Java's `&` on longs and C++'s `&` on jint/jlong are this on the
   * two's-complement (unsigned) views of the operands.
   */
  function BitAnd(a: nat, b: nat): (r: nat)
    ensures r <= a && r <= b
    decreases a
  {
    if a == 0 || b == 0 then 0
    else 2 * BitAnd(a / 2, b / 2) + (if a % 2 == 1 && b % 2 == 1 then 1 else 0)
  }

  /** The unsigned view of a Java long: the bit pattern read as a natural number. */
  function Unsigned64(x: Int64): (u: nat)
    ensures u < TWO_64
    ensures x >= 0 ==> u == x
    ensures x < 0 ==> u == x + TWO_64
  {
    x % TWO_64
  }

  /** Narrowing a bit pattern below 2^64 to a long and reading it back as unsigned loses nothing. */
  lemma Unsigned64Wrap(u: nat)
    requires u < TWO_64
    ensures Unsigned64(Wrap64(u)) == u
  {
  }

  /** Java's `&` on two longs. */
  function AndLong(a: Int64, b: Int64): (r: Int64)
    ensures a >= 0 || b >= 0 ==> 0 <= r
    ensures b >= 0 ==> r <= b
  {
    var u := BitAnd(Unsigned64(a), Unsigned64(b));
    assert a >= 0 ==> u <= a;
    assert b >= 0 ==> u <= b;
    Wrap64(u)
  }

  /** Java's `&` on two ints. */
  function AndInt(a: Int32, b: Int32): (r: Int32)
    ensures a >= 0 || b >= 0 ==> 0 <= r
    ensures b >= 0 ==> r <= b
  {
    var u := BitAnd(a % TWO_32, b % TWO_32);
    assert a >= 0 ==> u <= a;
    assert b >= 0 ==> u <= b;
    Wrap32(u)
  }

  /**
   * HotSpot's `is_power_of_2(x)` for an integer type: `x > 0 && (x & (x - 1)) == 0`.
   * For positive `x` both operands are non-negative, so BitAnd is the `&`.
   */
  predicate IsPowerOf2(x: int)
  {
    x > 0 && BitAnd(x, x - 1) == 0
  }

  /** One step of the bit recursion when the second operand is non-zero. */
  lemma BitAndStep(a: nat, b: nat)
    requires b > 0
    ensures BitAnd(a, b) == 2 * BitAnd(a / 2, b / 2) + (if a % 2 == 1 && b % 2 == 1 then 1 else 0)
  {
  }

  lemma {:induction false} BitAndSelf(a: nat)
    ensures BitAnd(a, a) == a
  {
    if a > 0 {
      BitAndSelf(a / 2);
    }
  }

  /** Every power of two passes the `x & (x - 1) == 0` test. */
  lemma {:induction false} Pow2IsPowerOf2(k: nat)
    ensures IsPowerOf2(Pow2(k))
  {
    if k > 0 {
      var p := Pow2(k - 1);
      Pow2IsPowerOf2(k - 1);
      BitAndStep(2 * p, 2 * p - 1);
      assert (2 * p - 1) / 2 == p - 1;
    }
  }

  /** A power of two above 1 is even and its half is a power of two. */
  lemma PowerOf2Half(x: int)
    requires IsPowerOf2(x) && x > 1
    ensures x % 2 == 0 && IsPowerOf2(x / 2)
  {
    BitAndStep(x, x - 1);
    if x % 2 == 1 {
      assert (x - 1) / 2 == x / 2;
      BitAndSelf(x / 2);
      assert false;
    }
    assert (x - 1) / 2 == x / 2 - 1;
  }

  /** HotSpot's `exact_log2`: the exponent of a power of two. */
  function ExactLog2(x: int): (k: nat)
    requires IsPowerOf2(x)
    ensures Pow2(k) == x
    ensures k < x
    decreases x
  {
    if x == 1 then 0
    else
      PowerOf2Half(x);
      1 + ExactLog2(x / 2)
  }

  /** The powers of two are exactly the positive `x` with `x & (x - 1) == 0`. */
  lemma PowerOf2Iff(x: int)
    ensures IsPowerOf2(x) <==> exists k: nat :: Pow2(k) == x
  {
    if IsPowerOf2(x) {
      var k := ExactLog2(x);
      assert Pow2(k) == x;
    }
    if exists k: nat :: Pow2(k) == x {
      var k: nat :| Pow2(k) == x;
      Pow2IsPowerOf2(k);
    }
  }

  /** Masking with `2^k - 1` keeps a value already below `2^k`. */
  lemma {:induction false} BitAndLowMaskSmall(a: nat, k: nat)
    requires a < Pow2(k)
    ensures BitAnd(a, Pow2(k) - 1) == a
  {
    if k > 0 && a > 0 {
      var p := Pow2(k - 1);
      BitAndStep(a, 2 * p - 1);
      assert (2 * p - 1) / 2 == p - 1;
      BitAndLowMaskSmall(a / 2, k - 1);
    }
  }

  /** Masking with `2^k - 1` ignores multiples of `2^k`. */
  lemma {:induction false} BitAndLowMaskPeriodic(a: nat, t: nat, k: nat)
    ensures BitAnd(a + Pow2(k) * t, Pow2(k) - 1) == BitAnd(a, Pow2(k) - 1)
  {
    if k > 0 {
      var p := Pow2(k - 1);
      var q := p * t;
      var m := 2 * p - 1;
      DoubleTimes(p, t);
      var x := a + 2 * q;
      BitAndStep(x, m);
      BitAndStep(a, m);
      assert m / 2 == p - 1;
      HalveAfterEven(a, q);
      BitAndLowMaskPeriodic(a / 2, t, k - 1);
    }
  }

  lemma DoubleTimes(p: int, t: int)
    ensures (2 * p) * t == 2 * (p * t)
  {
  }

  /** Adding an even number `2q` adds `q` to the half and leaves the parity. */
  lemma HalveAfterEven(a: nat, q: nat)
    ensures (a + 2 * q) / 2 == a / 2 + q
    ensures (a + 2 * q) % 2 == a % 2
  {
    ModUnique(a + 2 * q, 2, a / 2 + q, a % 2);
  }

}

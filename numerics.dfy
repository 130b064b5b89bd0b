/** Integer operations of the C++ source, written out for Dafny's unbounded integers:
    arithmetic shifts, the truncating remainder of C++ `%`, and 32-bit unsigned subtraction. */
module Numerics {

  /** The values of a C++ `int` (32-bit two's complement), the coordinate type of `glm::ivec2`. */
  type Int32 = x: int | -0x8000_0000 <= x < 0x8000_0000

  /** 2^32, the modulus of `uint32_t` arithmetic. */
  const U32: int := 0x1_0000_0000

  /** An integer point (`glm::ivec2` without the width). */
  datatype Point = Point(x: int, y: int)

  function Min(a: int, b: int): int { if a <= b then a else b }

  function Max(a: int, b: int): int { if a >= b then a else b }

  function Pow2(n: nat): (p: nat)
    ensures p >= 1
  {
    if n == 0 then 1 else 2 * Pow2(n - 1)
  }

  /** `v >> n` on a signed int: an arithmetic shift, which rounds toward minus infinity. */
  function ShiftRight(v: int, n: nat): (r: int)
    ensures r * Pow2(n) <= v < (r + 1) * Pow2(n)
    ensures v >= 0 ==> 0 <= r <= v
    ensures v < 0 ==> v <= r < 0
  {
    var p := Pow2(n);
    var r := v / p;
    ScaleBounds(r, p);
    ScaleBounds(r + 1, p);
    r
  }

  /** `v << n`, without the 32-bit overflow of the source. */
  function ShiftLeft(v: int, n: nat): int
  {
    v * Pow2(n)
  }

  /** Shifting left then right by the same amount gives the value back. */
  lemma ShiftLeftThenRight(v: int, n: nat)
    ensures ShiftRight(ShiftLeft(v, n), n) == v
  {
    FloorUnique(ShiftLeft(v, n), Pow2(n), v);
  }

  /** The remainder of C++ `v % 2`: it truncates toward zero, so it takes the sign of `v`. */
  function CRem2(v: int): (r: int)
    ensures (v - r) % 2 == 0
    ensures v >= 0 ==> 0 <= r < 2
    ensures v < 0 ==> -2 < r <= 0
  {
    if v >= 0 then v % 2 else -((-v) % 2)
  }

  /** `v -= v % 2`: clears the low bit towards zero (down for v >= 0, up for odd v < 0). */
  function AlignEven(v: int): (r: int)
    ensures r % 2 == 0
    ensures v >= 0 ==> v - 1 <= r <= v
    ensures v < 0 ==> v <= r <= v + 1
    ensures v % 2 == 0 ==> r == v
  {
    v - CRem2(v)
  }

  /** `a - b` on two `uint32_t` values: wraps modulo 2^32 when b > a. */
  function U32Sub(a: int, b: int): (r: int)
    requires 0 <= a < U32 && 0 <= b < U32
    ensures 0 <= r < U32
    ensures a >= b ==> r == a - b
    ensures a < b ==> r == U32 + a - b
  {
    (a - b) % U32
  }

  lemma ScaleBounds(a: int, p: int)
    requires p >= 1
    ensures a >= 0 ==> a <= a * p
    ensures a <= 0 ==> a * p <= a
  {
    assert a * p - a == a * (p - 1);
  }

  lemma MulNonnegative(a: int, b: int)
    requires a >= 0 && b >= 0
    ensures a * b >= 0
  {
  }

  lemma MulLe(x: int, y: int, p: int)
    requires p > 0
    ensures x <= y <==> x * p <= y * p
  {
    if x <= y {
      MulNonnegative(y - x, p);
      assert y * p - x * p == (y - x) * p;
    } else {
      MulNonnegative(x - y - 1, p);
      assert x * p - y * p == (x - y - 1) * p + p;
    }
  }

  /** Multiplication by a nonnegative factor preserves the order of the other factor. */
  lemma MulLeftMonotone(a: int, x: int, y: int)
    requires a >= 0 && x <= y
    ensures a * x <= a * y
  {
    assert a * y - a * x == a * (y - x);
  }

  lemma FloorUnique(v: int, p: int, q: int)
    requires p > 0
    requires q * p <= v < (q + 1) * p
    ensures v / p == q
  {
    var r := v / p;
    assert r * p <= v < (r + 1) * p;
    if r < q {
      MulLe(r + 1, q, p);
    } else if r > q {
      MulLe(q + 1, r, p);
    }
  }

  /** The lower side of a floor shift: `v >> n` is at least x exactly when x's span starts at or below v. */
  lemma FloorShiftAtLeast(v: int, n: nat, x: int)
    ensures ShiftRight(v, n) >= x <==> x * Pow2(n) <= v
  {
    var r, p := ShiftRight(v, n), Pow2(n);
    if r >= x {
      MulLe(x, r, p);
    } else {
      MulLe(r + 1, x, p);
    }
  }

  /** The upper side of a floor shift: `v >> n` is at most x exactly when v lies below the span of x + 1. */
  lemma FloorShiftAtMost(v: int, n: nat, x: int)
    ensures ShiftRight(v, n) <= x <==> v < (x + 1) * Pow2(n)
  {
    var r, p := ShiftRight(v, n), Pow2(n);
    if r <= x {
      MulLe(r + 1, x + 1, p);
    } else {
      MulLe(x + 1, r, p);
    }
  }
}

/** Numeric conventions shared by the rasteriser: the C++ conversions the
    source relies on, the pixel byte and the glm vectors it computes with.
    Floating point is abstracted to `real`; every float-to-integer
    conversion of the source is written out as truncation toward zero. */
module ScreenMath {

  /** The source's `unsigned char`. */
  type byte = b: int | 0 <= b < 256

  /** `std::numeric_limits<int>::min()` for the 32-bit `int` of the depth buffer. */
  const INT_MIN: int := -0x8000_0000

  /** A pixel-space position with integer coordinates (the `glm::vec2`
      arguments of drawLine and fillTriangle, which main passes integers). */
  datatype Point = Point(x: int, y: int)

  /** A `glm::vec3` over the reals. */
  datatype Vec3 = Vec3(x: real, y: real, z: real)

  function Add(u: Vec3, v: Vec3): Vec3 { Vec3(u.x + v.x, u.y + v.y, u.z + v.z) }

  function Sub(u: Vec3, v: Vec3): Vec3 { Vec3(u.x - v.x, u.y - v.y, u.z - v.z) }

  /** Scalar product `v * k` (and `k * v`, which glm treats alike). */
  function Scale(v: Vec3, k: real): Vec3 { Vec3(v.x * k, v.y * k, v.z * k) }

  /** C++ conversion of a float to an integer: truncation toward zero. */
  function Trunc(r: real): (t: int)
    ensures 0.0 <= r ==> t as real <= r < t as real + 1.0
    ensures r < 0.0 ==> t as real - 1.0 < r <= t as real
  {
    if r >= 0.0 then r.Floor else -((-r).Floor)
  }

  /** The least integer not below `r`; `j < r` holds exactly for the integers `j < Ceil(r)`. */
  function Ceil(r: real): (c: int)
    ensures c as real - 1.0 < r <= c as real
  {
    -((-r).Floor)
  }

  /** Conversion of a float colour value to `unsigned char`. The source
      stores values far outside 0..255 (intensities scaled by 800 and by 255);
      C++ leaves that conversion undefined, and the model takes the low eight
      bits of the truncated value, which is what the usual compilers produce. */
  function ToByte(r: real): (b: byte)
    ensures 0.0 <= r < 256.0 ==> b == Trunc(r)
    ensures (Trunc(r) - b) % 256 == 0
  {
    Trunc(r) % 256
  }

  /** An integer strictly below a real is at most its truncation: the value
      a greater-wins depth test stores never undercuts the one it replaced. */
  lemma TruncAbove(z: int, r: real)
    requires z as real < r
    ensures z <= Trunc(r)
  {
    if r < 0.0 {
      assert z as real < Trunc(r) as real;
    } else {
      assert (z as real) < r < Trunc(r) as real + 1.0;
    }
  }

  /** Truncating an integer-valued real gives the integer back. */
  lemma TruncOfInt(n: int)
    ensures Trunc(n as real) == n
  {
  }

  /** Truncation toward zero never passes the ceiling of a larger real. */
  lemma TruncBelowCeil(a: real, b: real)
    requires a <= b
    ensures Trunc(a) <= Ceil(b)
  {
    if a < 0.0 {
      assert Trunc(a) as real - 1.0 < Ceil(b) as real;
    }
  }

  /** Multiplying by a non-negative factor keeps the order. */
  lemma MulBound(p: int, q: int, r: int)
    requires 0 <= p && q <= r
    ensures p * q <= p * r
  {
  }
}

// Vector arithmetic used by the mesh engine and the quantisation key of the
// vertex-welding cache.
//
// The program works on `cgmath::Vector3<f32>`; here a vector holds three exact
// reals, and every formula is written in the same shape as the program writes
// it.

module Geometry {

  /** A 3D position, normal or centroid. */
  datatype Vec3 = Vec3(x: real, y: real, z: real)

  /** The zero vector that every freshly added normal slot starts at. */
  const ZERO: Vec3 := Vec3(0.0, 0.0, 0.0)

  function Add(u: Vec3, v: Vec3): Vec3 {
    Vec3(u.x + v.x, u.y + v.y, u.z + v.z)
  }

  function Sub(u: Vec3, v: Vec3): Vec3 {
    Vec3(u.x - v.x, u.y - v.y, u.z - v.z)
  }

  /** Scaling by a scalar (`v * s`). */
  function Mul(v: Vec3, s: real): Vec3 {
    Vec3(v.x * s, v.y * s, v.z * s)
  }

  /** Division by a scalar (`v / s`). */
  function Div(v: Vec3, s: real): Vec3
    requires s != 0.0
  {
    Vec3(v.x / s, v.y / s, v.z / s)
  }

  /** cgmath's linear interpolation, `u + (v - u) * t`: it starts at `u` and
      ends at `v`, and its midpoint does not depend on the order of the two
      ends. */
  function Lerp(u: Vec3, v: Vec3, t: real): (r: Vec3)
    ensures t == 0.0 ==> r == u
    ensures t == 1.0 ==> r == v
    ensures t == 0.5 ==> r == Vec3((u.x + v.x) / 2.0, (u.y + v.y) / 2.0, (u.z + v.z) / 2.0)
  {
    Add(u, Mul(Sub(v, u), t))
  }

  /** The centroid of a triangle the way the program computes it: the
      midpoint of the first edge, moved a third of the way towards the third
      corner. It is the average of the three corners. */
  function Centroid(pa: Vec3, pb: Vec3, pc: Vec3): (r: Vec3)
    ensures r == Vec3((pa.x + pb.x + pc.x) / 3.0, (pa.y + pb.y + pc.y) / 3.0, (pa.z + pb.z + pc.z) / 3.0)
  {
    var abHalf := Div(Sub(pb, pa), 2.0);
    var pabHalf := Add(pa, abHalf);
    Add(Mul(Sub(pc, pabHalf), 1.0 / 3.0), pabHalf)
  }

  /** Positions whose coordinates agree after scaling by this factor and
      rounding are welded into one vertex. */
  const VERT_CACHE_PRECISION: real := 10000.0

  const I32_MIN: int := -0x8000_0000
  const I32_MAX: int := 0x7FFF_FFFF

  /** `f32::round`: the nearest integer, halves rounded away from zero. */
  function RoundHalfAwayFromZero(x: real): (r: int)
    ensures x - 0.5 <= r as real <= x + 0.5
    ensures r as real == x + 0.5 ==> x > 0.0
    ensures r as real == x - 0.5 ==> x < 0.0
  {
    if x >= 0.0 then (x + 0.5).Floor else -((-x + 0.5).Floor)
  }

  /** A float-to-`i32` cast, which saturates at the ends of the range. */
  function SaturateI32(n: int): (r: int)
    ensures I32_MIN <= r <= I32_MAX
    ensures I32_MIN <= n <= I32_MAX ==> r == n
    ensures n < I32_MIN ==> r == I32_MIN
    ensures n > I32_MAX ==> r == I32_MAX
  {
    if n < I32_MIN then I32_MIN else if n > I32_MAX then I32_MAX else n
  }

  /** The key of the welding cache: one integer per axis. */
  datatype VertexKey = VertexKey(x: int, y: int, z: int)

  /** One component of the welding key: an `i32`, within half a unit of the
      scaled coordinate whenever that fits in `i32`. */
  function QuantizeAxis(c: real): (r: int)
    ensures I32_MIN <= r <= I32_MAX
    ensures I32_MIN as real <= c * VERT_CACHE_PRECISION <= I32_MAX as real ==>
              c * VERT_CACHE_PRECISION - 0.5 <= r as real <= c * VERT_CACHE_PRECISION + 0.5
  {
    SaturateI32(RoundHalfAwayFromZero(c * VERT_CACHE_PRECISION))
  }

  /** The welding key of a position: each coordinate scaled by
      `VERT_CACHE_PRECISION`, rounded and cast to `i32`. */
  function Quantize(v: Vec3): (k: VertexKey)
    ensures I32_MIN <= k.x <= I32_MAX && I32_MIN <= k.y <= I32_MAX && I32_MIN <= k.z <= I32_MAX
  {
    VertexKey(QuantizeAxis(v.x), QuantizeAxis(v.y), QuantizeAxis(v.z))
  }

  /** Every key component is an `i32`, and a coordinate whose scaled value
      fits in `i32` is within half a unit of its key component: positions are
      compared to within half a ten-thousandth. */
  lemma QuantizeBounds(v: Vec3)
    ensures var k := Quantize(v);
            && I32_MIN <= k.x <= I32_MAX && I32_MIN <= k.y <= I32_MAX && I32_MIN <= k.z <= I32_MAX
            && (I32_MIN as real <= v.x * VERT_CACHE_PRECISION <= I32_MAX as real ==>
                  v.x * VERT_CACHE_PRECISION - 0.5 <= k.x as real <= v.x * VERT_CACHE_PRECISION + 0.5)
            && (I32_MIN as real <= v.y * VERT_CACHE_PRECISION <= I32_MAX as real ==>
                  v.y * VERT_CACHE_PRECISION - 0.5 <= k.y as real <= v.y * VERT_CACHE_PRECISION + 0.5)
            && (I32_MIN as real <= v.z * VERT_CACHE_PRECISION <= I32_MAX as real ==>
                  v.z * VERT_CACHE_PRECISION - 0.5 <= k.z as real <= v.z * VERT_CACHE_PRECISION + 0.5)
  {
  }

  /** The scaled coordinate `c * VERT_CACHE_PRECISION` fits in `i32`. */
  predicate InKeyRange(c: real) {
    I32_MIN as real <= c * VERT_CACHE_PRECISION <= I32_MAX as real
  }

  /** Two positions that get the same welding key, inside the `i32` range,
      are within a ten-thousandth of each other on every axis. */
  lemma SameKeyClose(u: Vec3, v: Vec3)
    requires InKeyRange(u.x) && InKeyRange(u.y) && InKeyRange(u.z)
    requires InKeyRange(v.x) && InKeyRange(v.y) && InKeyRange(v.z)
    requires Quantize(u) == Quantize(v)
    ensures -1.0 <= u.x * VERT_CACHE_PRECISION - v.x * VERT_CACHE_PRECISION <= 1.0
    ensures -1.0 <= u.y * VERT_CACHE_PRECISION - v.y * VERT_CACHE_PRECISION <= 1.0
    ensures -1.0 <= u.z * VERT_CACHE_PRECISION - v.z * VERT_CACHE_PRECISION <= 1.0
  {
    assert Quantize(u).x == QuantizeAxis(u.x) && Quantize(v).x == QuantizeAxis(v.x);
    assert Quantize(u).y == QuantizeAxis(u.y) && Quantize(v).y == QuantizeAxis(v.y);
    assert Quantize(u).z == QuantizeAxis(u.z) && Quantize(v).z == QuantizeAxis(v.z);
  }
}

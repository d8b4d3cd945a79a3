/**
 * Two-dimensional vectors, standing in for the `vec2` type the physics
 * system uses. Single-precision floats are modelled by exact `real`s.
 */
module Geometry {

  datatype Vec2 = Vec2(x: real, y: real)

  const Zero := Vec2(0.0, 0.0)

  function Add(u: Vec2, v: Vec2): Vec2 {
    Vec2(u.x + v.x, u.y + v.y)
  }

  function Sub(u: Vec2, v: Vec2): Vec2 {
    Vec2(u.x - v.x, u.y - v.y)
  }

  /** `v * s`: scaling by a scalar. */
  function Mul(v: Vec2, s: real): Vec2 {
    Vec2(v.x * s, v.y * s)
  }

  /** `v / s`: division by a non-zero scalar (the source divides only by 2). */
  function Div(v: Vec2, s: real): Vec2
    requires s != 0.0
  {
    Vec2(v.x / s, v.y / s)
  }

  function Dot(u: Vec2, v: Vec2): real {
    u.x * v.x + u.y * v.y
  }

  /** Absolute value of a scalar. */
  function Abs(a: real): (r: real)
    ensures 0.0 <= r
    ensures r == a || r == -a
  {
    if a < 0.0 then -a else a
  }

  /** The larger of two scalars. */
  function Max(a: real, b: real): (r: real)
    ensures a <= r && b <= r
    ensures r == a || r == b
  {
    if a < b then b else a
  }

  /** A squared length is never negative. */
  lemma DotSelfNonNegative(v: Vec2)
    ensures 0.0 <= Dot(v, v)
  {
  }

  /** Squared distance does not depend on the direction the difference is taken in. */
  lemma DotSubSymmetric(p: Vec2, q: Vec2)
    ensures Dot(Sub(p, q), Sub(p, q)) == Dot(Sub(q, p), Sub(q, p))
  {
    assert (p.x - q.x) * (p.x - q.x) == (q.x - p.x) * (q.x - p.x);
    assert (p.y - q.y) * (p.y - q.y) == (q.y - p.y) * (q.y - p.y);
  }
}

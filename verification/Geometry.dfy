/** Points, texture coordinates and the small real-valued helpers shared by the mesh builders. */
module Geometry {
  /** A point or direction in world space (the engine's Vec3). */
  datatype Vec3 = Vec3(x: real, y: real, z: real)

  /** A texture coordinate pair (u, v). */
  datatype UV = UV(u: real, v: real)

  /** The upward unit normal shared by every vertex of a flat, horizontal surface. */
  const Up := Vec3(0.0, 1.0, 0.0)

  function MinReal(a: real, b: real): (r: real)
    ensures r <= a && r <= b
    ensures r == a || r == b
  {
    if a <= b then a else b
  }

  function MinInt(a: int, b: int): (r: int)
    ensures r <= a && r <= b
    ensures r == a || r == b
  {
    if a <= b then a else b
  }
}

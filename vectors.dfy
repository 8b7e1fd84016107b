/** Exact stand-ins for the engine's Vector3 and Vector2 value types.
    Coordinates are reals, so no floating-point rounding is modelled. */
module Vectors {

  datatype Vec3 = Vec3(x: real, y: real, z: real)

  datatype Vec2 = Vec2(x: real, y: real)

  /** Vector3.down */
  const DOWN: Vec3 := Vec3(0.0, -1.0, 0.0)

  function Add(a: Vec3, b: Vec3): Vec3 {
    Vec3(a.x + b.x, a.y + b.y, a.z + b.z)
  }

  function Sub(a: Vec3, b: Vec3): Vec3 {
    Vec3(a.x - b.x, a.y - b.y, a.z - b.z)
  }

  function Scale(a: Vec3, k: real): Vec3 {
    Vec3(a.x * k, a.y * k, a.z * k)
  }

  /** Vector3.sqrMagnitude: the squared Euclidean length. */
  function SqrMagnitude(a: Vec3): real {
    a.x * a.x + a.y * a.y + a.z * a.z
  }

  lemma SqrMagnitudeNonNegative(a: Vec3)
    ensures 0.0 <= SqrMagnitude(a)
  {
    assert 0.0 <= a.x * a.x && 0.0 <= a.y * a.y && 0.0 <= a.z * a.z;
  }

  /** Vector3.Cross */
  function Cross(a: Vec3, b: Vec3): Vec3 {
    Vec3(a.y * b.z - a.z * b.y, a.z * b.x - a.x * b.z, a.x * b.y - a.y * b.x)
  }

  /** The face normal direction of triangle (a, b, c), as the engine's
      normal recalculation derives it before normalising. */
  function Normal(a: Vec3, b: Vec3, c: Vec3): Vec3 {
    Cross(Sub(b, a), Sub(c, a))
  }

  /** A unit square lying flat at height 0, with corners a (origin),
      b (one step along x), c (one step along z) and d (both): the
      triangles (a, c, b) and (b, c, d) both have the normal +Y. */
  lemma FlatCellNormals(a: Vec3, b: Vec3, c: Vec3, d: Vec3)
    requires a.y == 0.0
    requires b == Vec3(a.x + 1.0, 0.0, a.z) && c == Vec3(a.x, 0.0, a.z + 1.0)
    requires d == Vec3(a.x + 1.0, 0.0, a.z + 1.0)
    ensures Normal(a, c, b) == Vec3(0.0, 1.0, 0.0)
    ensures Normal(b, c, d) == Vec3(0.0, 1.0, 0.0)
  {
    var ex, ez, exz := Vec3(1.0, 0.0, 0.0), Vec3(0.0, 0.0, 1.0), Vec3(-1.0, 0.0, 1.0);
    assert Sub(c, a) == ez && Sub(b, a) == ex;
    assert Sub(c, b) == exz && Sub(d, b) == ez;
    CrossZX();
    CrossXZ();
  }

  lemma CrossZX()
    ensures Cross(Vec3(0.0, 0.0, 1.0), Vec3(1.0, 0.0, 0.0)) == Vec3(0.0, 1.0, 0.0)
  {
  }

  lemma CrossXZ()
    ensures Cross(Vec3(-1.0, 0.0, 1.0), Vec3(0.0, 0.0, 1.0)) == Vec3(0.0, 1.0, 0.0)
  {
  }
}

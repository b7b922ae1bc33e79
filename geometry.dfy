/** Points, vertices and the constant vertex colour of the mesh.
    Coordinates are reals: the rounding of the C program's single-precision floats is not modelled. */
module Geometry {

  /** A raylib Vector3. */
  datatype Vec3 = Vec3(x: real, y: real, z: real)

  /** Component-wise sum (raymath's Vector3Add). */
  function Add(a: Vec3, b: Vec3): Vec3
  {
    Vec3(a.x + b.x, a.y + b.y, a.z + b.z)
  }

  /** The point p1 + mu * (p2 - p1) on the line through p1 and p2. */
  function Lerp(p1: Vec3, p2: Vec3, mu: real): Vec3
  {
    Vec3(p1.x + mu * (p2.x - p1.x), p1.y + mu * (p2.y - p1.y), p1.z + mu * (p2.z - p1.z))
  }

  /** Component k (0 = x, 1 = y, 2 = z). */
  function Component(v: Vec3, k: nat): real
    requires k < 3
  {
    if k == 0 then v.x else if k == 1 then v.y else v.z
  }

  /** A triangle vertex: position plus a colour whose channels are normalised to [0, 1]. */
  datatype Vertex = Vertex(position: Vec3, color: Vec3)

  /** The flat colour every emitted vertex carries. */
  const Red := Vec3(1.0, 0.0, 0.0)
}

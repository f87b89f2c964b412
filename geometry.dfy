/**
 * Cartesian vectors, the periodic cell and the minimum-image oracle.
 *
 * Coordinates are exact reals; the float64 rounding of the Python script is not modelled.
 */
module Geometry {

  datatype Vec3 = Vec3(x: real, y: real, z: real)

  function Add(u: Vec3, v: Vec3): Vec3
  {
    Vec3(u.x + v.x, u.y + v.y, u.z + v.z)
  }

  function Sub(u: Vec3, v: Vec3): Vec3
  {
    Vec3(u.x - v.x, u.y - v.y, u.z - v.z)
  }

  function Scale(v: Vec3, c: real): Vec3
  {
    Vec3(v.x * c, v.y * c, v.z * c)
  }

  function Div(v: Vec3, c: real): Vec3
    requires c != 0.0
  {
    Vec3(v.x / c, v.y / c, v.z / c)
  }

  /** The surface normal after alignment, +z. */
  const Normal: Vec3 := Vec3(0.0, 0.0, 1.0)

  /** `p + Normal * h`: the point at height `h` straight above `p`. */
  function Lift(p: Vec3, h: real): (r: Vec3)
    ensures r.x == p.x && r.y == p.y
    ensures r.z - p.z == h
  {
    Add(p, Scale(Normal, h))
  }

  /** Python's two-argument `max`. */
  function Max(a: real, b: real): (r: real)
    ensures r >= a && r >= b
    ensures r == a || r == b
  {
    if a >= b then a else b
  }

  /** The three cell vectors of a slab. */
  datatype Cell = Cell(a: Vec3, b: Vec3, c: Vec3)

  /** Periodicity flag per axis. */
  datatype Pbc = Pbc(x: bool, y: bool, z: bool)

  /** What the minimum-image routine returns: the shortest image displacement and its length. */
  datatype Mic = Mic(vec: Vec3, dist: real)

  /**
   * The minimum-image routine, applied to a raw displacement, the cell and the periodicity.
   * It is an external routine; every property of this model holds whatever it returns.
   */
  type MicOracle = (Vec3, Cell, Pbc) -> Mic
}

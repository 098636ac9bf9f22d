/** Points of 3D space with real coordinates. The length comparisons of the
    source, `(a - b).Length < tol`, are stated on the squared distance. */
module Geometry {

  datatype Point = Point(x: real, y: real, z: real)

  /** The equality of two points that the source decides with `==`/`!=` on
      its vector type; the model keeps it abstract. */
  type PointEq = (Point, Point) -> bool

  function Dist2(p: Point, q: Point): real
  {
    (p.x - q.x) * (p.x - q.x) + (p.y - q.y) * (p.y - q.y) + (p.z - q.z) * (p.z - q.z)
  }

  /** `(p - q).Length < tol` for a non-negative tolerance. */
  predicate CloserThan(p: Point, q: Point, tol: real)
  {
    Dist2(p, q) < tol * tol
  }

  /** `(p - q).Length > tol` for a non-negative tolerance. */
  predicate LongerThan(p: Point, q: Point, tol: real)
  {
    Dist2(p, q) > tol * tol
  }
}

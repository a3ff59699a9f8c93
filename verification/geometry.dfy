/**
  Geometry primitives of the CityGML parser: 3D points, rings and polygons
  with holes, and the ring-closure repair that runs before triangulation.
  Coordinates are exact reals; the double/float narrowing of the program is
  not modelled.
 */
module Geometry {

  /** A 3D point (also used for vectors such as plane normals). */
  datatype Point = Point(x: real, y: real, z: real)

  /** A point in the 2D coordinate system of a projection plane. */
  datatype Point2 = Point2(u: real, v: real)

  datatype Axis = X | Y | Z

  function Coord(p: Point, a: Axis): real
  {
    match a
    case X => p.x
    case Y => p.y
    case Z => p.z
  }

  function Sub(p: Point, q: Point): Point
  {
    Point(p.x - q.x, p.y - q.y, p.z - q.z)
  }

  function Dot(p: Point, q: Point): real
  {
    p.x * q.x + p.y * q.y + p.z * q.z
  }

  function Cross(p: Point, q: Point): Point
  {
    Point(p.y * q.z - p.z * q.y, p.z * q.x - p.x * q.z, p.x * q.y - p.y * q.x)
  }

  /** A ring is the ordered list of points of one boundary. */
  type Ring = seq<Point>

  /** One exterior ring plus zero or more interior rings (holes). */
  datatype Polygon = Polygon(exterior: Ring, interiors: seq<Ring>)

  /** The points of a list of rings, ring after ring. */
  function Flatten(rings: seq<Ring>): seq<Point>
    decreases |rings|
  {
    if |rings| == 0 then [] else rings[0] + Flatten(rings[1..])
  }

  /** The three coordinates of a point, as written to an output buffer. */
  function Position(p: Point): (r: seq<real>)
    ensures |r| == 3
  {
    [p.x, p.y, p.z]
  }

  /** A ring is closed when its last point equals its first (vacuous when empty). */
  predicate IsClosed(r: Ring)
  {
    |r| > 0 ==> r[|r| - 1] == r[0]
  }

  /**
    Closure repair: when the last point differs from the first in any
    coordinate, a copy of the first point is appended. Points are never
    removed. An empty ring has neither a first nor a last point and is left
    as it is.
   */
  function CloseRing(r: Ring): (c: Ring)
    ensures |r| <= |c| <= |r| + 1
    ensures IsClosed(c)
    ensures |r| > 0 ==> c[0] == r[0]
    ensures c[..|r|] == r
    ensures IsClosed(r) ==> c == r
    ensures !IsClosed(r) ==> c == r + [r[0]]
  {
    if |r| > 0 && r[|r| - 1] != r[0] then r + [r[0]] else r
  }

  /** Repairing an already repaired ring changes nothing. */
  lemma CloseRingIdempotent(r: Ring)
    ensures CloseRing(CloseRing(r)) == CloseRing(r)
  {
  }

  predicate AllClosed(rs: seq<Ring>)
  {
    forall k :: 0 <= k < |rs| ==> IsClosed(rs[k])
  }

  predicate PolygonClosed(p: Polygon)
  {
    IsClosed(p.exterior) && AllClosed(p.interiors)
  }

  /** Closes the exterior ring and every interior ring; the ring count is kept. */
  function ClosePolygon(p: Polygon): (c: Polygon)
    ensures PolygonClosed(c)
    ensures c.exterior == CloseRing(p.exterior)
    ensures |c.interiors| == |p.interiors|
    ensures forall k :: 0 <= k < |p.interiors| ==> c.interiors[k] == CloseRing(p.interiors[k])
  {
    Polygon(CloseRing(p.exterior), seq(|p.interiors|, k requires 0 <= k < |p.interiors| => CloseRing(p.interiors[k])))
  }

  /** A polygon whose rings are all closed is a fixed point of the repair. */
  lemma ClosePolygonOfClosed(p: Polygon)
    requires PolygonClosed(p)
    ensures ClosePolygon(p) == p
  {
  }

  lemma ClosePolygonIdempotent(p: Polygon)
    ensures ClosePolygon(ClosePolygon(p)) == ClosePolygon(p)
  {
    ClosePolygonOfClosed(ClosePolygon(p));
  }

  /** The triangle-shortcut normal is orthogonal to both edge vectors of the triangle. */
  lemma CrossOrthogonal(a: Point, b: Point)
    ensures Dot(Cross(a, b), a) == 0.0
    ensures Dot(Cross(a, b), b) == 0.0
  {
  }
}

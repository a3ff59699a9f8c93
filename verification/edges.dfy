/**
  The wireframe: each exterior ring is drawn as the segments between its
  consecutive points, two 3D endpoints (6 floats) per segment. Interior
  rings are not drawn, and polygons whose exterior ring has fewer than 4
  points are skipped.
 */
module Edges {
  import opened Geometry

  const EdgeFloats := 6

  /** One segment: its start position followed by its end position. */
  function EdgeRecord(p: Point, q: Point): (r: seq<real>)
    ensures |r| == EdgeFloats
  {
    Position(p) + Position(q)
  }

  /** The segments (p0, p1), (p1, p2), ..., (p[n-2], p[n-1]) of a ring, in order. */
  function RingEdges(ring: Ring): seq<real>
    decreases |ring|
  {
    if |ring| < 2 then [] else EdgeRecord(ring[0], ring[1]) + RingEdges(ring[1..])
  }

  function PolygonEdges(p: Polygon): seq<real>
  {
    if |p.exterior| < 4 then [] else RingEdges(p.exterior)
  }

  /** The edges of a list of polygons, in order. */
  function EdgesOf(polys: seq<Polygon>): seq<real>
    decreases |polys|
  {
    if |polys| == 0 then [] else PolygonEdges(polys[0]) + EdgesOf(polys[1..])
  }

  /**
    A ring of n >= 1 points yields n - 1 segments, and the k-th is the
    record of (p_k, p_{k+1}).
   */
  lemma {:induction false} RingEdgesRecords(ring: Ring)
    requires |ring| >= 1
    ensures |RingEdges(ring)| == EdgeFloats * (|ring| - 1)
    ensures forall k :: 0 <= k < |ring| - 1 ==>
      RingEdges(ring)[EdgeFloats * k .. EdgeFloats * k + EdgeFloats] == EdgeRecord(ring[k], ring[k + 1])
    decreases |ring|
  {
    if |ring| >= 2 {
      var head := EdgeRecord(ring[0], ring[1]);
      var tail := ring[1..];
      RingEdgesRecords(tail);
      var out := RingEdges(ring);
      assert out == head + RingEdges(tail);
      forall k | 0 <= k < |ring| - 1
        ensures out[EdgeFloats * k .. EdgeFloats * k + EdgeFloats] == EdgeRecord(ring[k], ring[k + 1])
      {
        if k > 0 {
          var lo := EdgeFloats * (k - 1);
          assert (head + RingEdges(tail))[|head| + lo .. |head| + lo + EdgeFloats] == RingEdges(tail)[lo .. lo + EdgeFloats];
          assert tail[k - 1] == ring[k] && tail[k] == ring[k + 1];
        }
      }
    }
  }

  /** A drawn polygon of n exterior points contributes n - 1 segments; a skipped one contributes none. */
  lemma PolygonEdgeCount(p: Polygon)
    ensures |PolygonEdges(p)| == if |p.exterior| < 4 then 0 else EdgeFloats * (|p.exterior| - 1)
  {
    if |p.exterior| >= 4 {
      RingEdgesRecords(p.exterior);
    }
  }

  /** Interior rings never contribute edges. */
  lemma HolesDrawNothing(p: Polygon, holes: seq<Ring>)
    ensures PolygonEdges(p.(interiors := holes)) == PolygonEdges(p)
  {
  }

  lemma {:induction false} EdgesOfAppend(ps: seq<Polygon>, qs: seq<Polygon>)
    ensures EdgesOf(ps + qs) == EdgesOf(ps) + EdgesOf(qs)
    decreases |ps|
  {
    if |ps| == 0 {
      assert ps + qs == qs;
    } else {
      assert (ps + qs)[1..] == ps[1..] + qs;
      EdgesOfAppend(ps[1..], qs);
    }
  }

  /** The number of segments drawn for a list of polygons. */
  function SegmentCount(polys: seq<Polygon>): nat
    decreases |polys|
  {
    if |polys| == 0 then 0
    else (if |polys[0].exterior| < 4 then 0 else |polys[0].exterior| - 1) + SegmentCount(polys[1..])
  }

  lemma {:induction false} EdgesOfCount(polys: seq<Polygon>)
    ensures |EdgesOf(polys)| == EdgeFloats * SegmentCount(polys)
    decreases |polys|
  {
    if |polys| > 0 {
      PolygonEdgeCount(polys[0]);
      EdgesOfCount(polys[1..]);
    }
  }
}

/**
  Turning one polygon into triangles: ring repair, the degenerate / bare
  triangle / general dispatch, constraint generation for the constrained
  triangulation, and the emission of labelled faces as flat float records.

  The geometry library is reached only through a `Kernel`: the least-squares
  plane fit and the construction of the constrained triangulation are its
  two operations, and a `Plane` carries the projection to 2D, the lifting
  back to 3D and the (unnormalised) normal.
 */
module Triangles {
  import opened Geometry
  import opened Labeling

  datatype Plane = Plane(normal: Point, to2d: Point -> Point2, to3d: Point2 -> Point)

  /** A required edge of the triangulation, between two projected vertices. */
  datatype Segment = Segment(a: Point2, b: Point2)

  /**
    The library operations: `fit` is the least-squares plane through a point
    list; `triangulate` builds the constrained triangulation of the inserted
    vertices with the given required edges. Inserting a point equal to an
    existing vertex yields that vertex, so vertex identity is equality of
    projected points.
   */
  datatype Kernel = Kernel(fit: seq<Point> -> Plane, triangulate: (seq<Point2>, seq<Segment>) -> Mesh)

  /** Six floats per triangle vertex (position then normal), three vertices per triangle. */
  const VertexFloats := 6
  const TriangleFloats := 18

  // ---------------------------------------------------------------------
  // Constraint generation
  // ---------------------------------------------------------------------

  function Projected(proj: Point -> Point2, ps: seq<Point>): (vs: seq<Point2>)
    ensures |vs| == |ps|
    ensures forall k :: 0 <= k < |ps| ==> vs[k] == proj(ps[k])
  {
    seq(|ps|, k requires 0 <= k < |ps| => proj(ps[k]))
  }

  /**
    Inserting the points `ps` one after another, the previously inserted
    vertex being `prev`: each newly inserted vertex is joined to the previous
    one by a constraint, unless both are the same vertex.
   */
  function Chain(proj: Point -> Point2, prev: Point2, ps: seq<Point>): seq<Segment>
    decreases |ps|
  {
    if |ps| == 0 then []
    else
      var cur := proj(ps[0]);
      (if prev != cur then [Segment(prev, cur)] else []) + Chain(proj, cur, ps[1..])
  }

  /** The exterior ring: its first point is inserted, then every following point is chained. */
  function ExteriorConstraints(proj: Point -> Point2, ring: Ring): seq<Segment>
  {
    if |ring| == 0 then [] else Chain(proj, proj(ring[0]), ring[1..])
  }

  /**
    An interior ring: skipped when it has fewer than 4 points; otherwise its
    first point is inserted, and then the whole ring is chained starting from
    that same first point again.
   */
  function InteriorConstraints(proj: Point -> Point2, ring: Ring): seq<Segment>
  {
    if |ring| < 4 then [] else Chain(proj, proj(ring[0]), ring)
  }

  function HoleConstraints(proj: Point -> Point2, rings: seq<Ring>): seq<Segment>
    decreases |rings|
  {
    if |rings| == 0 then [] else InteriorConstraints(proj, rings[0]) + HoleConstraints(proj, rings[1..])
  }

  function Constraints(proj: Point -> Point2, p: Polygon): seq<Segment>
  {
    ExteriorConstraints(proj, p.exterior) + HoleConstraints(proj, p.interiors)
  }

  /** The vertices in insertion order: the exterior ring, then each interior ring of 4 or more points with its first point twice. */
  function Inserted(proj: Point -> Point2, p: Polygon): seq<Point2>
  {
    Projected(proj, p.exterior) + InsertedHoles(proj, p.interiors)
  }

  function InsertedHoles(proj: Point -> Point2, rings: seq<Ring>): seq<Point2>
    decreases |rings|
  {
    if |rings| == 0 then []
    else
      var r := rings[0];
      (if |r| < 4 then [] else [proj(r[0])] + Projected(proj, r)) + InsertedHoles(proj, rings[1..])
  }

  /** All points of the polygon, holes included whatever their size: the input of the plane fit. */
  function FitPoints(p: Polygon): seq<Point>
  {
    p.exterior + Flatten(p.interiors)
  }

  /** Segment `s` joins two consecutive entries of `vs`. */
  predicate Joins(vs: seq<Point2>, s: Segment)
  {
    exists k :: 0 <= k < |vs| - 1 && vs[k] == s.a && vs[k + 1] == s.b
  }

  lemma JoinsCons(v: Point2, vs: seq<Point2>, s: Segment)
    requires |vs| > 0
    ensures Joins([v] + vs, s) <==> s == Segment(v, vs[0]) || Joins(vs, s)
  {
    var ws := [v] + vs;
    if Joins(ws, s) {
      var k :| 0 <= k < |ws| - 1 && ws[k] == s.a && ws[k + 1] == s.b;
      if k > 0 {
        assert vs[k - 1] == s.a && vs[k] == s.b;
      }
    }
    if Joins(vs, s) {
      var k :| 0 <= k < |vs| - 1 && vs[k] == s.a && vs[k + 1] == s.b;
      assert ws[k + 1] == s.a && ws[k + 2] == s.b;
    }
    if s == Segment(v, vs[0]) {
      assert ws[0] == s.a && ws[1] == s.b;
    }
  }

  /**
    A chain holds exactly the pairs of consecutive vertices (the previous
    vertex followed by the projected points) that differ; in particular no
    constraint has equal endpoints.
   */
  lemma {:induction false} ChainExactly(proj: Point -> Point2, prev: Point2, ps: seq<Point>, s: Segment)
    ensures s in Chain(proj, prev, ps) <==> s.a != s.b && Joins([prev] + Projected(proj, ps), s)
    decreases |ps|
  {
    if |ps| > 0 {
      var cur := proj(ps[0]);
      var rest := [cur] + Projected(proj, ps[1..]);
      assert [prev] + Projected(proj, ps) == [prev] + rest;
      ChainExactly(proj, cur, ps[1..], s);
      JoinsCons(prev, rest, s);
      var head := if prev != cur then [Segment(prev, cur)] else [];
      assert Chain(proj, prev, ps) == head + Chain(proj, cur, ps[1..]);
      assert s in Chain(proj, prev, ps) <==> s in head || s in Chain(proj, cur, ps[1..]);
    }
  }

  /**
    Inserting an interior ring's first point twice adds no constraint: the
    interior chain is the chain an exterior ring of the same points gets.
   */
  lemma InteriorDoubleInsertHarmless(proj: Point -> Point2, ring: Ring)
    requires |ring| >= 4
    ensures InteriorConstraints(proj, ring) == ExteriorConstraints(proj, ring)
  {
    assert ring[1..] == ring[0..][1..];
  }

  /** Interior rings with fewer than 4 points contribute no constraint. */
  lemma {:induction false} ShortHolesIgnored(proj: Point -> Point2, rings: seq<Ring>, s: Segment)
    ensures s in HoleConstraints(proj, rings) <==>
      exists k :: 0 <= k < |rings| && |rings[k]| >= 4 && s in ExteriorConstraints(proj, rings[k])
    decreases |rings|
  {
    if |rings| > 0 {
      ShortHolesIgnored(proj, rings[1..], s);
      if |rings[0]| >= 4 {
        InteriorDoubleInsertHarmless(proj, rings[0]);
      }
      if exists k :: 0 <= k < |rings| && |rings[k]| >= 4 && s in ExteriorConstraints(proj, rings[k]) {
        var k :| 0 <= k < |rings| && |rings[k]| >= 4 && s in ExteriorConstraints(proj, rings[k]);
        if k > 0 {
          assert rings[1..][k - 1] == rings[k];
        }
      }
      if exists k :: 0 <= k < |rings| - 1 && |rings[1..][k]| >= 4 && s in ExteriorConstraints(proj, rings[1..][k]) {
        var k :| 0 <= k < |rings| - 1 && |rings[1..][k]| >= 4 && s in ExteriorConstraints(proj, rings[1..][k]);
        assert rings[k + 1] == rings[1..][k];
      }
    }
  }

  /** No constraint handed to the triangulation has equal endpoints. */
  lemma NoZeroLengthConstraint(proj: Point -> Point2, p: Polygon, s: Segment)
    requires s in Constraints(proj, p)
    ensures s.a != s.b
  {
    if s in ExteriorConstraints(proj, p.exterior) {
      ChainExactly(proj, proj(p.exterior[0]), p.exterior[1..], s);
    } else {
      ShortHolesIgnored(proj, p.interiors, s);
      var k :| 0 <= k < |p.interiors| && |p.interiors[k]| >= 4 && s in ExteriorConstraints(proj, p.interiors[k]);
      var r := p.interiors[k];
      ChainExactly(proj, proj(r[0]), r[1..], s);
    }
  }

  // ---------------------------------------------------------------------
  // Emission
  // ---------------------------------------------------------------------

  /** One vertex of a triangle: its position followed by the normal. */
  function VertexRecord(p: Point, n: Point): (r: seq<real>)
    ensures |r| == VertexFloats
  {
    Position(p) + Position(n)
  }

  /** One triangle: each vertex's position followed by the same normal. */
  function TriangleRecord(a: Point, b: Point, c: Point, n: Point): (r: seq<real>)
    ensures |r| == TriangleFloats
    ensures r[0..6] == VertexRecord(a, n) && r[6..12] == VertexRecord(b, n) && r[12..18] == VertexRecord(c, n)
  {
    VertexRecord(a, n) + VertexRecord(b, n) + VertexRecord(c, n)
  }

  /** A labelled face is emitted when it is finite and inside. */
  predicate Emits(m: Mesh, inside: seq<bool>, f: nat)
    requires |inside| == |m| && f < |m|
  {
    !m[f].infinite && inside[f]
  }

  /** A face lifted back to 3D with the plane's inverse mapping, carrying the plane's normal. */
  function FaceRecord(plane: Plane, face: Face): seq<real>
    requires |face.corner| == 3
  {
    TriangleRecord(plane.to3d(face.corner[0]), plane.to3d(face.corner[1]), plane.to3d(face.corner[2]), plane.normal)
  }

  /** The triangles of faces 0 .. n-1, in face order. */
  function EmitFaces(m: Mesh, plane: Plane, inside: seq<bool>, n: nat): seq<real>
    requires |inside| == |m| && n <= |m|
    decreases n
  {
    if n == 0 then []
    else EmitFaces(m, plane, inside, n - 1) + (if Emits(m, inside, n - 1) then FaceRecord(plane, m[n - 1]) else [])
  }

  /** Reference: the ascending list of emitted faces among 0 .. n-1. */
  function Selected(m: Mesh, inside: seq<bool>, n: nat): (sel: seq<nat>)
    requires |inside| == |m| && n <= |m|
    ensures forall j :: 0 <= j < |sel| ==> sel[j] < n && Emits(m, inside, sel[j])
    ensures forall f :: 0 <= f < n && Emits(m, inside, f) ==> f in sel
    ensures forall j, k :: 0 <= j < k < |sel| ==> sel[j] < sel[k]
    decreases n
  {
    if n == 0 then []
    else Selected(m, inside, n - 1) + (if Emits(m, inside, n - 1) then [n - 1] else [])
  }

  lemma {:induction false} EmitFacesLength(m: Mesh, plane: Plane, inside: seq<bool>, n: nat)
    requires |inside| == |m| && n <= |m|
    ensures |EmitFaces(m, plane, inside, n)| == TriangleFloats * |Selected(m, inside, n)|
    decreases n
  {
    if n > 0 {
      EmitFacesLength(m, plane, inside, n - 1);
    }
  }

  /** The j-th record of an appended buffer is the j-th record of the prefix, or the appended record. */
  lemma RecordOfAppend(prev: seq<real>, rec: seq<real>, j: nat, count: nat)
    requires |prev| == TriangleFloats * count
    requires j <= count
    requires |rec| == TriangleFloats || (|rec| == 0 && j < count)
    ensures TriangleFloats * j + TriangleFloats <= |prev + rec|
    ensures (prev + rec)[TriangleFloats * j .. TriangleFloats * j + TriangleFloats]
         == if j < count then prev[TriangleFloats * j .. TriangleFloats * j + TriangleFloats] else rec
  {
    var lo := TriangleFloats * j;
    if j < count {
      assert lo + TriangleFloats <= |prev|;
      assert (prev + rec)[lo .. lo + TriangleFloats] == prev[lo .. lo + TriangleFloats];
    } else {
      assert lo == |prev|;
    }
  }

  /**
    The emitted buffer is one 18-float record per selected face, in order:
    the j-th record is the j-th emitted face lifted to 3D with the plane
    normal; nothing else is emitted.
   */
  lemma {:induction false} EmitFacesRecords(m: Mesh, plane: Plane, inside: seq<bool>, n: nat)
    requires |inside| == |m| && n <= |m|
    ensures |EmitFaces(m, plane, inside, n)| == TriangleFloats * |Selected(m, inside, n)|
    ensures forall j :: 0 <= j < |Selected(m, inside, n)| ==>
      EmitFaces(m, plane, inside, n)[TriangleFloats * j .. TriangleFloats * j + TriangleFloats]
        == FaceRecord(plane, m[Selected(m, inside, n)[j]])
    decreases n
  {
    if n > 0 {
      EmitFacesRecords(m, plane, inside, n - 1);
      var prev := EmitFaces(m, plane, inside, n - 1);
      var sel := Selected(m, inside, n - 1);
      if Emits(m, inside, n - 1) {
        var rec := FaceRecord(plane, m[n - 1]);
        var sel' := sel + [n - 1];
        assert EmitFaces(m, plane, inside, n) == prev + rec;
        assert Selected(m, inside, n) == sel';
        forall j | 0 <= j < |sel'|
          ensures (prev + rec)[TriangleFloats * j .. TriangleFloats * j + TriangleFloats] == FaceRecord(plane, m[sel'[j]])
        {
          RecordOfAppend(prev, rec, j, |sel|);
          if j < |sel| {
            assert sel'[j] == sel[j];
          }
        }
      } else {
        assert EmitFaces(m, plane, inside, n) == prev + [] == prev;
        assert Selected(m, inside, n) == sel + [] == sel;
      }
    }
  }

  // ---------------------------------------------------------------------
  // Dispatch
  // ---------------------------------------------------------------------

  /** The normal of the plane through three points, as the plane's coefficient vector (q - p) x (r - p). */
  function ShortcutNormal(p: Point, q: Point, r: Point): (n: Point)
    ensures Dot(n, Sub(q, p)) == 0.0 && Dot(n, Sub(r, p)) == 0.0
  {
    CrossOrthogonal(Sub(q, p), Sub(r, p));
    Cross(Sub(q, p), Sub(r, p))
  }

  predicate HasFiniteFace(m: Mesh)
  {
    exists f :: 0 <= f < |m| && !m[f].infinite
  }

  /** The general path: fit a plane, triangulate the projection, label the faces, emit the inside ones. */
  function TriangulatePolygon(k: Kernel, p: Polygon): seq<real>
  {
    var plane := k.fit(FitPoints(p));
    var mesh := k.triangulate(Inserted(plane.to2d, p), Constraints(plane.to2d, p));
    if !HasFiniteFace(mesh) then []
    else EmitFaces(mesh, plane, FloodFill(mesh).inside, |mesh|)
  }

  /**
    One polygon: its rings are repaired in place (the repaired polygon is
    returned), then a polygon whose exterior ring has fewer than 4 points is
    skipped, a bare triangle (4 points, no holes) is emitted directly, and
    anything else is triangulated.
   */
  function AddTriangles(k: Kernel, p: Polygon, buffer: seq<real>): (r: (Polygon, seq<real>))
    ensures r.0 == ClosePolygon(p)
    ensures |buffer| <= |r.1| && r.1[..|buffer|] == buffer
    ensures |ClosePolygon(p).exterior| < 4 ==> r.1 == buffer
  {
    var c := ClosePolygon(p);
    var e := c.exterior;
    if |e| < 4 then (c, buffer)
    else if |e| == 4 && |c.interiors| == 0 then
      (c, buffer + TriangleRecord(e[0], e[1], e[2], ShortcutNormal(e[0], e[1], e[2])))
    else (c, buffer + TriangulatePolygon(k, c))
  }

  /** Every polygon appends whole triangle records only. */
  lemma AppendsWholeTriangles(k: Kernel, p: Polygon, buffer: seq<real>)
    ensures exists count: nat :: |AddTriangles(k, p, buffer).1| == |buffer| + TriangleFloats * count
  {
    var c := ClosePolygon(p);
    var out := AddTriangles(k, p, buffer).1;
    if |c.exterior| < 4 {
      assert |out| == |buffer| + TriangleFloats * 0;
    } else if |c.exterior| == 4 && |c.interiors| == 0 {
      assert |out| == |buffer| + TriangleFloats * 1;
    } else {
      var plane := k.fit(FitPoints(c));
      var mesh := k.triangulate(Inserted(plane.to2d, c), Constraints(plane.to2d, c));
      GeneralPath(k, p, buffer);
      assert |out| == |buffer| + TriangleFloats * |Selected(mesh, FloodFill(mesh).inside, |mesh|)|;
    }
  }

  /**
    A bare triangle is emitted as exactly one record holding its three
    points in their original order, each followed by one normal orthogonal
    to both triangle edges.
   */
  lemma BareTriangle(k: Kernel, p: Polygon, buffer: seq<real>)
    requires |ClosePolygon(p).exterior| == 4 && |p.interiors| == 0
    ensures var e := ClosePolygon(p).exterior;
      exists n: Point ::
        && AddTriangles(k, p, buffer).1 == buffer + TriangleRecord(e[0], e[1], e[2], n)
        && Dot(n, Sub(e[1], e[0])) == 0.0 && Dot(n, Sub(e[2], e[0])) == 0.0
  {
    var e := ClosePolygon(p).exterior;
    var n := ShortcutNormal(e[0], e[1], e[2]);
    assert AddTriangles(k, p, buffer).1 == buffer + TriangleRecord(e[0], e[1], e[2], n);
  }

  /** An unclosed three-point ring is closed to four points and then takes the bare-triangle path. */
  lemma UnclosedTriangleIsEmitted(k: Kernel, a: Point, b: Point, c: Point, buffer: seq<real>)
    requires c != a
    ensures AddTriangles(k, Polygon([a, b, c], []), buffer).1
         == buffer + TriangleRecord(a, b, c, ShortcutNormal(a, b, c))
  {
    var e := ClosePolygon(Polygon([a, b, c], [])).exterior;
    assert e == [a, b, c, a];
  }

  /** An already closed three-point ring stays at three points and is skipped. */
  lemma ClosedThreePointRingSkipped(k: Kernel, a: Point, b: Point, buffer: seq<real>)
    ensures AddTriangles(k, Polygon([a, b, a], []), buffer).1 == buffer
  {
  }

  /**
    The triangles of a labelled mesh are the records of its finite faces
    labelled inside, 18 floats per face, and each such face is reachable
    from the infinite face across an odd number of constrained sides.
   */
  lemma EmittedFacesAreInside(m: Mesh, plane: Plane)
    ensures var inside := FloodFill(m).inside;
      var sel := Selected(m, inside, |m|);
      && |EmitFaces(m, plane, inside, |m|)| == TriangleFloats * |sel|
      && forall j :: 0 <= j < |sel| ==> !m[sel[j]].infinite && exists w :: Explains(m, w, sel[j], true)
  {
    var r := FloodFill(m);
    var inside := r.inside;
    EmitFacesRecords(m, plane, inside, |m|);
    var sel := Selected(m, inside, |m|);
    forall j | 0 <= j < |sel|
      ensures !m[sel[j]].infinite && exists w :: Explains(m, w, sel[j], true)
    {
      var f := sel[j];
      assert Emits(m, inside, f);
      assert r.visited[f];
      var w :| Explains(m, w, f, r.inside[f]);
    }
  }

  /**
    Appending whole records to a buffer shifts each of them by the buffer's
    length. Proved apart, away from the facts about the triangulation.
   */
  lemma RecordsAfterPrefix(buffer: seq<real>, e: seq<real>, count: nat)
    requires |e| == TriangleFloats * count
    ensures (buffer + e)[..|buffer|] == buffer
    ensures forall j :: 0 <= j < count ==>
      (buffer + e)[|buffer| + TriangleFloats * j .. |buffer| + TriangleFloats * j + TriangleFloats]
        == e[TriangleFloats * j .. TriangleFloats * j + TriangleFloats]
  {
  }

  /** The general path appends the emitted faces of the flood-filled triangulation. */
  lemma GeneralPathEmits(k: Kernel, p: Polygon, buffer: seq<real>)
    requires var c := ClosePolygon(p); |c.exterior| >= 4 && !(|c.exterior| == 4 && |c.interiors| == 0)
    ensures var c := ClosePolygon(p);
      var plane := k.fit(FitPoints(c));
      var mesh := k.triangulate(Inserted(plane.to2d, c), Constraints(plane.to2d, c));
      AddTriangles(k, p, buffer).1 == buffer + EmitFaces(mesh, plane, FloodFill(mesh).inside, |mesh|)
  {
    var c := ClosePolygon(p);
    var plane := k.fit(FitPoints(c));
    var mesh := k.triangulate(Inserted(plane.to2d, c), Constraints(plane.to2d, c));
    var inside := FloodFill(mesh).inside;
    if !HasFiniteFace(mesh) {
      NoFiniteFaceEmitsNothing(mesh, plane, inside, |mesh|);
    }
  }

  /**
    In the general path the buffer keeps its contents and grows by one
    18-float record per finite face the flood fill labels inside, in face
    order: record j is that face lifted back to 3D with the fitted plane's
    normal.
   */
  lemma GeneralPath(k: Kernel, p: Polygon, buffer: seq<real>)
    requires var c := ClosePolygon(p); |c.exterior| >= 4 && !(|c.exterior| == 4 && |c.interiors| == 0)
    ensures var c := ClosePolygon(p);
      var plane := k.fit(FitPoints(c));
      var mesh := k.triangulate(Inserted(plane.to2d, c), Constraints(plane.to2d, c));
      var sel := Selected(mesh, FloodFill(mesh).inside, |mesh|);
      var out := AddTriangles(k, p, buffer).1;
      && |out| == |buffer| + TriangleFloats * |sel|
      && out[..|buffer|] == buffer
      && forall j :: 0 <= j < |sel| ==>
           out[|buffer| + TriangleFloats * j .. |buffer| + TriangleFloats * j + TriangleFloats] == FaceRecord(plane, mesh[sel[j]])
  {
    var c := ClosePolygon(p);
    var plane := k.fit(FitPoints(c));
    var mesh := k.triangulate(Inserted(plane.to2d, c), Constraints(plane.to2d, c));
    var inside := FloodFill(mesh).inside;
    var sel := Selected(mesh, inside, |mesh|);
    var e := EmitFaces(mesh, plane, inside, |mesh|);
    GeneralPathEmits(k, p, buffer);
    EmitFacesRecords(mesh, plane, inside, |mesh|);
    RecordsAfterPrefix(buffer, e, |sel|);
  }

  lemma {:induction false} NoFiniteFaceEmitsNothing(m: Mesh, plane: Plane, inside: seq<bool>, n: nat)
    requires |inside| == |m| && n <= |m|
    requires !HasFiniteFace(m)
    ensures EmitFaces(m, plane, inside, n) == []
    decreases n
  {
    if n > 0 {
      NoFiniteFaceEmitsNothing(m, plane, inside, n - 1);
    }
  }

  /** The repair is applied before dispatch, so dispatching an already repaired polygon gives the same result. */
  lemma AddTrianglesAfterRepair(k: Kernel, p: Polygon, buffer: seq<real>)
    ensures AddTriangles(k, ClosePolygon(p), buffer) == AddTriangles(k, p, buffer)
  {
    ClosePolygonIdempotent(p);
  }
}

/**
  Regeneration of an object's output buffers from its polygons: first the
  triangles (one buffer per surface type, and every polygon is repaired in
  place on the way), then the edges (one buffer for the whole object,
  surface types in key order). Regeneration runs over all objects.
 */
module Regenerate {
  import opened Geometry
  import opened Triangles
  import opened Edges
  import opened Objects

  function ClosePolygons(polys: seq<Polygon>): (r: seq<Polygon>)
    ensures |r| == |polys|
    ensures forall i :: 0 <= i < |polys| ==> r[i] == ClosePolygon(polys[i])
  {
    seq(|polys|, i requires 0 <= i < |polys| => ClosePolygon(polys[i]))
  }

  /** Threads one buffer through the polygons of a surface type; each polygon is replaced by its repaired form. */
  function AddAll(k: Kernel, polys: seq<Polygon>, buffer: seq<real>): (r: (seq<Polygon>, seq<real>))
    ensures r.0 == ClosePolygons(polys)
    decreases |polys|
  {
    if |polys| == 0 then ([], buffer)
    else
      var first := AddTriangles(k, polys[0], buffer);
      var rest := AddAll(k, polys[1..], first.1);
      ([first.0] + rest.0, rest.1)
  }

  /** The triangles one polygon produces on its own. */
  function PolygonTriangles(k: Kernel, p: Polygon): seq<real>
  {
    AddTriangles(k, p, []).1
  }

  /** Reference: the triangles of each polygon, concatenated in order. */
  function TrianglesOf(k: Kernel, polys: seq<Polygon>): seq<real>
    decreases |polys|
  {
    if |polys| == 0 then [] else PolygonTriangles(k, polys[0]) + TrianglesOf(k, polys[1..])
  }

  /** Appending to a buffer never looks at what the buffer already holds. */
  lemma AddTrianglesAppends(k: Kernel, p: Polygon, buffer: seq<real>)
    ensures AddTriangles(k, p, buffer).1 == buffer + PolygonTriangles(k, p)
  {
    var c := ClosePolygon(p);
    var e := c.exterior;
    if |e| >= 4 {
      if |e| == 4 && |c.interiors| == 0 {
        assert [] + TriangleRecord(e[0], e[1], e[2], ShortcutNormal(e[0], e[1], e[2]))
            == TriangleRecord(e[0], e[1], e[2], ShortcutNormal(e[0], e[1], e[2]));
      } else {
        assert [] + TriangulatePolygon(k, c) == TriangulatePolygon(k, c);
      }
    }
  }

  /**
    Regrouping a concatenation. Proved apart, so that the sequence
    extensionality it needs is not searched among the triangulation's facts.
   */
  lemma Associative(a: seq<real>, b: seq<real>, c: seq<real>)
    ensures a + b + c == a + (b + c)
  {
  }

  /** The shared buffer ends up as the concatenation of every polygon's own triangles. */
  lemma {:induction false} AddAllIsConcat(k: Kernel, polys: seq<Polygon>, buffer: seq<real>)
    ensures AddAll(k, polys, buffer).1 == buffer + TrianglesOf(k, polys)
    decreases |polys|
  {
    if |polys| > 0 {
      var b := AddTriangles(k, polys[0], buffer).1;
      AddTrianglesAppends(k, polys[0], buffer);
      AddAllIsConcat(k, polys[1..], b);
      Associative(buffer, PolygonTriangles(k, polys[0]), TrianglesOf(k, polys[1..]));
    }
  }

  /**
    Per-surface-type buffers filled by `buffer` from each type's polygons.
    After the buffers are cleared, a type gets an entry as soon as it has a
    polygon, whether or not that polygon emits anything.
   */
  function BufferMap(gs: seq<SurfaceGroup>, buffer: seq<Polygon> -> seq<real>): map<string, seq<real>>
    decreases |gs|
  {
    if |gs| == 0 then map[]
    else
      var g := gs[|gs| - 1];
      var m := BufferMap(gs[..|gs| - 1], buffer);
      if |g.polygons| == 0 then m else m[g.key := buffer(g.polygons)]
  }

  /** A surface type has a buffer exactly when it has at least one polygon. */
  lemma {:induction false} BufferMapKeys(gs: seq<SurfaceGroup>, buffer: seq<Polygon> -> seq<real>, key: string)
    ensures key in BufferMap(gs, buffer) <==> exists i :: 0 <= i < |gs| && gs[i].key == key && |gs[i].polygons| > 0
    decreases |gs|
  {
    if |gs| > 0 {
      var n := |gs| - 1;
      var init := gs[..n];
      BufferMapKeys(init, buffer, key);
      if exists i :: 0 <= i < |gs| && gs[i].key == key && |gs[i].polygons| > 0 {
        var i :| 0 <= i < |gs| && gs[i].key == key && |gs[i].polygons| > 0;
        if i < n {
          assert init[i] == gs[i];
        }
      }
      if exists i :: 0 <= i < |init| && init[i].key == key && |init[i].polygons| > 0 {
        var i :| 0 <= i < |init| && init[i].key == key && |init[i].polygons| > 0;
        assert init[i] == gs[i];
      }
    }
  }

  /** The buffer of a surface type is computed from its own polygons; distinct keys keep the entries apart. */
  lemma {:induction false} BufferMapValue(gs: Groups, buffer: seq<Polygon> -> seq<real>, i: nat)
    requires i < |gs| && |gs[i].polygons| > 0
    ensures gs[i].key in BufferMap(gs, buffer)
    ensures BufferMap(gs, buffer)[gs[i].key] == buffer(gs[i].polygons)
    decreases |gs|
  {
    var n := |gs| - 1;
    var init: Groups := gs[..n];
    if i < n {
      assert init[i] == gs[i];
      BufferMapValue(init, buffer, i);
      KeysDistinct(gs, i, n);
    }
  }

  /** Two group lists with the same keys, the same empty types and equal buffers give the same map. */
  lemma {:induction false} BufferMapCongruent(gs: seq<SurfaceGroup>, hs: seq<SurfaceGroup>, buffer: seq<Polygon> -> seq<real>)
    requires |gs| == |hs|
    requires forall i :: 0 <= i < |gs| ==> gs[i].key == hs[i].key && |gs[i].polygons| == |hs[i].polygons|
    requires forall i :: 0 <= i < |gs| ==> buffer(gs[i].polygons) == buffer(hs[i].polygons)
    ensures BufferMap(gs, buffer) == BufferMap(hs, buffer)
    decreases |gs|
  {
    if |gs| > 0 {
      var n := |gs| - 1;
      BufferMapCongruent(gs[..n], hs[..n], buffer);
    }
  }

  /** The triangle buffer of one surface type, rebuilt from empty. */
  function GroupTriangles(k: Kernel, polys: seq<Polygon>): seq<real>
  {
    AddAll(k, polys, []).1
  }

  function TriangleMap(k: Kernel, gs: seq<SurfaceGroup>): map<string, seq<real>>
  {
    BufferMap(gs, polys => GroupTriangles(k, polys))
  }

  /** The polygons of every surface type replaced by their repaired forms. */
  function CloseGroups(gs: Groups): (r: Groups)
    ensures |r| == |gs|
    ensures forall i :: 0 <= i < |gs| ==> r[i].key == gs[i].key && r[i].polygons == ClosePolygons(gs[i].polygons)
  {
    var r := seq(|gs|, i requires 0 <= i < |gs| => SurfaceGroup(gs[i].key, ClosePolygons(gs[i].polygons)));
    assert forall i :: 0 <= i < |gs| ==> r[i].key == gs[i].key;
    r
  }

  lemma TriangleMapSpec(k: Kernel, gs: Groups)
    ensures forall key :: key in TriangleMap(k, gs) <==> exists i :: 0 <= i < |gs| && gs[i].key == key && |gs[i].polygons| > 0
    ensures forall i :: 0 <= i < |gs| && |gs[i].polygons| > 0 ==> TriangleMap(k, gs)[gs[i].key] == TrianglesOf(k, gs[i].polygons)
  {
    var f := polys => GroupTriangles(k, polys);
    assert TriangleMap(k, gs) == BufferMap(gs, f);
    forall key
      ensures key in BufferMap(gs, f) <==> exists i :: 0 <= i < |gs| && gs[i].key == key && |gs[i].polygons| > 0
    {
      BufferMapKeys(gs, f, key);
    }
    forall i | 0 <= i < |gs| && |gs[i].polygons| > 0
      ensures BufferMap(gs, f)[gs[i].key] == TrianglesOf(k, gs[i].polygons)
    {
      BufferMapValue(gs, f, i);
      AddAllIsConcat(k, gs[i].polygons, []);
      assert [] + TrianglesOf(k, gs[i].polygons) == TrianglesOf(k, gs[i].polygons);
    }
  }

  /** Rebuilds the triangle buffers from scratch; nothing but the polygons and the triangles changes. */
  function RegenerateTrianglesFor(k: Kernel, o: CityObject): (r: CityObject)
    ensures r.id == o.id && r.kind == o.kind && r.attributes == o.attributes && r.edges == o.edges
    ensures r.polygonsByType == CloseGroups(o.polygonsByType)
    ensures forall key :: key in r.trianglesByType <==>
      exists i :: 0 <= i < |o.polygonsByType| && o.polygonsByType[i].key == key && |o.polygonsByType[i].polygons| > 0
    ensures forall i :: 0 <= i < |o.polygonsByType| && |o.polygonsByType[i].polygons| > 0 ==>
      r.trianglesByType[o.polygonsByType[i].key] == TrianglesOf(k, o.polygonsByType[i].polygons)
  {
    TriangleMapSpec(k, o.polygonsByType);
    o.(polygonsByType := CloseGroups(o.polygonsByType), trianglesByType := TriangleMap(k, o.polygonsByType))
  }

  /** All polygons of an object, surface types in key order. */
  function AllPolygons(gs: seq<SurfaceGroup>): seq<Polygon>
    decreases |gs|
  {
    if |gs| == 0 then [] else gs[0].polygons + AllPolygons(gs[1..])
  }

  /** The edge buffer, group by group. */
  function GroupEdges(gs: seq<SurfaceGroup>): seq<real>
    decreases |gs|
  {
    if |gs| == 0 then [] else EdgesOf(gs[0].polygons) + GroupEdges(gs[1..])
  }

  lemma {:induction false} GroupEdgesFlatten(gs: seq<SurfaceGroup>)
    ensures GroupEdges(gs) == EdgesOf(AllPolygons(gs))
    decreases |gs|
  {
    if |gs| > 0 {
      GroupEdgesFlatten(gs[1..]);
      EdgesOfAppend(gs[0].polygons, AllPolygons(gs[1..]));
    }
  }

  /** Rebuilds the edge buffer from scratch: the edges of all polygons, surface types in key order. */
  function RegenerateEdgesFor(o: CityObject): (r: CityObject)
    ensures r.id == o.id && r.kind == o.kind && r.attributes == o.attributes
    ensures r.polygonsByType == o.polygonsByType && r.trianglesByType == o.trianglesByType
    ensures r.edges == EdgesOf(AllPolygons(o.polygonsByType))
  {
    GroupEdgesFlatten(o.polygonsByType);
    o.(edges := GroupEdges(o.polygonsByType))
  }

  /** Triangles first, then edges, so the edges are drawn from the repaired rings. */
  function RegenerateObject(k: Kernel, o: CityObject): (r: CityObject)
    ensures r.id == o.id && r.kind == o.kind && r.attributes == o.attributes
    ensures r.polygonsByType == CloseGroups(o.polygonsByType)
    ensures r.edges == EdgesOf(AllPolygons(CloseGroups(o.polygonsByType)))
    ensures forall key :: key in r.trianglesByType <==>
      exists i :: 0 <= i < |o.polygonsByType| && o.polygonsByType[i].key == key && |o.polygonsByType[i].polygons| > 0
    ensures forall i :: 0 <= i < |o.polygonsByType| && |o.polygonsByType[i].polygons| > 0 ==>
      r.trianglesByType[o.polygonsByType[i].key] == TrianglesOf(k, o.polygonsByType[i].polygons)
  {
    RegenerateEdgesFor(RegenerateTrianglesFor(k, o))
  }

  function RegenerateGeometries(k: Kernel, objects: seq<CityObject>): (r: seq<CityObject>)
    ensures |r| == |objects|
    ensures forall i :: 0 <= i < |objects| ==> r[i] == RegenerateObject(k, objects[i])
  {
    seq(|objects|, i requires 0 <= i < |objects| => RegenerateObject(k, objects[i]))
  }

  lemma ClosePolygonsIdempotent(polys: seq<Polygon>)
    ensures ClosePolygons(ClosePolygons(polys)) == ClosePolygons(polys)
  {
    forall i | 0 <= i < |polys|
      ensures ClosePolygons(ClosePolygons(polys))[i] == ClosePolygons(polys)[i]
    {
      ClosePolygonIdempotent(polys[i]);
    }
  }

  lemma CloseGroupsIdempotent(gs: Groups)
    ensures CloseGroups(CloseGroups(gs)) == CloseGroups(gs)
  {
    var c := CloseGroups(gs);
    forall i | 0 <= i < |gs|
      ensures CloseGroups(c)[i] == c[i]
    {
      ClosePolygonsIdempotent(gs[i].polygons);
    }
  }

  /** Triangulating repaired polygons gives what triangulating the originals gives. */
  lemma {:induction false} TrianglesOfRepaired(k: Kernel, polys: seq<Polygon>)
    ensures TrianglesOf(k, ClosePolygons(polys)) == TrianglesOf(k, polys)
    decreases |polys|
  {
    if |polys| > 0 {
      var c := ClosePolygons(polys);
      assert c[0] == ClosePolygon(polys[0]);
      assert c[1..] == ClosePolygons(polys[1..]);
      AddTrianglesAfterRepair(k, polys[0], []);
      TrianglesOfRepaired(k, polys[1..]);
    }
  }

  /** The triangle buffers of repaired groups are those of the original groups. */
  lemma TriangleMapRepaired(k: Kernel, gs: Groups)
    ensures TriangleMap(k, CloseGroups(gs)) == TriangleMap(k, gs)
  {
    var cg := CloseGroups(gs);
    var f := polys => GroupTriangles(k, polys);
    forall i | 0 <= i < |gs|
      ensures f(cg[i].polygons) == f(gs[i].polygons)
    {
      var ps := gs[i].polygons;
      AddAllIsConcat(k, ps, []);
      AddAllIsConcat(k, ClosePolygons(ps), []);
      TrianglesOfRepaired(k, ps);
    }
    BufferMapCongruent(cg, gs, f);
    assert TriangleMap(k, cg) == BufferMap(cg, f);
    assert TriangleMap(k, gs) == BufferMap(gs, f);
  }

  /** Regenerating an object twice gives the same object as regenerating it once. */
  lemma RegenerateObjectIdempotent(k: Kernel, o: CityObject)
    ensures RegenerateObject(k, RegenerateObject(k, o)) == RegenerateObject(k, o)
  {
    var r1 := RegenerateObject(k, o);
    var r2 := RegenerateObject(k, r1);
    CloseGroupsIdempotent(o.polygonsByType);
    TriangleMapRepaired(k, o.polygonsByType);
    assert r1.trianglesByType == TriangleMap(k, o.polygonsByType);
    assert r2.trianglesByType == TriangleMap(k, CloseGroups(o.polygonsByType));
  }

  /** Running the whole regeneration again changes nothing. */
  lemma RegenerateGeometriesIdempotent(k: Kernel, objects: seq<CityObject>)
    ensures RegenerateGeometries(k, RegenerateGeometries(k, objects)) == RegenerateGeometries(k, objects)
  {
    forall i | 0 <= i < |objects|
      ensures RegenerateGeometries(k, RegenerateGeometries(k, objects))[i] == RegenerateGeometries(k, objects)[i]
    {
      RegenerateObjectIdempotent(k, objects[i]);
    }
  }

  /** The edge buffer holds one 6-float segment per consecutive pair of each drawn (repaired) exterior ring. */
  lemma RegeneratedEdgeCount(k: Kernel, o: CityObject)
    ensures |RegenerateObject(k, o).edges| == EdgeFloats * SegmentCount(AllPolygons(CloseGroups(o.polygonsByType)))
  {
    EdgesOfCount(AllPolygons(CloseGroups(o.polygonsByType)));
  }

  /** A single-polygon object lists exactly that polygon. */
  lemma OnlyPolygon(gs: seq<SurfaceGroup>, key: string, p: Polygon)
    requires gs == [SurfaceGroup(key, [p])]
    ensures AllPolygons(gs) == [p]
    ensures EdgesOf([p]) == PolygonEdges(p)
  {
    assert gs[1..] == [];
    assert [p][1..] == [];
  }

  /** The closed triangle ring a, b, c, a draws the segments ab, bc and ca. */
  lemma TriangleRingEdges(a: Point, b: Point, c: Point)
    ensures RingEdges([a, b, c, a]) == EdgeRecord(a, b) + EdgeRecord(b, c) + EdgeRecord(c, a)
  {
    assert [a, b, c, a][1..] == [b, c, a];
    assert [b, c, a][1..] == [c, a];
    assert [c, a][1..] == [a];
    assert RingEdges([a]) == [];
    assert RingEdges([c, a]) == EdgeRecord(c, a) + RingEdges([a]);
    assert RingEdges([b, c, a]) == EdgeRecord(b, c) + RingEdges([c, a]);
    assert RingEdges([a, b, c, a]) == EdgeRecord(a, b) + RingEdges([b, c, a]);
  }

  /**
    Triangles are regenerated before edges: an unclosed three-point ring is
    repaired into a four-point ring, so it is triangulated and drawn as three
    segments, while drawing the unrepaired ring would skip it.
   */
  lemma TrianglesBeforeEdges(k: Kernel, o: CityObject, key: string, a: Point, b: Point, c: Point)
    requires c != a
    requires o.polygonsByType == [SurfaceGroup(key, [Polygon([a, b, c], [])])]
    ensures RegenerateObject(k, o).edges == EdgeRecord(a, b) + EdgeRecord(b, c) + EdgeRecord(c, a)
    ensures RegenerateObject(k, o).trianglesByType == map[key := TriangleRecord(a, b, c, ShortcutNormal(a, b, c))]
    ensures RegenerateEdgesFor(o).edges == []
  {
    var gs := o.polygonsByType;
    var p := Polygon([a, b, c], []);
    var q := Polygon([a, b, c, a], []);
    assert ClosePolygon(p) == q;
    assert ClosePolygons([p]) == [q];
    var cg := CloseGroups(gs);
    assert cg == [SurfaceGroup(key, [q])];
    OnlyPolygon(cg, key, q);
    TriangleRingEdges(a, b, c);
    OnlyPolygon(gs, key, p);
    var r := RegenerateObject(k, o);
    var t := TriangleRecord(a, b, c, ShortcutNormal(a, b, c));
    UnclosedTriangleIsEmitted(k, a, b, c, []);
    assert [] + t == t;
    assert TrianglesOf(k, [p]) == t by {
      assert [p][1..] == [];
      assert TrianglesOf(k, []) == [];
      assert t + [] == t;
    }
    TriangleMapSingle(k, r, o, key, [p]);
  }

  /** With a single surface type, the triangle buffers are that one entry. */
  lemma TriangleMapSingle(k: Kernel, r: CityObject, o: CityObject, key: string, polys: seq<Polygon>)
    requires |polys| > 0
    requires o.polygonsByType == [SurfaceGroup(key, polys)]
    requires r == RegenerateObject(k, o)
    ensures r.trianglesByType == map[key := TrianglesOf(k, polys)]
  {
    var gs := o.polygonsByType;
    var f := ps => GroupTriangles(k, ps);
    assert r.trianglesByType == TriangleMap(k, gs) == BufferMap(gs, f);
    assert gs[..0] == [];
    assert BufferMap(gs, f) == map[key := f(polys)];
    AddAllIsConcat(k, polys, []);
    assert [] + TrianglesOf(k, polys) == TrianglesOf(k, polys);
  }

  /**
    A surface type whose only polygon is too short after repair still gets a
    triangle buffer, but an empty one, and draws no edges.
   */
  lemma SkippedPolygonKeepsEmptyEntry(k: Kernel, o: CityObject, key: string, a: Point, b: Point)
    requires o.polygonsByType == [SurfaceGroup(key, [Polygon([a, b, a], [])])]
    ensures RegenerateObject(k, o).trianglesByType == map[key := []]
    ensures RegenerateObject(k, o).edges == []
  {
    var gs := o.polygonsByType;
    var p := Polygon([a, b, a], []);
    assert ClosePolygon(p) == p;
    assert ClosePolygons([p]) == [p];
    assert CloseGroups(gs) == gs;
    OnlyPolygon(gs, key, p);
    assert TrianglesOf(k, [p]) == [] by {
      assert [p][1..] == [];
    }
    TriangleMapSingle(k, RegenerateObject(k, o), o, key, [p]);
  }
}

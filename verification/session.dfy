/**
  A parser session: the objects parsed so far and the bounding-box
  tracker. Loading appends the walked objects, feeds every ring to the
  bounds in document order, then regenerates the geometries of all
  objects; clearing forgets the objects and re-arms the bounds seeding.
 */
module Sessions {
  import opened Geometry
  import opened Bounds
  import opened Triangles
  import opened Objects
  import opened Regenerate

  datatype Session = Session(objects: seq<CityObject>, bounds: Tracker)

  /** A freshly constructed parser. */
  const Initial: Session := Session([], Fresh)

  /** Every ring of the walked objects, in the order the parser reads them. */
  function SessionRings(nodes: seq<ObjectNode>): seq<Ring>
    decreases |nodes|
  {
    if |nodes| == 0 then [] else ObjectRings(nodes[0].polygonsByType) + SessionRings(nodes[1..])
  }

  function ParseObjects(nodes: seq<ObjectNode>): (os: seq<CityObject>)
    ensures |os| == |nodes|
    ensures forall j :: 0 <= j < |nodes| ==> os[j] == ParseObject(nodes[j])
  {
    seq(|nodes|, j requires 0 <= j < |nodes| => ParseObject(nodes[j]))
  }

  /**
    Loading a document: its objects are appended after the earlier ones,
    their rings update the bounds, and then every object of the session,
    old and new, has its triangles and edges regenerated.
   */
  function Load(k: Kernel, s: Session, nodes: seq<ObjectNode>): (r: Session)
    ensures |r.objects| == |s.objects| + |nodes|
    ensures forall i :: 0 <= i < |s.objects| ==> r.objects[i] == RegenerateObject(k, s.objects[i])
    ensures forall j :: 0 <= j < |nodes| ==> r.objects[|s.objects| + j] == RegenerateObject(k, ParseObject(nodes[j]))
  {
    var os := s.objects + ParseObjects(nodes);
    var regenerated := RegenerateGeometries(k, os);
    assert forall i :: 0 <= i < |s.objects| ==> regenerated[i] == RegenerateObject(k, s.objects[i]) by {
      forall i | 0 <= i < |s.objects|
        ensures regenerated[i] == RegenerateObject(k, s.objects[i])
      {
        assert os[i] == s.objects[i];
      }
    }
    assert forall j :: 0 <= j < |nodes| ==> regenerated[|s.objects| + j] == RegenerateObject(k, ParseObject(nodes[j])) by {
      forall j | 0 <= j < |nodes|
        ensures regenerated[|s.objects| + j] == RegenerateObject(k, ParseObject(nodes[j]))
      {
        var parsed := ParseObjects(nodes);
        assert regenerated[|s.objects| + j] == RegenerateObject(k, os[|s.objects| + j]);
        assert os[|s.objects| + j] == parsed[j];
        assert parsed[j] == ParseObject(nodes[j]);
      }
    }
    Session(regenerated, ParseRings(s.bounds, SessionRings(nodes)))
  }

  /** Clearing forgets the objects and re-arms the seeding of the bounds. */
  function Clear(s: Session): (r: Session)
    ensures r.objects == [] && r.bounds.firstRing
  {
    Session([], Rearm(s.bounds))
  }

  /** Two armed trackers agree once a ring with a point has been read. */
  lemma {:induction false} ArmedTrackersAgree(t1: Tracker, t2: Tracker, rings: seq<Ring>)
    requires t1.firstRing && t2.firstRing
    requires |Flatten(rings)| > 0
    ensures ParseRings(t1, rings) == ParseRings(t2, rings)
    decreases |rings|
  {
    if |rings[0]| == 0 {
      assert ParseRing(t1, rings[0]) == t1 && ParseRing(t2, rings[0]) == t2;
      ArmedTrackersAgree(t1, t2, rings[1..]);
    } else {
      assert ParseRing(t1, rings[0]) == ParseRing(t2, rings[0]);
    }
  }

  /**
    After `clear`, loading a document that holds at least one point gives
    exactly the session a fresh parser would build from it.
   */
  lemma ClearThenLoad(k: Kernel, s: Session, nodes: seq<ObjectNode>)
    requires |Flatten(SessionRings(nodes))| > 0
    ensures Load(k, Clear(s), nodes) == Load(k, Initial, nodes)
  {
    ArmedTrackersAgree(Clear(s).bounds, Fresh, SessionRings(nodes));
  }

  /**
    Loading a document into a fresh or cleared session bounds every point of
    its rings, and each of the six bounds is a coordinate of some point.
   */
  lemma LoadBounds(k: Kernel, s: Session, nodes: seq<ObjectNode>, a: Axis)
    requires s.bounds.firstRing
    requires |Flatten(SessionRings(nodes))| > 0
    ensures var b := Load(k, s, nodes).bounds;
      var ps := Flatten(SessionRings(nodes));
      && !b.firstRing
      && (forall p :: p in ps ==> Coord(b.lo, a) <= Coord(p, a) <= Coord(b.hi, a))
      && (exists p :: p in ps && Coord(p, a) == Coord(b.lo, a))
      && (exists q :: q in ps && Coord(q, a) == Coord(b.hi, a))
  {
    SessionBounds(s.bounds, SessionRings(nodes), a);
  }

  /**
    Loading a second document regenerates the objects of the first one
    again, which leaves them as they were.
   */
  lemma ReloadKeepsEarlierObjects(k: Kernel, s: Session, first: seq<ObjectNode>, second: seq<ObjectNode>)
    ensures var once := Load(k, s, first);
      Load(k, once, second).objects[..|once.objects|] == once.objects
  {
    var once := Load(k, s, first);
    var twice := Load(k, once, second);
    var n := |once.objects|;
    forall i | 0 <= i < n
      ensures twice.objects[..n][i] == once.objects[i]
    {
      assert twice.objects[i] == RegenerateObject(k, once.objects[i]);
      if i < |s.objects| {
        var o := s.objects[i];
        assert once.objects[i] == RegenerateObject(k, o);
        RegenerateObjectIdempotent(k, o);
      } else {
        var o := ParseObject(first[i - |s.objects|]);
        assert once.objects[|s.objects| + (i - |s.objects|)] == RegenerateObject(k, o);
        RegenerateObjectIdempotent(k, o);
      }
    }
  }
}

/**
  The session-wide bounding box. The parser keeps a `firstRing` flag and two
  coordinate triples; the first ring parsed in a session seeds both triples
  with its first point, and every point of every ring then widens them axis
  by axis with an "if below min ... else if above max ..." update.
 */
module Bounds {
  import opened Geometry

  datatype Tracker = Tracker(firstRing: bool, lo: Point, hi: Point)

  /** A freshly constructed parser: seeding is armed, the triples are unused. */
  const Fresh: Tracker := Tracker(true, Point(0.0, 0.0, 0.0), Point(0.0, 0.0, 0.0))

  function Min(a: real, b: real): real { if a <= b then a else b }
  function Max(a: real, b: real): real { if a <= b then b else a }

  /** A seeded tracker keeps min <= max on every axis. */
  predicate Ordered(t: Tracker)
  {
    !t.firstRing ==> forall a: Axis :: Coord(t.lo, a) <= Coord(t.hi, a)
  }

  /** The per-axis update of one coordinate: lower the minimum, or else raise the maximum. */
  function WidenLo(lo: real, hi: real, c: real): real
  {
    if c < lo then c else lo
  }

  function WidenHi(lo: real, hi: real, c: real): real
  {
    if c < lo then hi else if c > hi then c else hi
  }

  function ObservePoint(t: Tracker, p: Point): (r: Tracker)
    ensures r.firstRing == t.firstRing
    ensures forall a: Axis :: Coord(t.lo, a) <= Coord(t.hi, a) ==>
      Coord(r.lo, a) == Min(Coord(t.lo, a), Coord(p, a)) && Coord(r.hi, a) == Max(Coord(t.hi, a), Coord(p, a))
  {
    Tracker(t.firstRing,
      Point(WidenLo(t.lo.x, t.hi.x, p.x), WidenLo(t.lo.y, t.hi.y, p.y), WidenLo(t.lo.z, t.hi.z, p.z)),
      Point(WidenHi(t.lo.x, t.hi.x, p.x), WidenHi(t.lo.y, t.hi.y, p.y), WidenHi(t.lo.z, t.hi.z, p.z)))
  }

  function ObservePoints(t: Tracker, ps: seq<Point>): Tracker
    decreases |ps|
  {
    if |ps| == 0 then t else ObservePoints(ObservePoint(t, ps[0]), ps[1..])
  }

  /**
    Parsing one ring: the first ring of a session seeds min and max with its
    first point, then every point of the ring is observed. An empty ring has
    no first point; it observes nothing and leaves the seeding armed.
   */
  function ParseRing(t: Tracker, ring: Ring): Tracker
  {
    if |ring| == 0 then t
    else
      var seeded := if t.firstRing then Tracker(false, ring[0], ring[0]) else t;
      ObservePoints(seeded, ring)
  }

  /** The rings of a session, parsed in order. */
  function ParseRings(t: Tracker, rings: seq<Ring>): Tracker
    decreases |rings|
  {
    if |rings| == 0 then t else ParseRings(ParseRing(t, rings[0]), rings[1..])
  }

  /** The part of `clear` that concerns the bounds: seeding is re-armed. */
  function Rearm(t: Tracker): (r: Tracker)
    ensures r.firstRing
    ensures r.lo == t.lo && r.hi == t.hi
  {
    t.(firstRing := true)
  }

  function Coords(ps: seq<Point>, a: Axis): (cs: seq<real>)
    ensures |cs| == |ps|
    ensures forall k :: 0 <= k < |ps| ==> cs[k] == Coord(ps[k], a)
  {
    seq(|ps|, k requires 0 <= k < |ps| => Coord(ps[k], a))
  }

  /** Reference minimum of a non-empty sequence: an element that no element is below. */
  function SeqMin(s: seq<real>): (m: real)
    requires |s| > 0
    ensures m in s
    ensures forall k :: 0 <= k < |s| ==> m <= s[k]
    decreases |s|
  {
    if |s| == 1 then s[0] else Min(s[0], SeqMin(s[1..]))
  }

  /** Reference maximum of a non-empty sequence. */
  function SeqMax(s: seq<real>): (m: real)
    requires |s| > 0
    ensures m in s
    ensures forall k :: 0 <= k < |s| ==> s[k] <= m
    decreases |s|
  {
    if |s| == 1 then s[0] else Max(s[0], SeqMax(s[1..]))
  }

  /** The minimum and maximum are determined by the elements alone, not by their order. */
  lemma SeqMinMaxByElements(s: seq<real>, t: seq<real>)
    requires |s| > 0
    requires forall v :: v in s <==> v in t
    ensures |t| > 0 && SeqMin(s) == SeqMin(t) && SeqMax(s) == SeqMax(t)
  {
    assert s[0] in s;
    var i :| 0 <= i < |s| && s[i] == SeqMin(s);
    var j :| 0 <= j < |t| && t[j] == SeqMin(t);
    assert s[i] in t && t[j] in s;
    var i' :| 0 <= i' < |s| && s[i'] == SeqMax(s);
    var j' :| 0 <= j' < |t| && t[j'] == SeqMax(t);
    assert s[i'] in t && t[j'] in s;
  }

  /**
    Observing a sequence from an ordered tracker yields, on every axis, the
    minimum and maximum of the old bounds and all observed coordinates.
   */
  lemma {:induction false} ObservePointsIsMinMax(t: Tracker, ps: seq<Point>, a: Axis)
    requires |ps| > 0
    requires Coord(t.lo, a) <= Coord(t.hi, a)
    ensures Coord(ObservePoints(t, ps).lo, a) == Min(Coord(t.lo, a), SeqMin(Coords(ps, a)))
    ensures Coord(ObservePoints(t, ps).hi, a) == Max(Coord(t.hi, a), SeqMax(Coords(ps, a)))
    decreases |ps|
  {
    var t1 := ObservePoint(t, ps[0]);
    var cs := Coords(ps, a);
    assert Coord(t1.lo, a) == Min(Coord(t.lo, a), cs[0]) && Coord(t1.hi, a) == Max(Coord(t.hi, a), cs[0]);
    assert ObservePoints(t, ps) == ObservePoints(t1, ps[1..]);
    if |ps| > 1 {
      ObservePointsIsMinMax(t1, ps[1..], a);
      assert Coords(ps[1..], a) == cs[1..];
      assert SeqMin(cs) == Min(cs[0], SeqMin(cs[1..])) && SeqMax(cs) == Max(cs[0], SeqMax(cs[1..]));
    } else {
      assert ObservePoints(t1, ps[1..]) == t1;
      assert SeqMin(cs) == cs[0] && SeqMax(cs) == cs[0];
    }
  }

  lemma {:induction false} ObservePointsKeepsFlag(t: Tracker, ps: seq<Point>)
    ensures ObservePoints(t, ps).firstRing == t.firstRing
    decreases |ps|
  {
    if |ps| > 0 {
      ObservePointsKeepsFlag(ObservePoint(t, ps[0]), ps[1..]);
    }
  }

  lemma {:induction false} ObservePointsAppend(t: Tracker, ps: seq<Point>, qs: seq<Point>)
    ensures ObservePoints(t, ps + qs) == ObservePoints(ObservePoints(t, ps), qs)
    decreases |ps|
  {
    if |ps| > 0 {
      assert (ps + qs)[0] == ps[0];
      assert (ps + qs)[1..] == ps[1..] + qs;
      ObservePointsAppend(ObservePoint(t, ps[0]), ps[1..], qs);
      assert ObservePoints(t, ps + qs) == ObservePoints(ObservePoint(t, ps[0]), ps[1..] + qs);
    } else {
      assert ps + qs == qs;
    }
  }

  /**
    Ring boundaries do not matter: parsing a list of rings is parsing the
    concatenation of their points as one ring.
   */
  lemma {:induction false} ParseRingsFlatten(t: Tracker, rings: seq<Ring>)
    ensures ParseRings(t, rings) == ParseRing(t, Flatten(rings))
    decreases |rings|
  {
    if |rings| > 0 {
      var r0 := rings[0];
      var t1 := ParseRing(t, r0);
      ParseRingsFlatten(t1, rings[1..]);
      var rest := Flatten(rings[1..]);
      if |r0| == 0 {
        assert Flatten(rings) == rest;
      } else {
        var seeded := if t.firstRing then Tracker(false, r0[0], r0[0]) else t;
        ObservePointsKeepsFlag(seeded, r0);
        ObservePointsAppend(seeded, r0, rest);
        assert Flatten(rings)[0] == r0[0];
      }
    }
  }

  /**
    The bounds after parsing a non-empty point sequence in a session whose
    seeding is armed are exactly the componentwise minimum and maximum of the
    sequence; in particular each observed coordinate lies between them and
    each bound is attained by some observed point.
   */
  lemma BoundsAreMinMax(t: Tracker, ps: seq<Point>, a: Axis)
    requires t.firstRing
    requires |ps| > 0
    ensures !ParseRing(t, ps).firstRing
    ensures Coord(ParseRing(t, ps).lo, a) == SeqMin(Coords(ps, a))
    ensures Coord(ParseRing(t, ps).hi, a) == SeqMax(Coords(ps, a))
  {
    var seeded := Tracker(false, ps[0], ps[0]);
    ObservePointsKeepsFlag(seeded, ps);
    ObservePointsIsMinMax(seeded, ps, a);
  }

  /** Every coordinate seen in a session lies inside the box, and each bound is attained. */
  lemma SessionBounds(t: Tracker, rings: seq<Ring>, a: Axis)
    requires t.firstRing
    requires |Flatten(rings)| > 0
    ensures var r := ParseRings(t, rings);
      && !r.firstRing
      && (forall p :: p in Flatten(rings) ==> Coord(r.lo, a) <= Coord(p, a) <= Coord(r.hi, a))
      && (exists p :: p in Flatten(rings) && Coord(p, a) == Coord(r.lo, a))
      && (exists q :: q in Flatten(rings) && Coord(q, a) == Coord(r.hi, a))
  {
    var ps := Flatten(rings);
    ParseRingsFlatten(t, rings);
    BoundsAreMinMax(t, ps, a);
    var r := ParseRings(t, rings);
    var cs := Coords(ps, a);
    forall p | p in ps
      ensures Coord(r.lo, a) <= Coord(p, a) <= Coord(r.hi, a)
    {
      var k :| 0 <= k < |ps| && ps[k] == p;
      assert cs[k] == Coord(p, a);
    }
    var i :| 0 <= i < |cs| && cs[i] == SeqMin(cs);
    assert ps[i] in ps;
    var j :| 0 <= j < |cs| && cs[j] == SeqMax(cs);
    assert ps[j] in ps;
  }

  /** The bounds do not depend on the order in which the points arrive. */
  lemma BoundsOrderIndependent(t: Tracker, ps: seq<Point>, qs: seq<Point>)
    requires t.firstRing
    requires |ps| > 0
    requires multiset(ps) == multiset(qs)
    ensures ParseRing(t, ps) == ParseRing(t, qs)
  {
    assert forall p :: p in ps <==> p in qs by {
      forall p ensures p in ps <==> p in qs {
        assert p in ps <==> p in multiset(ps);
        assert p in qs <==> p in multiset(qs);
      }
    }
    assert |qs| > 0 by {
      assert ps[0] in qs;
    }
    forall a: Axis
      ensures Coord(ParseRing(t, ps).lo, a) == Coord(ParseRing(t, qs).lo, a)
      ensures Coord(ParseRing(t, ps).hi, a) == Coord(ParseRing(t, qs).hi, a)
    {
      BoundsAreMinMax(t, ps, a);
      BoundsAreMinMax(t, qs, a);
      var cp := Coords(ps, a);
      var cq := Coords(qs, a);
      forall v ensures v in cp <==> v in cq {
        if v in cp {
          var k :| 0 <= k < |cp| && cp[k] == v;
          assert ps[k] in qs;
          var k' :| 0 <= k' < |qs| && qs[k'] == ps[k];
          assert cq[k'] == v;
        }
        if v in cq {
          var k :| 0 <= k < |cq| && cq[k] == v;
          assert qs[k] in ps;
          var k' :| 0 <= k' < |ps| && ps[k'] == qs[k];
          assert cp[k'] == v;
        }
      }
      SeqMinMaxByElements(cp, cq);
    }
    var r1 := ParseRing(t, ps);
    var r2 := ParseRing(t, qs);
    assert Coord(r1.lo, X) == Coord(r2.lo, X) && Coord(r1.lo, Y) == Coord(r2.lo, Y) && Coord(r1.lo, Z) == Coord(r2.lo, Z);
    assert Coord(r1.hi, X) == Coord(r2.hi, X) && Coord(r1.hi, Y) == Coord(r2.hi, Y) && Coord(r1.hi, Z) == Coord(r2.hi, Z);
    BoundsAreMinMax(t, ps, X);
    BoundsAreMinMax(t, qs, X);
  }

  /**
    After `clear` the next non-empty ring reseeds: the old bounds are
    forgotten and the result is what a fresh parser would compute.
   */
  lemma ClearReseeds(t: Tracker, ring: Ring)
    requires |ring| > 0
    ensures ParseRing(Rearm(t), ring) == ParseRing(Fresh, ring)
  {
  }

  /** Parsing keeps a seeded tracker ordered (min <= max on each axis). */
  lemma ParseRingOrdered(t: Tracker, ring: Ring)
    requires Ordered(t)
    ensures Ordered(ParseRing(t, ring))
  {
    if |ring| > 0 {
      var seeded := if t.firstRing then Tracker(false, ring[0], ring[0]) else t;
      ObservePointsKeepsFlag(seeded, ring);
      forall a: Axis ensures Coord(ParseRing(t, ring).lo, a) <= Coord(ParseRing(t, ring).hi, a) {
        ObservePointsIsMinMax(seeded, ring, a);
      }
    }
  }
}

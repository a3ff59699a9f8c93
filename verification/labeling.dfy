/**
  Inside/outside labelling of a constrained triangulation.

  The triangulation built by the geometry library is taken as an arena of
  faces: face `f` has three sides, `neighbor[i]` is the index of the face
  across side `i`, `constrained[i]` says whether that side is a ring edge,
  and `corner` holds the three projected vertices. Face 0 is the face the
  library returns as its infinite face; other infinite faces may exist and
  are flagged, as they are never emitted.

  The labelling is a breadth-first flood fill from face 0 over a FIFO
  worklist: a face is marked visited before it is queued, and its `inside`
  flag is its discoverer's flag, negated when the shared side is
  constrained.
 */
module Labeling {
  import opened Geometry

  datatype Face = Face(infinite: bool, neighbor: seq<nat>, constrained: seq<bool>, corner: seq<Point2>)

  predicate FaceOk(faceCount: nat, face: Face)
  {
    && |face.neighbor| == 3
    && |face.constrained| == 3
    && |face.corner| == 3
    && forall i :: 0 <= i < 3 ==> face.neighbor[i] < faceCount
  }

  /** Every neighbour index is in range and face 0 is infinite. */
  predicate WellFormed(faces: seq<Face>)
  {
    && |faces| > 0
    && faces[0].infinite
    && forall f :: 0 <= f < |faces| ==> FaceOk(|faces|, faces[f])
  }

  type Mesh = faces: seq<Face> | WellFormed(faces)
    witness [Face(true, [0, 0, 0], [false, false, false], [Point2(0.0, 0.0), Point2(0.0, 0.0), Point2(0.0, 0.0)])]

  /** Stepping out of face `face` across its side `side`. */
  datatype Crossing = Crossing(face: nat, side: nat)

  predicate ValidCrossing(m: Mesh, c: Crossing)
  {
    c.face < |m| && c.side < 3
  }

  predicate CrossesConstraint(m: Mesh, c: Crossing)
  {
    ValidCrossing(m, c) && m[c.face].constrained[c.side]
  }

  /** `w` is a walk through neighbour links that starts at face 0 and ends at face `f`. */
  ghost predicate WalkTo(m: Mesh, w: seq<Crossing>, f: nat)
    decreases |w|
  {
    if |w| == 0 then f == 0
    else
      var c := w[|w| - 1];
      ValidCrossing(m, c) && m[c.face].neighbor[c.side] == f && WalkTo(m, w[..|w| - 1], c.face)
  }

  /** Whether a walk crosses an odd number of constrained sides. */
  ghost function Parity(m: Mesh, w: seq<Crossing>): bool
    decreases |w|
  {
    if |w| == 0 then false else Parity(m, w[..|w| - 1]) != CrossesConstraint(m, w[|w| - 1])
  }

  /** `w` is a walk to face `f` whose constrained-side parity is `label`. */
  ghost predicate Explains(m: Mesh, w: seq<Crossing>, f: nat, odd: bool)
  {
    WalkTo(m, w, f) && Parity(m, w) == odd
  }

  ghost predicate Reachable(m: Mesh, f: nat)
  {
    exists w :: WalkTo(m, w, f)
  }

  /** The state of the flood fill: the two per-face arrays and the FIFO worklist `queue[head..]`. */
  datatype Fill = Fill(visited: seq<bool>, inside: seq<bool>, queue: seq<nat>, head: nat)

  function Unvisited(visited: seq<bool>): nat
  {
    multiset(visited)[false]
  }

  /** Termination measure of the worklist loop: each step pops one face and queues only unvisited ones. */
  function Measure(s: Fill): int
  {
    2 * Unvisited(s.visited) + |s.queue| - s.head
  }

  /** The two arrays have one entry per face and the worklist holds visited faces only. */
  ghost predicate Shape(m: Mesh, s: Fill)
  {
    && |s.visited| == |m|
    && |s.inside| == |m|
    && s.head <= |s.queue|
    && (forall j :: 0 <= j < |s.queue| ==> s.queue[j] < |m| && s.visited[s.queue[j]])
  }

  /** Each face is queued at most once. */
  ghost predicate Distinct(q: seq<nat>)
  {
    forall j, k :: 0 <= j < k < |q| ==> q[j] != q[k]
  }

  /** Every visited face was queued. */
  ghost predicate Covered(m: Mesh, s: Fill)
    requires Shape(m, s)
  {
    forall f :: 0 <= f < |m| && s.visited[f] ==> f in s.queue
  }

  /** The infinite face is visited and outside; unvisited faces are outside. */
  ghost predicate Labelled(m: Mesh, s: Fill)
    requires Shape(m, s)
  {
    && s.visited[0] && !s.inside[0]
    && (forall f :: 0 <= f < |m| && !s.visited[f] ==> !s.inside[f])
  }

  /** Faces already taken off the worklist have all their neighbours visited. */
  ghost predicate Processed(m: Mesh, s: Fill)
    requires Shape(m, s)
  {
    forall j, i :: 0 <= j < s.head && 0 <= i < 3 ==> s.visited[m[s.queue[j]].neighbor[i]]
  }

  /** Each visited face carries the parity of a walk from face 0 that reaches it. */
  ghost predicate Justified(m: Mesh, s: Fill)
    requires Shape(m, s)
  {
    forall f :: 0 <= f < |m| && s.visited[f] ==> exists w :: Explains(m, w, f, s.inside[f])
  }

  /** What holds before and after every worklist step. */
  ghost predicate Inv(m: Mesh, s: Fill)
  {
    && Shape(m, s)
    && Distinct(s.queue)
    && Covered(m, s)
    && Labelled(m, s)
    && Processed(m, s)
    && Justified(m, s)
  }

  /** The initial state: all faces (false, false), then the infinite face (true, false) queued. */
  function Start(m: Mesh): (s: Fill)
    ensures Inv(m, s)
    ensures s.queue == [0] && s.head == 0
  {
    var s := Fill(seq(|m|, f => f == 0), seq(|m|, f => false), [0], 0);
    assert Explains(m, [], 0, false);
    s
  }

  /** Look across side `i` of face `c`: an unvisited neighbour is marked, labelled and queued. */
  function Visit(m: Mesh, s: Fill, c: nat, i: nat): (r: Fill)
    requires |s.visited| == |m| && |s.inside| == |m| && c < |m| && i < 3
    ensures |r.visited| == |m| && |r.inside| == |m|
    ensures r.head == s.head
    ensures r.visited[m[c].neighbor[i]]
    ensures |s.queue| <= |r.queue| && r.queue[..|s.queue|] == s.queue
    ensures forall f :: 0 <= f < |m| && s.visited[f] ==> r.visited[f] && r.inside[f] == s.inside[f]
    ensures !s.visited[m[c].neighbor[i]] ==>
      && r.inside[m[c].neighbor[i]] == (s.inside[c] != m[c].constrained[i])
      && r.queue == s.queue + [m[c].neighbor[i]]
    ensures s.visited[m[c].neighbor[i]] ==> r == s
  {
    var n := m[c].neighbor[i];
    if s.visited[n] then s
    else
      s.(visited := s.visited[n := true],
         inside := s.inside[n := s.inside[c] != m[c].constrained[i]],
         queue := s.queue + [n])
  }

  lemma VisitShape(m: Mesh, s: Fill, c: nat, i: nat)
    requires Shape(m, s) && c < |m| && s.visited[c] && i < 3
    ensures Shape(m, Visit(m, s, c, i))
    ensures Distinct(s.queue) ==> Distinct(Visit(m, s, c, i).queue)
    ensures Covered(m, s) ==> Covered(m, Visit(m, s, c, i))
  {
    var n := m[c].neighbor[i];
    var r := Visit(m, s, c, i);
    if !s.visited[n] {
      assert n !in s.queue;
      assert r.queue == s.queue + [n];
      if Covered(m, s) {
        forall f | 0 <= f < |m| && r.visited[f]
          ensures f in r.queue
        {
          if f != n {
            assert f in s.queue;
          }
        }
      }
    }
  }

  lemma VisitLabelled(m: Mesh, s: Fill, c: nat, i: nat)
    requires Shape(m, s) && c < |m| && s.visited[c] && i < 3
    requires Labelled(m, s) && Processed(m, s)
    ensures Shape(m, Visit(m, s, c, i))
    ensures Labelled(m, Visit(m, s, c, i)) && Processed(m, Visit(m, s, c, i))
  {
    VisitShape(m, s, c, i);
  }

  lemma VisitJustified(m: Mesh, s: Fill, c: nat, i: nat)
    requires Shape(m, s) && c < |m| && s.visited[c] && i < 3
    requires Justified(m, s)
    ensures Shape(m, Visit(m, s, c, i))
    ensures Justified(m, Visit(m, s, c, i))
  {
    VisitShape(m, s, c, i);
    var n := m[c].neighbor[i];
    var r := Visit(m, s, c, i);
    if !s.visited[n] {
      var wc :| Explains(m, wc, c, s.inside[c]);
      var wn := wc + [Crossing(c, i)];
      assert wn[..|wn| - 1] == wc;
      assert WalkTo(m, wn, n) && Parity(m, wn) == r.inside[n];
      forall f | 0 <= f < |m| && r.visited[f]
        ensures exists w :: Explains(m, w, f, r.inside[f])
      {
        if f == n {
          assert Explains(m, wn, f, r.inside[f]);
        } else {
          var w :| Explains(m, w, f, s.inside[f]);
          assert Explains(m, w, f, r.inside[f]);
        }
      }
    }
  }

  /** Visiting a new face removes one unvisited face and queues one face. */
  lemma VisitMeasure(m: Mesh, s: Fill, c: nat, i: nat)
    requires |s.visited| == |m| && |s.inside| == |m| && c < |m| && i < 3
    ensures 2 * Unvisited(Visit(m, s, c, i).visited) + |Visit(m, s, c, i).queue|
         <= 2 * Unvisited(s.visited) + |s.queue|
  {
    var n := m[c].neighbor[i];
    if !s.visited[n] {
      var r := Visit(m, s, c, i);
      assert multiset(r.visited) == multiset(s.visited) - multiset{false} + multiset{true};
    }
  }

  lemma VisitKeepsInv(m: Mesh, s: Fill, c: nat, i: nat)
    requires Inv(m, s)
    requires c < |m| && s.visited[c] && i < 3
    ensures Inv(m, Visit(m, s, c, i))
    ensures 2 * Unvisited(Visit(m, s, c, i).visited) + |Visit(m, s, c, i).queue|
         <= 2 * Unvisited(s.visited) + |s.queue|
  {
    VisitShape(m, s, c, i);
    VisitLabelled(m, s, c, i);
    VisitJustified(m, s, c, i);
    VisitMeasure(m, s, c, i);
  }

  /**
    Entry `q` of the worklist was discovered from the earlier entry `p`
    across side `i` of that face, and took its label, flipped when the side
    is constrained.
   */
  ghost predicate Discovers(m: Mesh, s: Fill, p: nat, i: nat, q: nat)
  {
    && p < q < |s.queue| && i < 3
    && s.queue[p] < |m| && s.queue[q] < |m| && |s.inside| == |m|
    && m[s.queue[p]].neighbor[i] == s.queue[q]
    && s.inside[s.queue[q]] == (s.inside[s.queue[p]] != m[s.queue[p]].constrained[i])
  }

  ghost predicate HasDiscoverer(m: Mesh, s: Fill, q: nat)
  {
    exists p: nat, i: nat :: Discovers(m, s, p, i, q)
  }

  /** The worklist starts with face 0, and every later entry has a discoverer before it. */
  ghost predicate Parented(m: Mesh, s: Fill)
  {
    && |s.queue| > 0 && s.queue[0] == 0
    && forall q :: 0 < q < |s.queue| ==> HasDiscoverer(m, s, q)
  }

  lemma VisitKeepsParented(m: Mesh, s: Fill, h: nat, i: nat)
    requires Shape(m, s) && Parented(m, s)
    requires h < |s.queue| && i < 3
    ensures Parented(m, Visit(m, s, s.queue[h], i))
  {
    var c := s.queue[h];
    var n := m[c].neighbor[i];
    var r := Visit(m, s, c, i);
    if !s.visited[n] {
      assert r.queue == s.queue + [n];
      forall q | 0 < q < |r.queue|
        ensures HasDiscoverer(m, r, q)
      {
        if q < |s.queue| {
          assert HasDiscoverer(m, s, q);
          var p: nat, j: nat :| Discovers(m, s, p, j, q);
          assert s.visited[s.queue[p]] && s.visited[s.queue[q]];
          assert Discovers(m, r, p, j, q);
        } else {
          assert s.visited[c];
          assert Discovers(m, r, h, i, q);
        }
      }
    }
  }

  /** Look across sides `i`, ..., 2 of face `c`, in order. */
  function VisitFrom(m: Mesh, s: Fill, c: nat, i: nat): (r: Fill)
    requires |s.visited| == |m| && |s.inside| == |m| && c < |m| && i <= 3
    ensures |r.visited| == |m| && |r.inside| == |m|
    ensures r.head == s.head
    ensures forall k :: i <= k < 3 ==> r.visited[m[c].neighbor[k]]
    ensures |s.queue| <= |r.queue| && r.queue[..|s.queue|] == s.queue
    ensures forall f :: 0 <= f < |m| && s.visited[f] ==> r.visited[f] && r.inside[f] == s.inside[f]
    ensures s.visited[c] ==> forall f :: 0 <= f < |m| && !s.visited[f] && r.visited[f] ==>
      exists k :: i <= k < 3 && m[c].neighbor[k] == f && r.inside[f] == (s.inside[c] != m[c].constrained[k])
    decreases 3 - i
  {
    if i == 3 then s
    else
      var r := VisitFrom(m, Visit(m, s, c, i), c, i + 1);
      assert r.queue[..|s.queue|] == r.queue[..|Visit(m, s, c, i).queue|][..|s.queue|];
      r
  }

  lemma {:induction false} VisitFromKeepsInv(m: Mesh, s: Fill, c: nat, i: nat)
    requires Inv(m, s)
    requires c < |m| && s.visited[c] && i <= 3
    ensures Inv(m, VisitFrom(m, s, c, i))
    ensures 2 * Unvisited(VisitFrom(m, s, c, i).visited) + |VisitFrom(m, s, c, i).queue|
         <= 2 * Unvisited(s.visited) + |s.queue|
    decreases 3 - i
  {
    if i < 3 {
      VisitKeepsInv(m, s, c, i);
      VisitFromKeepsInv(m, Visit(m, s, c, i), c, i + 1);
    }
  }

  lemma {:induction false} VisitFromKeepsParented(m: Mesh, s: Fill, h: nat, i: nat)
    requires Shape(m, s) && Parented(m, s)
    requires h < |s.queue| && i <= 3
    ensures Parented(m, VisitFrom(m, s, s.queue[h], i))
    decreases 3 - i
  {
    if i < 3 {
      var c := s.queue[h];
      VisitShape(m, s, c, i);
      VisitKeepsParented(m, s, h, i);
      var s1 := Visit(m, s, c, i);
      assert s1.queue[h] == s1.queue[..|s.queue|][h] == c;
      VisitFromKeepsParented(m, s1, h, i + 1);
    }
  }

  /** Process the front of the worklist: look across its three sides, then pop it. */
  function Step(m: Mesh, s: Fill): (r: Fill)
    requires Inv(m, s) && s.head < |s.queue|
    ensures r.head == s.head + 1
    ensures |s.queue| <= |r.queue| && r.queue[..|s.queue|] == s.queue
    ensures |r.visited| == |m| && |r.inside| == |m|
    ensures forall k :: 0 <= k < 3 ==> r.visited[m[s.queue[s.head]].neighbor[k]]
    ensures forall f :: 0 <= f < |m| && s.visited[f] ==> r.visited[f] && r.inside[f] == s.inside[f]
  {
    assert Shape(m, s);
    var c := s.queue[s.head];
    VisitFrom(m, s, c, 0).(head := s.head + 1)
  }

  /** Popping a face whose neighbours are all visited keeps the invariant. */
  lemma PopKeepsInv(m: Mesh, s: Fill)
    requires Inv(m, s) && s.head < |s.queue|
    requires forall i :: 0 <= i < 3 ==> s.visited[m[s.queue[s.head]].neighbor[i]]
    ensures Inv(m, s.(head := s.head + 1))
  {
    var r := s.(head := s.head + 1);
    assert Shape(m, r);
    assert Processed(m, r);
  }

  lemma StepKeepsInv(m: Mesh, s: Fill)
    requires Inv(m, s) && s.head < |s.queue|
    ensures Inv(m, Step(m, s))
    ensures Measure(Step(m, s)) < Measure(s)
  {
    var c := s.queue[s.head];
    var s3 := VisitFrom(m, s, c, 0);
    VisitFromKeepsInv(m, s, c, 0);
    assert s3.queue[s.head] == c;
    PopKeepsInv(m, s3);
  }

  lemma ParentedIgnoresHead(m: Mesh, s: Fill, h: nat)
    requires Parented(m, s)
    ensures Parented(m, s.(head := h))
  {
    var r := s.(head := h);
    forall q | 0 < q < |r.queue|
      ensures HasDiscoverer(m, r, q)
    {
      assert HasDiscoverer(m, s, q);
      var p: nat, j: nat :| Discovers(m, s, p, j, q);
      assert Discovers(m, r, p, j, q);
    }
  }

  lemma StepKeepsParented(m: Mesh, s: Fill)
    requires Inv(m, s) && s.head < |s.queue| && Parented(m, s)
    ensures Parented(m, Step(m, s))
  {
    assert Shape(m, s);
    var s3 := VisitFrom(m, s, s.queue[s.head], 0);
    VisitFromKeepsParented(m, s, s.head, 0);
    ParentedIgnoresHead(m, s3, s.head + 1);
    assert Step(m, s) == s3.(head := s.head + 1);
  }

  /** Run the worklist until it is empty. */
  function Run(m: Mesh, s: Fill): (r: Fill)
    requires Inv(m, s)
    ensures Inv(m, r)
    ensures r.head == |r.queue|
    decreases Measure(s)
  {
    if s.head == |s.queue| then s
    else
      StepKeepsInv(m, s);
      Run(m, Step(m, s))
  }

  lemma {:induction false} RunKeepsParented(m: Mesh, s: Fill)
    requires Inv(m, s) && Parented(m, s)
    ensures Parented(m, Run(m, s))
    decreases Measure(s)
  {
    if s.head < |s.queue| {
      StepKeepsInv(m, s);
      StepKeepsParented(m, s);
      RunKeepsParented(m, Step(m, s));
    }
  }

  /** Once the worklist is empty, the visited faces are closed under neighbour links. */
  lemma DoneIsClosed(m: Mesh, s: Fill)
    requires Inv(m, s) && s.head == |s.queue|
    ensures forall f, i :: 0 <= f < |m| && 0 <= i < 3 && s.visited[f] ==> s.visited[m[f].neighbor[i]]
  {
    forall f, i | 0 <= f < |m| && 0 <= i < 3 && s.visited[f]
      ensures s.visited[m[f].neighbor[i]]
    {
      var j :| 0 <= j < |s.queue| && s.queue[j] == f;
    }
  }

  /** When the worklist is empty, the visited faces are exactly the reachable ones. */
  lemma DoneReachable(m: Mesh, s: Fill)
    requires Inv(m, s) && s.head == |s.queue|
    ensures |s.visited| == |m|
    ensures forall f :: 0 <= f < |m| ==> (s.visited[f] <==> Reachable(m, f))
  {
    DoneIsClosed(m, s);
    forall f | 0 <= f < |m|
      ensures s.visited[f] <==> Reachable(m, f)
    {
      if Reachable(m, f) {
        var w :| WalkTo(m, w, f);
        ClosedHoldsWalks(m, s.visited, w, f);
      }
      if s.visited[f] {
        assert Justified(m, s);
        var w :| Explains(m, w, f, s.inside[f]);
      }
    }
  }

  lemma DoneLabels(m: Mesh, s: Fill)
    requires Inv(m, s)
    ensures |s.visited| == |m| && |s.inside| == |m|
    ensures s.visited[0] && !s.inside[0]
    ensures forall f :: 0 <= f < |m| && s.visited[f] ==> exists w :: Explains(m, w, f, s.inside[f])
    ensures forall f :: 0 <= f < |m| && s.inside[f] ==> s.visited[f]
    ensures forall j, k :: 0 <= j < k < |s.queue| ==> s.queue[j] != s.queue[k]
    ensures forall f :: 0 <= f < |m| ==> (s.visited[f] <==> f in s.queue)
  {
    assert Shape(m, s) && Labelled(m, s) && Justified(m, s) && Distinct(s.queue) && Covered(m, s);
    forall f | 0 <= f < |m| && f in s.queue
      ensures s.visited[f]
    {
      var j :| 0 <= j < |s.queue| && s.queue[j] == f;
    }
  }

  /** A set of faces that holds face 0 and is closed under neighbour links holds every walk's end. */
  lemma {:induction false} ClosedHoldsWalks(m: Mesh, visited: seq<bool>, w: seq<Crossing>, f: nat)
    requires |visited| == |m| && visited[0]
    requires forall g, i :: 0 <= g < |m| && 0 <= i < 3 && visited[g] ==> visited[m[g].neighbor[i]]
    requires WalkTo(m, w, f)
    ensures f < |m| && visited[f]
    decreases |w|
  {
    if |w| > 0 {
      var c := w[|w| - 1];
      ClosedHoldsWalks(m, visited, w[..|w| - 1], c.face);
    }
  }

  /**
    The flood fill. Face 0 ends visited and outside; exactly the faces
    reachable from it through neighbour links are visited; every visited face
    is labelled with the parity of the constrained sides crossed along a walk
    from face 0 by which it was discovered; each face is queued at most once.
   */
  function FloodFill(m: Mesh): (r: Fill)
    ensures |r.visited| == |m| && |r.inside| == |m|
    ensures r.visited[0] && !r.inside[0]
    ensures forall f :: 0 <= f < |m| ==> (r.visited[f] <==> Reachable(m, f))
    ensures forall f :: 0 <= f < |m| && r.visited[f] ==> exists w :: Explains(m, w, f, r.inside[f])
    ensures forall f :: 0 <= f < |m| && r.inside[f] ==> r.visited[f]
    ensures forall j, k :: 0 <= j < k < |r.queue| ==> r.queue[j] != r.queue[k]
    ensures forall f :: 0 <= f < |m| ==> (r.visited[f] <==> f in r.queue)
  {
    var r := Run(m, Start(m));
    DoneReachable(m, r);
    DoneLabels(m, r);
    r
  }

  /**
    The discovery order of the flood fill: the worklist starts at face 0,
    and every later face in it was reached from a face queued before it,
    whose label it took, negated when the shared side is constrained.
   */
  lemma FloodFillDiscovery(m: Mesh)
    ensures var r := FloodFill(m);
      && |r.queue| > 0 && r.queue[0] == 0
      && forall q :: 0 < q < |r.queue| ==> HasDiscoverer(m, r, q)
  {
    var s := Start(m);
    assert Parented(m, s);
    RunKeepsParented(m, s);
  }

  /**
    A two-colouring of the faces in which face 0 is outside and exactly the
    constrained sides separate faces of different colour: what a correct
    triangulation of a polygon with (nested) holes admits.
   */
  ghost predicate Colouring(m: Mesh, col: seq<bool>)
  {
    && |col| == |m|
    && !col[0]
    && forall f, i :: 0 <= f < |m| && 0 <= i < 3 ==> col[m[f].neighbor[i]] == (col[f] != m[f].constrained[i])
  }

  lemma {:induction false} WalkParityIsColour(m: Mesh, col: seq<bool>, w: seq<Crossing>, f: nat)
    requires Colouring(m, col)
    requires WalkTo(m, w, f)
    ensures f < |m| && Parity(m, w) == col[f]
    decreases |w|
  {
    if |w| > 0 {
      var c := w[|w| - 1];
      WalkParityIsColour(m, col, w[..|w| - 1], c.face);
    }
  }

  /**
    When a colouring exists, the flood fill finds it: a face is labelled
    inside exactly when it is reachable and coloured inside. Holes are gaps
    and islands inside holes are filled, by parity alone.
   */
  lemma FloodFillFindsColouring(m: Mesh, col: seq<bool>)
    requires Colouring(m, col)
    ensures forall f :: 0 <= f < |m| ==> (FloodFill(m).inside[f] <==> Reachable(m, f) && col[f])
  {
    var r := FloodFill(m);
    forall f | 0 <= f < |m|
      ensures r.inside[f] <==> Reachable(m, f) && col[f]
    {
      if r.visited[f] {
        var w :| Explains(m, w, f, r.inside[f]);
        WalkParityIsColour(m, col, w, f);
      }
    }
  }

  /**
    A polygon with a hole and an island inside the hole, reduced to its face
    graph: face 1 lies between the exterior ring and the hole, face 2 inside
    the hole, face 3 on the island, and each passes to the next across a
    constrained side. Sides that lead nowhere else point back at their face.
   */
  ghost predicate NestedShape(m: Mesh)
  {
    && |m| == 4
    && m[0].neighbor == [1, 0, 0] && m[0].constrained == [true, false, false]
    && m[1].neighbor == [0, 2, 1] && m[1].constrained == [true, true, false]
    && m[2].neighbor == [1, 3, 2] && m[2].constrained == [true, true, false]
    && m[3].neighbor == [2, 3, 3] && m[3].constrained == [true, false, false]
  }

  lemma NestedColouring(m: Mesh)
    requires NestedShape(m)
    ensures Colouring(m, [false, true, false, true])
  {
    var col := [false, true, false, true];
    forall f, i | 0 <= f < |m| && 0 <= i < 3
      ensures col[m[f].neighbor[i]] == (col[f] != m[f].constrained[i])
    {
      assert f == 0 || f == 1 || f == 2 || f == 3;
      assert i == 0 || i == 1 || i == 2;
    }
  }

  lemma NestedReachable(m: Mesh, f: nat)
    requires NestedShape(m)
    requires f < 4
    ensures Reachable(m, f)
  {
    var w1 := [Crossing(0, 0)];
    var w2 := w1 + [Crossing(1, 1)];
    var w3 := w2 + [Crossing(2, 1)];
    assert WalkTo(m, [], 0);
    assert w1[..0] == [];
    assert WalkTo(m, w1, 1);
    assert w2[..1] == w1;
    assert WalkTo(m, w2, 2);
    assert w3[..2] == w2;
    assert WalkTo(m, w3, 3);
  }

  /** On a mesh whose faces are all reachable, a colouring is exactly the fill's labelling. */
  lemma FillIsColouring(m: Mesh, col: seq<bool>)
    requires Colouring(m, col)
    requires forall f :: 0 <= f < |m| ==> Reachable(m, f)
    ensures FloodFill(m).inside == col
  {
    FloodFillFindsColouring(m, col);
    var inside := FloodFill(m).inside;
    assert |inside| == |col|;
  }

  /** The hole is left out and the island inside it is filled (a double toggle). */
  lemma NestedIslandIsFilled(m: Mesh)
    requires NestedShape(m)
    ensures FloodFill(m).inside == [false, true, false, true]
  {
    NestedColouring(m);
    forall f | 0 <= f < |m|
      ensures Reachable(m, f)
    {
      NestedReachable(m, f);
    }
    FillIsColouring(m, [false, true, false, true]);
  }
}

# CityGML parser core of azul, modelled in Dafny

This project models the geometric core of azul's CityGML parser
(`src/CityGMLParser.cpp`). The parser reads city objects, such as buildings
and their surfaces, and turns their polygons with holes into two buffers:

- a triangle buffer per surface type. Each triangle is 18 floats: for every
  vertex, its position and then the plane normal.
- a wireframe edge buffer per object. Each segment is 6 floats: its two
  endpoints.

It also keeps a bounding box over every point read in a session.

The model is functional. Every operation is a pure function over
immutable datatypes, and lemmas relate the operations to one another.
Coordinates are exact reals.

The modules follow the order in which a polygon is processed:

- `Geometry` (`geometry.dfy`): points, rings and polygons, and the
  ring-closure repair done before triangulation.
- `Bounds` (`bounds.dfy`): the bounding-box tracker of `parseRing`. It has a
  seeding flag that `clear` re-arms.
- `Labeling` (`labeling.dfy`):
  - A triangulation is an arena of faces, and face 0 is the infinite face.
  - The inside/outside flood fill is a FIFO worklist. It crosses a
    constrained side by flipping the label and an unconstrained side by
    keeping it.
  - The fill is characterised by walks from the infinite face and by the
    parity of the constrained sides they cross.
- `Triangles` (`triangles.dfy`):
  - constraint generation for the exterior and interior rings
  - the three-way dispatch: skip, bare triangle, or the general path with
    plane fit, triangulation, labelling and emission
  - the 18-float triangle records
- `Edges` (`edges.dfy`): the 6-float segment records of exterior rings.
- `Objects` (`objects.dfy`):
  - city objects, and polygons grouped by surface type in key order
  - namespace-prefix stripping
  - the allow-listed attributes
  - `parseObject`
- `Regenerate` (`regenerate.dfy`): `regenerateTrianglesFor`,
  `regenerateEdgesFor` and `regenerateGeometries`.
- `Sessions` (`session.dfy`): loading walked objects into a session, and
  `clear`.

The CGAL parts are parameters of the model, fields of a `Kernel` record:

- `fit` stands for the least-squares plane fit, together with the plane's
  `to_2d` and `to_3d` maps.
- `triangulate` stands for building the constrained Delaunay triangulation.
  It returns a well-formed face arena. Inserting an equal 2D point returns
  the existing vertex, so vertex handles are modelled as equal projected
  points.

Everything downstream of these two functions is modelled. The flood fill
works on any well-formed arena. Its result is proved for every
triangulation the kernel could return, not only for Delaunay ones.

## Model

| member | source | states |
|---|---|---|
| Geometry.CloseRing | src/CityGMLParser.cpp:147-160 | Repair appends a copy of the first point exactly when the last point differs from it. Points are never removed, and the result is closed. |
| Geometry.ClosePolygon | src/CityGMLParser.cpp:147-160 | The exterior ring and every interior ring are repaired independently. The number of rings is kept. |
| Geometry.ClosePolygonIdempotent | src/CityGMLParser.cpp:147-160 | Repairing a repaired polygon changes nothing. |
| Bounds.ObservePoint | src/CityGMLParser.cpp:126-131 | Observing one point on an ordered tracker widens each axis to the min and max of the old bound and the point's coordinate. |
| Bounds.ObservePointsIsMinMax | src/CityGMLParser.cpp:126-131 | After observing a sequence, each bound is the min (or max) of the starting bound and all of the sequence's coordinates on that axis. |
| Bounds.ObservePointsAppend | src/CityGMLParser.cpp:126-131 | Observing `ps` and then `qs` is the same as observing `ps + qs`. |
| Bounds.ParseRingsFlatten | src/CityGMLParser.cpp:109-131 | Parsing rings one by one equals seeding once from the first point seen and then observing all the points in order. |
| Bounds.BoundsAreMinMax | src/CityGMLParser.cpp:121-131 | From an armed tracker, the bounds of a non-empty ring are the componentwise min and max of its points. |
| Bounds.SessionBounds | src/CityGMLParser.cpp:109-131 | Over a session's rings, every point lies inside the box, and every bound is attained by some point. |
| Bounds.BoundsOrderIndependent | src/CityGMLParser.cpp:121-131 | The bounds are the same for any permutation of the points. |
| Bounds.ParseRingOrdered | src/CityGMLParser.cpp:121-131 | Parsing keeps min <= max on every axis. |
| Bounds.Rearm | src/CityGMLParser.cpp:68-71 | `clear` re-arms the seeding and leaves the stale bounds in place. |
| Bounds.ClearReseeds | src/CityGMLParser.cpp:121-131 | After `clear` re-arms the seeding, the next non-empty ring gives what a fresh parser computes: the stale bounds are forgotten. |
| Bounds.SeqMinMaxByElements | src/CityGMLParser.cpp:126-131 | Min and max depend only on the set of values seen. |
| Labeling.Start | src/CityGMLParser.cpp:239-245 | The initial state marks only the infinite face visited, labels it outside, and queues it. The worklist invariant holds. |
| Labeling.Visit | src/CityGMLParser.cpp:248-263 | Looking across one side of face c marks an unvisited neighbour visited and appends exactly that neighbour to the queue. Its label is c's label, flipped when the side is constrained. A visited neighbour leaves the state unchanged, and earlier labels are kept. |
| Labeling.VisitKeepsParented | src/CityGMLParser.cpp:248-263 | One side-visit from a queued face keeps the discovery order: the new entry's discoverer is that face. |
| Labeling.VisitKeepsInv | src/CityGMLParser.cpp:248-263 | One side-visit keeps the worklist invariant: queue shape, distinctness, coverage and justified labels. |
| Labeling.VisitFrom | src/CityGMLParser.cpp:248-263 | After looking across sides i..2 of face c, all those neighbours are visited and earlier labels are kept. Each newly visited face is a neighbour of c across one of those sides and carries c's label, flipped when that side is constrained. |
| Labeling.VisitFromKeepsInv | src/CityGMLParser.cpp:248-263 | Visiting the remaining sides of the front face keeps the invariant. |
| Labeling.StepKeepsInv | src/CityGMLParser.cpp:246-265 | Processing the front of the queue keeps the invariant and strictly decreases the measure (twice the unvisited faces plus the pending queue). |
| Labeling.Step | src/CityGMLParser.cpp:246-265 | Processing the front face pops it, visits all three of its neighbours, keeps the queue as a prefix and keeps every earlier label. |
| Labeling.StepKeepsParented | src/CityGMLParser.cpp:246-265 | A worklist step keeps the discovery order. |
| Labeling.Run | src/CityGMLParser.cpp:246-265 | The worklist loop ends with an empty pending queue and the invariant intact. |
| Labeling.DoneReachable | src/CityGMLParser.cpp:246-265 | When the loop ends, a face is visited exactly when it is reachable from the infinite face through neighbour links. |
| Labeling.DoneLabels | src/CityGMLParser.cpp:246-265 | When the loop ends, every visited face's label is explained by a walk from the infinite face: it is inside exactly when the walk crosses an odd number of constrained sides. |
| Labeling.FloodFill | src/CityGMLParser.cpp:239-265 | The infinite face is visited and outside. A face is visited exactly when it is reachable. Each visited label has an explaining walk. Only visited faces are inside. Each face is queued at most once, and exactly the visited faces are queued. |
| Labeling.FloodFillDiscovery | src/CityGMLParser.cpp:239-265 | The worklist starts at face 0, and every later entry was reached from an entry queued before it across one of that face's sides. It carries that face's label, flipped when the side is constrained. |
| Labeling.WalkParityIsColour | src/CityGMLParser.cpp:256-262 | For a consistent two-colouring (flipping across constrained sides, keeping across the rest), the parity of any walk to a face equals its colour. |
| Labeling.FloodFillFindsColouring | src/CityGMLParser.cpp:239-265 | Whenever a consistent colouring exists, the fill labels a face inside exactly when the face is reachable and coloured inside. |
| Labeling.FillIsColouring | src/CityGMLParser.cpp:239-265 | When every face is reachable and a consistent colouring exists, the fill's labels are that colouring. |
| Labeling.NestedIslandIsFilled | src/CityGMLParser.cpp:239-265 | In a nested shape (outside, polygon body, hole, island in the hole), the body and the island are labelled inside, and the outside and the hole are labelled outside. |
| Triangles.Projected | src/CityGMLParser.cpp:212-233 | Every ring point is mapped to the plane's 2D system, and the order is kept. |
| Triangles.JoinsCons | src/CityGMLParser.cpp:212-220 | The consecutive pairs of a point list are its first pair and the consecutive pairs of its tail. |
| Triangles.ChainExactly | src/CityGMLParser.cpp:212-220 | A segment is a constraint exactly when it joins two consecutively inserted vertices that differ. |
| Triangles.InteriorDoubleInsertHarmless | src/CityGMLParser.cpp:221-232 | Inserting an interior ring's first point twice produces the same constraints as chaining the ring from its first point once. |
| Triangles.ShortHolesIgnored | src/CityGMLParser.cpp:221-233 | A hole constraint comes exactly from an interior ring of at least 4 points. |
| Triangles.NoZeroLengthConstraint | src/CityGMLParser.cpp:212-233 | No constraint handed to the triangulation has equal endpoints. |
| Triangles.TriangleRecord | src/CityGMLParser.cpp:178-192 | A triangle is 18 floats. Each 6-float slice is one vertex's position followed by the same normal. |
| Triangles.Selected | src/CityGMLParser.cpp:268-269 | The reference list of emitted faces: ascending, finite and inside, and it contains every finite inside face. |
| Triangles.EmitFacesRecords | src/CityGMLParser.cpp:268-282 | The emitted floats are one 18-float record per selected face, in face order. Record j is face `sel[j]` lifted to 3D with the plane's normal. |
| Triangles.EmittedFacesAreInside | src/CityGMLParser.cpp:239-282 | Every emitted face is finite and inside, that is, reached from the infinite face across an odd number of constrained sides. |
| Triangles.ShortcutNormal | src/CityGMLParser.cpp:175-182 | The shortcut normal is orthogonal to both edge vectors of the triangle. |
| Triangles.AddTriangles | src/CityGMLParser.cpp:146-285 | The polygon comes back repaired. The buffer is only appended to, and nothing is appended when the repaired exterior ring has fewer than 4 points. |
| Triangles.AppendsWholeTriangles | src/CityGMLParser.cpp:162-283 | The buffer grows by a whole number of 18-float triangles. |
| Triangles.BareTriangle | src/CityGMLParser.cpp:168-193 | A 4-point exterior ring without holes yields exactly one triangle: the first three points in order, with a normal orthogonal to both edges. |
| Triangles.UnclosedTriangleIsEmitted | src/CityGMLParser.cpp:147-193 | An unclosed three-point ring is repaired to four points and then emitted as one triangle. |
| Triangles.GeneralPath | src/CityGMLParser.cpp:196-283 | Otherwise the buffer keeps its contents and grows by 18 floats per finite face the fill labels inside. Record j is the j-th such face, in face order, lifted to 3D with the fitted plane's normal. |
| Triangles.ClosedThreePointRingSkipped | src/CityGMLParser.cpp:147-166 | An already closed three-point ring stays at three points and is skipped: nothing is appended. |
| Triangles.NoFiniteFaceEmitsNothing | src/CityGMLParser.cpp:236-238 | A triangulation without finite faces contributes nothing. |
| Triangles.AddTrianglesAfterRepair | src/CityGMLParser.cpp:147-160 | Dispatching an already repaired polygon gives the same result as dispatching the original. |
| Edges.RingEdgesRecords | src/CityGMLParser.cpp:305-315 | A ring of n points yields n-1 segments. Segment k is the record of points k and k+1. |
| Edges.PolygonEdgeCount | src/CityGMLParser.cpp:302-315 | A polygon whose exterior ring has fewer than 4 points contributes no segment. Otherwise it contributes one segment per consecutive pair. |
| Edges.HolesDrawNothing | src/CityGMLParser.cpp:300-317 | Interior rings never contribute segments: replacing them changes nothing. |
| Edges.EdgesOfAppend | src/CityGMLParser.cpp:300-317 | The edges of concatenated polygon lists are the concatenation of their edges. |
| Edges.EdgesOfCount | src/CityGMLParser.cpp:300-317 | The edge buffer holds 6 floats per drawn segment. |
| Objects.KeysDistinct | src/CityGMLParser.cpp:97-101 | Surface-type keys of an object are pairwise distinct. |
| Objects.StripPrefix | src/CityGMLParser.cpp:75-79 | A name without ':' is kept whole. |
| Objects.ColonIndexIsFirst | src/CityGMLParser.cpp:75-79 | The prefix that stripping drops contains no ':', so the cut is at the first ':'. |
| Objects.StripPrefixFirstColon | src/CityGMLParser.cpp:75-79 | With a ':' present, the result is exactly what follows the first ':'. |
| Objects.StripQualified | src/CityGMLParser.cpp:85-88 | Stripping `prefix:local` with a colon-free prefix gives `local`, even when `local` contains ':'. |
| Objects.Attributes | src/CityGMLParser.cpp:84-93 | Only allow-listed local names become attributes. |
| Objects.AttributesPresent | src/CityGMLParser.cpp:84-93 | A local name is an attribute exactly when it is allow-listed and some child carries it. |
| Objects.AttributesLastWins | src/CityGMLParser.cpp:84-93 | An attribute's value is the text of the last child carrying that local name. |
| Objects.LaterNamespaceOverwrites | src/CityGMLParser.cpp:84-93 | Two children with the same local name under different prefixes leave one attribute, holding the second text. |
| Objects.ParsedNameCollision | src/CityGMLParser.cpp:22-39 | `gml:name` followed by `bldg:name` leaves a single `name` attribute holding the second text, because `name` is on the allow-list. |
| Objects.NonEmptyGroups | src/CityGMLParser.cpp:97-101 | A surface type gets an entry exactly when it receives at least one polygon. |
| Objects.NonEmptyGroupsKeepRings | src/CityGMLParser.cpp:97-113 | Dropping empty surface types loses no ring for the bounds. |
| Objects.ParseObject | src/CityGMLParser.cpp:73-103 | A parsed object keeps the identifier and the local type name, holds only allow-listed attributes, keeps exactly the non-empty surface types, and starts with empty output buffers. |
| Regenerate.AddAll | src/CityGMLParser.cpp:290-294 | Every polygon of a surface type is replaced by its repaired form. |
| Regenerate.AddTrianglesAppends | src/CityGMLParser.cpp:146-285 | What a polygon appends does not depend on the buffer's earlier contents. |
| Regenerate.AddAllIsConcat | src/CityGMLParser.cpp:290-294 | The shared buffer of a surface type is the concatenation of each polygon's own triangles, in order. |
| Regenerate.BufferMapKeys | src/CityGMLParser.cpp:288-294 | After clearing, a surface type gets a buffer exactly when it has at least one polygon, even if that polygon emits nothing. |
| Regenerate.BufferMapValue | src/CityGMLParser.cpp:288-294 | The buffer of a non-empty surface type is the one built from its own polygons. Keys are distinct, so no later type overwrites it. |
| Regenerate.BufferMapCongruent | src/CityGMLParser.cpp:288-294 | Surface types with the same keys, the same polygon counts and the same per-type results give the same map. |
| Regenerate.TriangleMapSpec | src/CityGMLParser.cpp:288-294 | A surface type has a triangle buffer exactly when it has a polygon, and that buffer holds the triangles of its polygons, in order. |
| Regenerate.CloseGroups | src/CityGMLParser.cpp:290-294 | Surface types and their order are kept, and every polygon is repaired. |
| Regenerate.RegenerateTrianglesFor | src/CityGMLParser.cpp:287-295 | Identifier, type, attributes and edges are untouched. Polygons are repaired. The triangle buffers are rebuilt from empty as above. |
| Regenerate.GroupEdgesFlatten | src/CityGMLParser.cpp:300-317 | The edge buffer, built group by group, equals the edges of all polygons taken in key order. |
| Regenerate.RegenerateEdgesFor | src/CityGMLParser.cpp:297-318 | Everything but the edges is untouched. The edges are rebuilt from empty from all polygons in key order. |
| Regenerate.RegenerateObject | src/CityGMLParser.cpp:320-325 | Triangles are regenerated first, so the edges are drawn from the repaired rings. |
| Regenerate.RegenerateGeometries | src/CityGMLParser.cpp:320-325 | Every object is regenerated, and the number and order of objects are kept. |
| Regenerate.TrianglesOfRepaired | src/CityGMLParser.cpp:147-160 | Triangulating repaired polygons gives the same triangles as triangulating the originals. |
| Regenerate.TriangleMapRepaired | src/CityGMLParser.cpp:287-295 | The triangle buffers of repaired surface types equal those of the originals. |
| Regenerate.RegenerateObjectIdempotent | src/CityGMLParser.cpp:320-325 | Regenerating an object twice gives the same object as regenerating it once. |
| Regenerate.RegenerateGeometriesIdempotent | src/CityGMLParser.cpp:320-325 | Regenerating all objects twice gives the same objects as regenerating them once. |
| Regenerate.RegeneratedEdgeCount | src/CityGMLParser.cpp:297-318 | The edge buffer holds 6 floats per consecutive pair of every drawn, repaired exterior ring. |
| Regenerate.TrianglesBeforeEdges | src/CityGMLParser.cpp:320-325 | For an unclosed three-point ring, regeneration emits one triangle and the three segments ab, bc and ca. Drawing the unrepaired ring alone would emit no segment. |
| Regenerate.SkippedPolygonKeepsEmptyEntry | src/CityGMLParser.cpp:287-295 | A surface type whose only polygon is degenerate gets an empty triangle buffer and no edges. |
| Sessions.ParseObjects | src/CityGMLParser.cpp:53-56 | Each walked object is parsed, in order. |
| Sessions.Load | src/CityGMLParser.cpp:53-65 | New objects are appended after the earlier ones, and every object of the session, old and new, is regenerated. |
| Sessions.Clear | src/CityGMLParser.cpp:68-71 | Clearing drops all objects and re-arms the seeding of the bounds. |
| Sessions.ArmedTrackersAgree | src/CityGMLParser.cpp:121-131 | Two armed trackers agree once a ring with a point has been read. Stale bounds are forgotten. |
| Sessions.ClearThenLoad | src/CityGMLParser.cpp:68-71 | After `clear`, loading a document with at least one point gives exactly the session a fresh parser would build. |
| Sessions.LoadBounds | src/CityGMLParser.cpp:53-56 | In a fresh or cleared session, the loaded bounds contain every point of the document, and each bound is attained. |
| Sessions.ReloadKeepsEarlierObjects | src/CityGMLParser.cpp:53-65 | Loading a second document leaves the objects of the first one as they were. |

## Left out

- XML parsing and the tree walkers are not modelled: `ObjectsWalker`, `PolygonsWalker`, `RingsWalker`, `PointsWalker` and pugixml file loading. Their results are inputs (`ObjectNode`, grouped polygons, rings as point lists). The walkers are not part of this model.
- The CGAL computations are `Kernel` parameters with no contract of their own: the least-squares plane fit, the plane's `to_2d`/`to_3d` maps and the constrained Delaunay triangulation. The model proves what the parser does with any result they return. It does not model what makes that result geometrically correct.
- Geometric claims are not stated: hole exclusion measured by triangle centroids, and planarity of the emitted triangles. They depend on the triangulation's geometry, which is a parameter. The model proves the topological counterpart: faces are labelled by the parity of the constrained sides crossed, and islands inside holes are filled.
- Floating point is not modelled. Coordinates are exact reals, so double rounding is absent, as is the narrowing to `float` when values are pushed into the output buffers. Ring-closure comparison is therefore exact equality.
- Diagnostic output on `std::cout` is not modelled: warnings, statistics and the printed bounds.
- `centroidOf` (lines 134-144) is not modelled. No code calls it.
- An empty ring is undefined behaviour in the source, because `front()` and `back()` are called on an empty list. The model picks one behaviour: repair leaves it empty, and the bounds ignore it without consuming the seeding.
- Labeling.FloodFill: when the triangulation admits no consistent two-colouring, the labels depend on the visiting order. The fill's own contract states them through explaining walks, not as a colouring. `FloodFillFindsColouring` gives the colouring only when one exists, and `FloodFillDiscovery` states the discovery step itself. The `CGAL_assertion` checks are not modelled.
- The vertex order inside an emitted face is whatever the triangulation stores, taken as `corner` in the model. It is not normalised against the ring's winding.
- Map key order is modelled as strictly ascending lexicographic order on characters, which matches `std::map<std::string, …>` for the characters used in element names.
- Sessions.Load: the walker is assumed to hand over the objects in document order. The bounds are updated over all rings of the document in that order, which is what calling `parseObject` for each object does.

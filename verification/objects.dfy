/**
  City objects as the parser stores them: the identifier and the type name
  without its namespace prefix, the preserved attributes, the polygons
  grouped by surface type (a map iterated in ascending key order), and the
  two output buffers (triangles per surface type, and edges).
 */
module Objects {
  import opened Geometry

  /** Lexicographic order on strings, the iteration order of a map keyed by strings. */
  predicate StrLess(a: string, b: string)
    decreases |a|
  {
    if |a| == 0 then |b| > 0
    else if |b| == 0 then false
    else a[0] < b[0] || (a[0] == b[0] && StrLess(a[1..], b[1..]))
  }

  lemma {:induction false} StrLessIrreflexive(a: string)
    ensures !StrLess(a, a)
    decreases |a|
  {
    if |a| > 0 {
      StrLessIrreflexive(a[1..]);
    }
  }

  /** The polygons of one surface type. */
  datatype SurfaceGroup = SurfaceGroup(key: string, polygons: seq<Polygon>)

  predicate KeysAscending(gs: seq<SurfaceGroup>)
  {
    forall i, j :: 0 <= i < j < |gs| ==> StrLess(gs[i].key, gs[j].key)
  }

  /** A map from surface type to polygons, listed in key order. */
  type Groups = gs: seq<SurfaceGroup> | KeysAscending(gs) witness []

  /** Keys of a group list are pairwise different. */
  lemma KeysDistinct(gs: Groups, i: nat, j: nat)
    requires i < |gs| && j < |gs| && i != j
    ensures gs[i].key != gs[j].key
  {
    if i < j {
      StrLessIrreflexive(gs[i].key);
    } else {
      StrLessIrreflexive(gs[j].key);
    }
  }

  datatype CityObject = CityObject(
    id: string,
    kind: string,
    attributes: map<string, string>,
    polygonsByType: Groups,
    trianglesByType: map<string, seq<real>>,
    edges: seq<real>)

  /** The position of the first ':' in `s`, or |s| when there is none. */
  function ColonIndex(s: string): (i: nat)
    ensures i <= |s|
    ensures i < |s| ==> s[i] == ':'
    decreases |s|
  {
    if |s| == 0 || s[0] == ':' then 0 else 1 + ColonIndex(s[1..])
  }

  /** No ':' comes before the position found. */
  lemma {:induction false} ColonIndexIsFirst(s: string)
    ensures ':' !in s[..ColonIndex(s)]
    decreases |s|
  {
    if |s| > 0 && s[0] != ':' {
      ColonIndexIsFirst(s[1..]);
      assert s[..ColonIndex(s)] == [s[0]] + s[1..][..ColonIndex(s[1..])];
    }
  }

  /**
    The local part of an element name: everything after the first ':', or
    the whole name when it has no ':'.
   */
  function StripPrefix(name: string): (r: string)
    ensures ':' !in name ==> r == name
  {
    var i := ColonIndex(name);
    if i < |name| then name[i + 1..] else name
  }

  /** With a ':' present, the result is exactly what follows the first one. */
  lemma StripPrefixFirstColon(name: string)
    requires ':' in name
    ensures exists i :: 0 <= i < |name| && name[i] == ':' && ':' !in name[..i] && StripPrefix(name) == name[i + 1..]
  {
    var i := ColonIndex(name);
    ColonIndexIsFirst(name);
    assert i < |name|;
  }

  /** Stripping removes exactly a colon-free prefix and its separator; the local part may itself contain ':'. */
  lemma StripQualified(prefix: string, local: string)
    requires ':' !in prefix
    ensures StripPrefix(prefix + [':'] + local) == local
  {
    var name := prefix + [':'] + local;
    assert name[|prefix|] == ':';
    ColonIndexIsFirst(name);
    var i := ColonIndex(name);
    assert name[..|prefix|] == prefix;
    assert name[|prefix| + 1..] == local;
  }

  /** The element names whose text is kept as an attribute of the object. */
  const Preserved: set<string> := {
    "class", "function", "usage", "yearOfConstruction", "yearOfDemolition",
    "roofType", "measuredHeight", "storeysAboveGround", "storeysBelowGround",
    "storeyHeightsAboveGround", "storeyHeightsBelowGround", "isMovable",
    "averageHeight", "trunkDiameter", "crownDiameter", "species", "height", "name"
  }

  /** A direct child element of an object: its (qualified) name and its text. */
  datatype Child = Child(name: string, value: string)

  /**
    The children visited in document order, keeping those whose local name
    is in `keep`; a later child with the same local name overwrites an
    earlier one.
   */
  function Attributes(keep: set<string>, cs: seq<Child>): (m: map<string, string>)
    ensures m.Keys <= keep
    decreases |cs|
  {
    if |cs| == 0 then map[]
    else
      var m := Attributes(keep, cs[..|cs| - 1]);
      var last := cs[|cs| - 1];
      var key := StripPrefix(last.name);
      if key in keep then m[key := last.value] else m
  }

  /** Some child carries the local name `key`. */
  predicate Carried(cs: seq<Child>, key: string)
  {
    exists i :: 0 <= i < |cs| && StripPrefix(cs[i].name) == key
  }

  lemma CarriedSnoc(cs: seq<Child>, key: string)
    requires |cs| > 0
    ensures Carried(cs, key) <==> Carried(cs[..|cs| - 1], key) || StripPrefix(cs[|cs| - 1].name) == key
  {
    var init := cs[..|cs| - 1];
    if Carried(cs, key) {
      var i :| 0 <= i < |cs| && StripPrefix(cs[i].name) == key;
      if i < |init| {
        assert init[i] == cs[i];
      }
    }
    if Carried(init, key) {
      var i :| 0 <= i < |init| && StripPrefix(init[i].name) == key;
      assert init[i] == cs[i];
    }
  }

  /** A preserved local name is an attribute exactly when some child carries it. */
  lemma {:induction false} AttributesPresent(keep: set<string>, cs: seq<Child>, key: string)
    ensures key in Attributes(keep, cs) <==> key in keep && Carried(cs, key)
    decreases |cs|
  {
    if |cs| > 0 {
      var n := |cs| - 1;
      var init := cs[..n];
      AttributesPresent(keep, init, key);
      CarriedSnoc(cs, key);
      if StripPrefix(cs[n].name) == key {
        assert key in keep ==> key in Attributes(keep, cs);
      } else {
        AttributesStep(keep, cs, key);
      }
    }
  }

  /** Child `i` carries the local name `key`, and no later child does. */
  predicate LastCarrier(cs: seq<Child>, key: string, i: nat)
  {
    && i < |cs| && StripPrefix(cs[i].name) == key
    && forall j :: i < j < |cs| ==> StripPrefix(cs[j].name) != key
  }

  /** A child that does not carry `key` keeps the last carrier of the earlier children. */
  lemma LastCarrierExtends(cs: seq<Child>, key: string, i: nat)
    requires |cs| > 0 && LastCarrier(cs[..|cs| - 1], key, i)
    requires StripPrefix(cs[|cs| - 1].name) != key
    ensures LastCarrier(cs, key, i)
  {
    var init := cs[..|cs| - 1];
    forall j | i < j < |cs|
      ensures StripPrefix(cs[j].name) != key
    {
      if j < |cs| - 1 {
        assert cs[j] == init[j];
      }
    }
  }

  /** One more child either sets its own key or leaves the map alone. */
  lemma AttributesStep(keep: set<string>, cs: seq<Child>, key: string)
    requires |cs| > 0 && StripPrefix(cs[|cs| - 1].name) != key
    ensures key in Attributes(keep, cs) <==> key in Attributes(keep, cs[..|cs| - 1])
    ensures key in Attributes(keep, cs) ==> Attributes(keep, cs)[key] == Attributes(keep, cs[..|cs| - 1])[key]
  {
    var m := Attributes(keep, cs[..|cs| - 1]);
    var last := StripPrefix(cs[|cs| - 1].name);
    if last in keep {
      assert Attributes(keep, cs) == m[last := cs[|cs| - 1].value];
    } else {
      assert Attributes(keep, cs) == m;
    }
  }

  /** The value of an attribute is the text of the last child carrying its name. */
  lemma {:induction false} AttributesLastWins(keep: set<string>, cs: seq<Child>, key: string)
    requires key in Attributes(keep, cs)
    ensures exists i: nat :: LastCarrier(cs, key, i) && Attributes(keep, cs)[key] == cs[i].value
    decreases |cs|
  {
    var n := |cs| - 1;
    var init := cs[..n];
    if StripPrefix(cs[n].name) == key {
      assert LastCarrier(cs, key, n);
    } else {
      AttributesStep(keep, cs, key);
      AttributesLastWins(keep, init, key);
      var i: nat :| LastCarrier(init, key, i) && Attributes(keep, init)[key] == init[i].value;
      LastCarrierExtends(cs, key, i);
      assert cs[i] == init[i];
    }
  }

  /** What the object walker hands over: the element, its children and its polygons grouped by surface type. */
  datatype ObjectNode = ObjectNode(name: string, id: string, children: seq<Child>, polygonsByType: Groups)

  /** Only surface types that receive at least one polygon get an entry. */
  function NonEmptyGroups(gs: Groups): (r: Groups)
    ensures forall g :: g in r <==> g in gs && |g.polygons| > 0
    decreases |gs|
  {
    if |gs| == 0 then []
    else
      var rest: Groups := NonEmptyGroups(gs[1..]);
      if |gs[0].polygons| == 0 then rest
      else
        assert forall j :: 0 <= j < |rest| ==> StrLess(gs[0].key, rest[j].key) by {
          forall j | 0 <= j < |rest|
            ensures StrLess(gs[0].key, rest[j].key)
          {
            assert rest[j] in gs[1..];
            var m :| 0 <= m < |gs[1..]| && gs[1..][m] == rest[j];
            assert gs[1 + m] == rest[j];
          }
        }
        [gs[0]] + rest
  }

  /** The rings of an object in parsing order: per polygon, the exterior ring and then the interior rings. */
  function PolygonRings(polys: seq<Polygon>): seq<Ring>
    decreases |polys|
  {
    if |polys| == 0 then [] else [polys[0].exterior] + polys[0].interiors + PolygonRings(polys[1..])
  }

  function ObjectRings(gs: seq<SurfaceGroup>): seq<Ring>
    decreases |gs|
  {
    if |gs| == 0 then [] else PolygonRings(gs[0].polygons) + ObjectRings(gs[1..])
  }

  /**
    A freshly parsed object: identifier, local type name, preserved
    attributes and the walker's polygons; the output buffers are empty
    until the geometries are regenerated.
   */
  function ParseObject(node: ObjectNode): (o: CityObject)
    ensures o.id == node.id && o.kind == StripPrefix(node.name)
    ensures o.attributes.Keys <= Preserved
    ensures forall g :: g in o.polygonsByType <==> g in node.polygonsByType && |g.polygons| > 0
    ensures o.trianglesByType == map[] && o.edges == []
  {
    CityObject(node.id, StripPrefix(node.name), Attributes(Preserved, node.children), NonEmptyGroups(node.polygonsByType), map[], [])
  }

  /** Dropping the empty groups loses no ring, so the bounds see the same points. */
  lemma {:induction false} NonEmptyGroupsKeepRings(gs: Groups)
    ensures ObjectRings(NonEmptyGroups(gs)) == ObjectRings(gs)
    decreases |gs|
  {
    if |gs| > 0 {
      NonEmptyGroupsKeepRings(gs[1..]);
      var rest := NonEmptyGroups(gs[1..]);
      assert ObjectRings(gs) == PolygonRings(gs[0].polygons) + ObjectRings(gs[1..]);
      if |gs[0].polygons| > 0 {
        var r := NonEmptyGroups(gs);
        assert r == [gs[0]] + rest;
        assert r[0] == gs[0] && r[1..] == rest;
      } else {
        assert PolygonRings(gs[0].polygons) == [];
        assert NonEmptyGroups(gs) == rest;
      }
    }
  }

  /**
    Namespaces are dropped before the allow-list is consulted, so two
    children with the same local name under different prefixes (such as
    `gml:name` and `bldg:name`) leave one attribute, holding the text of
    the second.
   */
  lemma LaterNamespaceOverwrites(keep: set<string>, p1: string, p2: string, local: string, v1: string, v2: string)
    requires ':' !in p1 && ':' !in p2 && local in keep
    ensures Attributes(keep, [Child(p1 + [':'] + local, v1), Child(p2 + [':'] + local, v2)]) == map[local := v2]
  {
    StripQualified(p1, local);
    StripQualified(p2, local);
    var cs := [Child(p1 + [':'] + local, v1), Child(p2 + [':'] + local, v2)];
    assert cs[..1] == [cs[0]] && [cs[0]][..0] == [];
    assert Attributes(keep, [cs[0]]) == map[local := v1];
  }

  /** In a parsed object the collision concerns, for instance, the preserved name `name`. */
  lemma ParsedNameCollision(node: ObjectNode, p1: string, p2: string, v1: string, v2: string)
    requires ':' !in p1 && ':' !in p2
    requires node.children == [Child(p1 + [':'] + "name", v1), Child(p2 + [':'] + "name", v2)]
    ensures ParseObject(node).attributes == map["name" := v2]
  {
    assert "name" in Preserved;
    LaterNamespaceOverwrites(Preserved, p1, p2, "name", v1, v2);
  }
}

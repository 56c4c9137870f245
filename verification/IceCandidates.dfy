/** `sides`: the split of the spine graph in either mode. */
module IceCandidates {
  import opened Common
  import opened IceSides
  import opened IceSlots
  import opened IceTypes
  import opened Sorting
  import opened Zephyr

  const MAX_DEGREE: nat := 32

  type NativeEdge = (nat, nat)

  // ---- sides ----

  function SpineList(spines: seq<Option<Spine>>): (pairs: seq<Spine>)
    ensures forall s :: s in pairs <==> Some(s) in spines
  {
    if spines == [] then []
    else
      assert forall x :: x in spines <==> x == spines[0] || x in spines[1..] by {
        assert spines == [spines[0]] + spines[1..];
      }
      (if spines[0].Some? then [spines[0].value] else []) + SpineList(spines[1..])
  }

  function BothEdges(pairs: seq<Spine>): seq<Edge> {
    if pairs == [] then [] else [pairs[0].e, pairs[0].f] + BothEdges(pairs[1..])
  }

  lemma {:induction false} BothEdgesHold(pairs: seq<Spine>, e: Edge)
    ensures e in BothEdges(pairs) <==> exists s :: s in pairs && OnSpine(e, s)
  {
    if pairs != [] {
      BothEdgesHold(pairs[1..], e);
      assert pairs == [pairs[0]] + pairs[1..];
      assert forall s :: s in pairs <==> s == pairs[0] || s in pairs[1..];
      if OnSpine(e, pairs[0]) {
        assert pairs[0] in pairs;
      }
    }
  }

  /** The spine edges a colouring puts on one side, in the order of the list. */
  function OnSide(edges: seq<Edge>, colour: Colouring, side: bool): (list: seq<Edge>)
    requires forall e :: e in edges ==> e in colour
    ensures forall e :: e in list <==> e in edges && colour[e] == side
  {
    if edges == [] then []
    else
      assert forall e :: e in edges <==> e == edges[0] || e in edges[1..] by {
        assert edges == [edges[0]] + edges[1..];
      }
      (if colour[edges[0]] == side then [edges[0]] else []) + OnSide(edges[1..], colour, side)
  }

  lemma {:induction false} OnSideAscending(edges: seq<Edge>, colour: Colouring, side: bool)
    requires forall e :: e in edges ==> e in colour
    requires Ascending(edges, EdgeLess)
    ensures Ascending(OnSide(edges, colour, side), EdgeLess)
  {
    if edges != [] {
      OnSideAscending(edges[1..], colour, side);
      var rest := OnSide(edges[1..], colour, side);
      forall k | 0 <= k < |rest| ensures EdgeLess(edges[0], rest[k]) {
        assert rest[k] in rest;
        var j :| 0 <= j < |edges[1..]| && edges[1..][j] == rest[k];
        assert edges[j + 1] == rest[k];
      }
    }
  }

  /** A two-colouring of the spine graph exists; in Zephyr mode the orientation has to be one. */
  ghost predicate Splittable(m: nat, coords: seq<Coord>, spines: seq<Option<Spine>>) {
    if m != 0 then
      forall s :: Some(s) in spines ==>
        s.e.u < |coords| && s.f.u < |coords| && (coords[s.e.u].u != 0) != (coords[s.f.u].u != 0)
    else
      exists c :: Proper(c, SpineEdges(spines), SpineArcs(SpineList(spines)))
  }

  /** The split that the program fixes: by orientation in Zephyr mode, else by the canonical colouring. */
  ghost predicate PinnedSides(m: nat, coords: seq<Coord>, spines: seq<Option<Spine>>, left: seq<Edge>, right: seq<Edge>) {
    && TwoSided(spines, left, right)
    && Ascending(left, EdgeLess) && Ascending(right, EdgeLess)
    && Elements(left) + Elements(right) == SpineEdges(spines)
    && (m != 0 ==> forall e :: e in SpineEdges(spines) ==> e.u < |coords| && (e in right <==> coords[e.u].u != 0))
    && (m == 0 ==> exists c :: CanonicalSides(c, spines, right))
  }

  ghost predicate CanonicalSides(c: Colouring, spines: seq<Option<Spine>>, right: seq<Edge>) {
    && OnlyCanonical(c, SpineEdges(spines), SpineArcs(SpineList(spines)))
    && forall e :: e in SpineEdges(spines) ==> (e in right <==> c[e])
  }

  lemma RightUnique(m: nat, coords: seq<Coord>, spines: seq<Option<Spine>>,
                    left: seq<Edge>, right: seq<Edge>, left': seq<Edge>, right': seq<Edge>)
    requires PinnedSides(m, coords, spines, left, right) && PinnedSides(m, coords, spines, left', right')
    ensures forall e :: e in SpineEdges(spines) ==> (e in right <==> e in right')
  {
    if m == 0 {
      var c :| CanonicalSides(c, spines, right);
      var d :| CanonicalSides(d, spines, right');
      assert c == d;
    }
  }

  lemma SideUnique(spines: seq<Option<Spine>>, side: seq<Edge>, side': seq<Edge>)
    requires Ascending(side, EdgeLess) && Ascending(side', EdgeLess)
    requires Elements(side) <= SpineEdges(spines) && Elements(side') <= SpineEdges(spines)
    requires forall e :: e in SpineEdges(spines) ==> (e in side <==> e in side')
    ensures side == side'
  {
    EdgeOrder();
    forall e ensures e in side <==> e in side' {
      assert e in side <==> e in Elements(side);
      assert e in side' <==> e in Elements(side');
    }
    AscendingUnique(side, side', EdgeLess);
  }

  /** The spines have one split. */
  lemma SidesUnique(m: nat, coords: seq<Coord>, spines: seq<Option<Spine>>,
                    left: seq<Edge>, right: seq<Edge>, left': seq<Edge>, right': seq<Edge>)
    requires PinnedSides(m, coords, spines, left, right) && PinnedSides(m, coords, spines, left', right')
    ensures left == left' && right == right'
  {
    RightUnique(m, coords, spines, left, right, left', right');
    SideUnique(spines, right, right');
    forall e | e in SpineEdges(spines) ensures e in left <==> e in left' {
      InOneSide(spines, left, right, e);
      InOneSide(spines, left', right', e);
    }
    SideUnique(spines, left, left');
  }

  /** A spine edge is on one side only. */
  lemma InOneSide(spines: seq<Option<Spine>>, left: seq<Edge>, right: seq<Edge>, e: Edge)
    requires TwoSided(spines, left, right) && e in SpineEdges(spines)
    ensures e in left <==> e !in right
  {
    var i :| 0 <= i < |spines| && spines[i].Some? && OnSpine(e, spines[i].value);
  }

  lemma SpineEdgesListed(spines: seq<Option<Spine>>)
    ensures Elements(BothEdges(SpineList(spines))) == SpineEdges(spines)
    ensures Within(SpineArcs(SpineList(spines)), SpineEdges(spines))
  {
    var pairs := SpineList(spines);
    forall s | s in pairs ensures s.e in SpineEdges(spines) && s.f in SpineEdges(spines) {
      var i :| 0 <= i < |spines| && spines[i] == Some(s);
    }
    forall i | 0 <= i < |spines| && spines[i].Some? ensures spines[i].value in pairs {
      assert spines[i] in spines;
    }
    forall e ensures e in SpineEdges(spines) <==> e in BothEdges(pairs) {
      BothEdgesHold(pairs, e);
      if e in SpineEdges(spines) {
        var i :| 0 <= i < |spines| && spines[i].Some? && OnSpine(e, spines[i].value);
        assert spines[i].value in pairs;
      }
    }
  }

  ghost predicate Separates(colour: Colouring, spines: seq<Option<Spine>>) {
    && SpineEdges(spines) <= colour.Keys
    && forall s {:trigger Some(s) in spines} :: Some(s) in spines ==> s.e in colour && s.f in colour && colour[s.e] != colour[s.f]
  }

  /** Splitting an ascending list of the spine edges by a colouring that separates every spine. */
  lemma SplitIsTwoSided(spines: seq<Option<Spine>>, edges: seq<Edge>, colour: Colouring)
    requires Ascending(edges, EdgeLess) && Elements(edges) == SpineEdges(spines) && Separates(colour, spines)
    requires forall e :: e in edges ==> e in colour
    ensures var left, right := OnSide(edges, colour, false), OnSide(edges, colour, true);
      TwoSided(spines, left, right) && Ascending(left, EdgeLess) && Ascending(right, EdgeLess) &&
      Elements(left) + Elements(right) == SpineEdges(spines)
    ensures forall e :: e in SpineEdges(spines) ==> (e in OnSide(edges, colour, true) <==> colour[e])
  {
    var left, right := OnSide(edges, colour, false), OnSide(edges, colour, true);
    OnSideAscending(edges, colour, false);
    OnSideAscending(edges, colour, true);
    EdgeOrder();
    AscendingDistinct(left, EdgeLess);
    AscendingDistinct(right, EdgeLess);
    forall e ensures e in Elements(left) + Elements(right) <==> e in Elements(edges) {
    }
    forall i | 0 <= i < |spines| && spines[i].Some?
      ensures spines[i].value.e in Elements(edges) && spines[i].value.f in Elements(edges) && Some(spines[i].value) in spines
    {
      assert spines[i] in spines;
    }
  }

  lemma ProperSeparates(c: Colouring, spines: seq<Option<Spine>>)
    requires Proper(c, SpineEdges(spines), SpineArcs(SpineList(spines)))
    ensures Separates(c, spines)
  {
    forall s | Some(s) in spines ensures s.e in c && s.f in c && c[s.e] != c[s.f] {
      assert s in SpineList(spines);
      assert (s.e, s.f) in SpineArcs(SpineList(spines));
    }
  }

  function Orientations(edges: seq<Edge>, coords: seq<Coord>): (c: Colouring)
    requires forall e :: e in edges ==> e.u < |coords|
    ensures forall e :: e in c <==> e in edges
    ensures forall e :: e in c ==> c[e] == (coords[e.u].u != 0)
  {
    map e | e in edges :: coords[e.u].u != 0
  }

  /** Splitting by orientation is possible exactly when the orientations separate every spine. */
  lemma OrientationsDecide(m: nat, coords: seq<Coord>, spines: seq<Option<Spine>>, pairs: seq<Spine>, colour: Colouring)
    requires m != 0 && pairs == SpineList(spines) && Within(SpineArcs(pairs), SpineEdges(spines))
    requires colour.Keys == SpineEdges(spines)
    requires forall e :: e in colour ==> e.u < |coords| && colour[e] == (coords[e.u].u != 0)
    ensures forall s :: s in pairs ==> s.e in colour && s.f in colour
    ensures Separates(colour, spines) <==> forall s :: s in pairs ==> colour[s.e] != colour[s.f]
    ensures Separates(colour, spines) <==> Splittable(m, coords, spines)
  {
    forall s | s in pairs ensures s.e in SpineEdges(spines) && s.f in SpineEdges(spines) {
      assert (s.e, s.f) in SpineArcs(pairs);
    }
    assert forall s {:trigger Some(s) in spines} :: Some(s) in spines <==> s in pairs;
  }

  method Separated(pairs: seq<Spine>, colour: Colouring) returns (ok: bool)
    requires forall s :: s in pairs ==> s.e in colour && s.f in colour
    ensures ok <==> forall s :: s in pairs ==> colour[s.e] != colour[s.f]
  {
    for i := 0 to |pairs|
      invariant forall k :: 0 <= k < i ==> colour[pairs[k].e] != colour[pairs[k].f]
    {
      if colour[pairs[i].e] == colour[pairs[i].f] {
        return false;
      }
    }
    return true;
  }

  method Sides(m: nat, coords: seq<Coord>, spines: seq<Option<Spine>>) returns (r: Result<(seq<Edge>, seq<Edge>), StructureError>)
    requires m != 0 ==> forall e :: e in SpineEdges(spines) ==> e.u < |coords|
    ensures r.Ok? ==> PinnedSides(m, coords, spines, r.value.0, r.value.1)
    ensures r.Ok? <==> Splittable(m, coords, spines)
    ensures r.Err? ==> r.error == NotBipartite
  {
    var pairs := SpineList(spines);
    var edges := SortDistinct(BothEdges(pairs), EdgeLess);
    SpineEdgesListed(spines);
    EdgeOrder();
    SortAscending(BothEdges(pairs), EdgeLess);
    assert Elements(edges) == Elements(BothEdges(pairs));
    if m != 0 {
      r := ZephyrSides(m, coords, spines, pairs, edges);
    } else {
      r := AdjacencySides(coords, spines, pairs, edges);
    }
  }

  method ZephyrSides(m: nat, coords: seq<Coord>, spines: seq<Option<Spine>>, pairs: seq<Spine>, edges: seq<Edge>)
    returns (r: Result<(seq<Edge>, seq<Edge>), StructureError>)
    requires m != 0 && pairs == SpineList(spines)
    requires Ascending(edges, EdgeLess) && Elements(edges) == SpineEdges(spines)
    requires Within(SpineArcs(pairs), SpineEdges(spines))
    requires forall e :: e in SpineEdges(spines) ==> e.u < |coords|
    ensures r.Ok? ==> PinnedSides(m, coords, spines, r.value.0, r.value.1)
    ensures r.Ok? <==> Splittable(m, coords, spines)
    ensures r.Err? ==> r.error == NotBipartite
  {
    assert forall e :: e in edges <==> e in Elements(edges);
    var colour := Orientations(edges, coords);
    OrientationsDecide(m, coords, spines, pairs, colour);
    var split := Separated(pairs, colour);
    if !split {
      return Err(NotBipartite);
    }
    SplitIsTwoSided(spines, edges, colour);
    return Ok((OnSide(edges, colour, false), OnSide(edges, colour, true)));
  }

  method AdjacencySides(coords: seq<Coord>, spines: seq<Option<Spine>>, pairs: seq<Spine>, edges: seq<Edge>)
    returns (r: Result<(seq<Edge>, seq<Edge>), StructureError>)
    requires pairs == SpineList(spines)
    requires Ascending(edges, EdgeLess) && Elements(edges) == SpineEdges(spines)
    requires Within(SpineArcs(pairs), SpineEdges(spines))
    ensures r.Ok? ==> PinnedSides(0, coords, spines, r.value.0, r.value.1)
    ensures r.Ok? <==> Splittable(0, coords, spines)
    ensures r.Err? ==> r.error == NotBipartite
  {
    var c := TwoColour(edges, pairs);
    if c.Err? {
      return Err(c.error);
    }
    var colour := c.value;
    ProperSeparates(colour, spines);
    SplitIsTwoSided(spines, edges, colour);
    r := Ok((OnSide(edges, colour, false), OnSide(edges, colour, true)));
    assert CanonicalSides(colour, spines, r.value.1);
  }
}

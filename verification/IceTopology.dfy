/** `candidates`: from a registered topology to tiles and spines, or the first structure error. */
module IceTopology {
  import opened Common
  import opened IceCandidates
  import opened IceSelect
  import opened IceSides
  import opened IceSlots
  import opened IceSpines
  import opened IceStructure
  import opened IceTiles
  import opened IceTypes
  import opened IceZephyrTiles
  import opened Sorting
  import opened Zephyr

  /** What the caller registers: nodes, possibly repeated, and edges between them. */
  ghost predicate Registered(nodes: seq<nat>, edges: seq<NativeEdge>) {
    forall e :: e in edges ==> e.0 in nodes && e.1 in nodes
  }

  /** Edges as positions into the node list, in registration order. */
  function Dense(nodes: seq<nat>, edges: seq<NativeEdge>): (dense: seq<NativeEdge>)
    requires Registered(nodes, edges)
    ensures |dense| == |edges| && InRange(dense, |nodes|)
    ensures forall i :: 0 <= i < |edges| ==> (nodes[dense[i].0], nodes[dense[i].1]) == edges[i]
    ensures forall i :: 0 <= i < |edges| ==> AtItsPosition(nodes, dense[i].0) && AtItsPosition(nodes, dense[i].1)
  {
    var position := PositionOf(nodes);
    seq(|edges|, i requires 0 <= i < |edges| =>
      assert edges[i] in edges; (position[edges[i].0], position[edges[i].1]))
  }

  ghost predicate InRange(dense: seq<NativeEdge>, n: nat) {
    forall i :: 0 <= i < |dense| ==> dense[i].0 < n && dense[i].1 < n
  }

  /** The undirected edges of a topology. */
  ghost function EdgeSet(dense: seq<NativeEdge>): set<Edge> {
    set p | p in dense :: Norm(p.0, p.1)
  }

  /** How many edge ends meet `v`; a loop counts twice. */
  ghost function DegreeOf(dense: seq<NativeEdge>, v: nat): nat {
    if dense == [] then 0
    else
      var p := dense[|dense| - 1];
      DegreeOf(dense[..|dense| - 1], v) + (if p.0 == v then 1 else 0) + (if p.1 == v then 1 else 0)
  }

  method MaxDegree(n: nat, dense: seq<NativeEdge>) returns (top: nat)
    requires InRange(dense, n)
    ensures forall v :: 0 <= v < n ==> DegreeOf(dense, v) <= top
    ensures top == 0 || exists v :: 0 <= v < n && DegreeOf(dense, v) == top
  {
    var degree: seq<nat> := seq(n, _ => 0);
    for k := 0 to |dense|
      invariant |degree| == n && forall v :: 0 <= v < n ==> degree[v] == DegreeOf(dense[..k], v)
    {
      assert dense[..k + 1][..k] == dense[..k];
      degree := Bump(Bump(degree, dense[k].0), dense[k].1);
    }
    assert dense[..|dense|] == dense;
    top := 0;
    for v := 0 to n
      invariant forall w :: 0 <= w < v ==> degree[w] <= top
      invariant top == 0 || exists w :: 0 <= w < v && degree[w] == top
    {
      if degree[v] > top {
        top := degree[v];
      }
    }
  }

  ghost predicate RepeatsOrLoops(dense: seq<NativeEdge>, i: nat)
    requires i < |dense|
  {
    dense[i].0 == dense[i].1 || exists k :: 0 <= k < i && Norm(dense[k].0, dense[k].1) == Norm(dense[i].0, dense[i].1)
  }

  /** The undirected edges in the order found, unless one is a loop or comes twice. */
  method CollectEdges(n: nat, dense: seq<NativeEdge>) returns (r: Option<seq<Edge>>)
    requires InRange(dense, n)
    ensures r.Some? ==> Elements(r.value) == EdgeSet(dense) && Distinct(r.value) && |r.value| == |dense|
    ensures r.Some? ==> DenseEdges(EdgeSet(dense), n)
    ensures r.None? <==> exists i :: 0 <= i < |dense| && RepeatsOrLoops(dense, i)
  {
    var list: seq<Edge> := [];
    for i := 0 to |dense|
      invariant |list| == i && Distinct(list)
      invariant forall k :: 0 <= k < i ==> list[k] == Norm(dense[k].0, dense[k].1) && list[k].u < list[k].v < n
    {
      var e := Norm(dense[i].0, dense[i].1);
      if dense[i].0 == dense[i].1 || e in list {
        assert RepeatsOrLoops(dense, i);
        return None;
      }
      list := list + [e];
    }
    forall e ensures e in list <==> e in EdgeSet(dense) {
      if e in EdgeSet(dense) {
        var k :| 0 <= k < |dense| && e == Norm(dense[k].0, dense[k].1);
        assert list[k] == e;
      }
      if e in list {
        var k :| 0 <= k < |list| && list[k] == e;
        assert dense[k] in dense;
      }
    }
    return Some(list);
  }

  // ---- Zephyr checks ----

  /** Node `i` is the first without coordinates in the lattice. */
  ghost predicate FirstOutside(m: nat, t: nat, nodes: seq<nat>, i: nat) {
    i < |nodes| && Coordinates(m, t, nodes[i]).None? && forall k :: 0 <= k < i ==> Coordinates(m, t, nodes[k]).Some?
  }

  method NodeCoordinates(m: nat, t: nat, nodes: seq<nat>) returns (r: Result<seq<Coord>, StructureError>)
    ensures r.Ok? ==> CoordinatesOf(m, t, nodes, r.value)
    ensures r.Err? ==> exists i: nat :: FirstOutside(m, t, nodes, i) && r.error == NotZephyrNode(nodes[i])
  {
    var coords: seq<Coord> := [];
    for i := 0 to |nodes|
      invariant |coords| == i && forall k :: 0 <= k < i ==> Coordinates(m, t, nodes[k]) == Some(coords[k])
    {
      var c := Coordinates(m, t, nodes[i]);
      if c.None? {
        assert FirstOutside(m, t, nodes, i);
        return Err(NotZephyrNode(nodes[i]));
      }
      coords := coords + [c.value];
    }
    return Ok(coords);
  }

  predicate IsCoupler(m: nat, t: nat, p: NativeEdge) {
    LatticeCoupler(m, t, Norm(p.0, p.1).u, Norm(p.0, p.1).v)
  }

  /** Edge `i` is the first that is no coupler. */
  ghost predicate FirstStranger(m: nat, t: nat, edges: seq<NativeEdge>, i: nat) {
    i < |edges| && !IsCoupler(m, t, edges[i]) && forall k :: 0 <= k < i ==> IsCoupler(m, t, edges[k])
  }

  method CheckCouplers(m: nat, t: nat, edges: seq<NativeEdge>) returns (r: Option<StructureError>)
    ensures r.None? ==> forall i :: 0 <= i < |edges| ==> IsCoupler(m, t, edges[i])
    ensures r.Some? ==> exists i: nat :: FirstStranger(m, t, edges, i) && r.value == NotZephyrCoupler(Norm(edges[i].0, edges[i].1))
  {
    for i := 0 to |edges|
      invariant forall k :: 0 <= k < i ==> IsCoupler(m, t, edges[k])
    {
      if !IsCoupler(m, t, edges[i]) {
        assert FirstStranger(m, t, edges, i);
        return Some(NotZephyrCoupler(Norm(edges[i].0, edges[i].1)));
      }
    }
    return None;
  }

  /** An edge is a coupler, in either direction, exactly when the coordinates of its ends are linked. */
  lemma CouplersAreLinks(m: nat, t: nat, p: NativeEdge)
    ensures IsCoupler(m, t, p) <==>
            && Coordinates(m, t, p.0).Some? && Coordinates(m, t, p.1).Some?
            && Linked(Coordinates(m, t, p.0).value, Coordinates(m, t, p.1).value)
  {
  }

  lemma CouplerIsLinked(m: nat, t: nat, p: NativeEdge, c: Coord, d: Coord)
    requires IsCoupler(m, t, p) && Coordinates(m, t, p.0) == Some(c) && Coordinates(m, t, p.1) == Some(d)
    ensures Linked(c, d)
  {
  }

  ghost predicate CoordinatesOf(m: nat, t: nat, nodes: seq<nat>, coords: seq<Coord>) {
    |coords| == |nodes| && forall i :: 0 <= i < |nodes| ==> Coordinates(m, t, nodes[i]) == Some(coords[i])
  }

  /** The coordinates of every node in Zephyr mode, nothing in adjacency mode. */
  function NodeCoords(m: nat, t: nat, nodes: seq<nat>): seq<Coord>
    requires m != 0 ==> forall i :: 0 <= i < |nodes| ==> Coordinates(m, t, nodes[i]).Some?
  {
    if m != 0 then seq(|nodes|, i requires 0 <= i < |nodes| => Coordinates(m, t, nodes[i]).value) else []
  }

  /** Equal coordinates belong to equal nodes. */
  lemma CoordinatesTellNodes(m: nat, t: nat, nodes: seq<nat>, coords: seq<Coord>)
    requires CoordinatesOf(m, t, nodes, coords)
    ensures forall i, j :: 0 <= i < |coords| && 0 <= j < |coords| && coords[i] == coords[j] ==> nodes[i] == nodes[j]
    ensures forall i :: 0 <= i < |coords| ==> coords[i].u < 2 && coords[i].j < 2
  {
    forall i | 0 <= i < |coords| ensures InLattice(m, t, coords[i]) && LinearId(m, t, coords[i]) == nodes[i] {
      LinearIdOfCoordinates(m, t, nodes[i]);
    }
  }

  ghost predicate AtItsPosition(nodes: seq<nat>, a: nat) {
    a < |nodes| && nodes[a] in PositionOf(nodes) && PositionOf(nodes)[nodes[a]] == a
  }

  /** An edge meets a node at its last position only. */
  lemma EndIsPosition(nodes: seq<nat>, edges: seq<NativeEdge>, a: nat)
    requires Registered(nodes, edges) && Touched(EdgeSet(Dense(nodes, edges)), a)
    ensures AtItsPosition(nodes, a)
  {
    var dense := Dense(nodes, edges);
    var e :| e in EdgeSet(dense) && Ends(e, a);
    var p :| p in dense && Norm(p.0, p.1) == e;
    var i :| 0 <= i < |dense| && dense[i] == p;
    assert AtItsPosition(nodes, p.0) && AtItsPosition(nodes, p.1);
  }

  lemma EndsHaveOwnCoordinates(m: nat, t: nat, nodes: seq<nat>, edges: seq<NativeEdge>, coords: seq<Coord>)
    requires Registered(nodes, edges) && CoordinatesOf(m, t, nodes, coords)
    ensures OwnCoordinates(coords, EdgeSet(Dense(nodes, edges)))
  {
    CoordinatesTellNodes(m, t, nodes, coords);
    var es := EdgeSet(Dense(nodes, edges));
    forall a, b | 0 <= a < |coords| && 0 <= b < |coords| && Touched(es, a) && Touched(es, b) && coords[a] == coords[b]
      ensures a == b
    {
      EndIsPosition(nodes, edges, a);
      EndIsPosition(nodes, edges, b);
    }
  }

  /** Nodes and couplers that pass the checks form a lattice graph. */
  lemma ChecksGiveLattice(m: nat, t: nat, nodes: seq<nat>, edges: seq<NativeEdge>, dense: seq<NativeEdge>, coords: seq<Coord>)
    requires Registered(nodes, edges) && dense == Dense(nodes, edges) && DenseEdges(EdgeSet(dense), |nodes|)
    requires CoordinatesOf(m, t, nodes, coords) && forall i :: 0 <= i < |edges| ==> IsCoupler(m, t, edges[i])
    ensures LatticeGraph(coords, EdgeSet(dense))
  {
    CoordinatesTellNodes(m, t, nodes, coords);
    EndsHaveOwnCoordinates(m, t, nodes, edges, coords);
    forall i | 0 <= i < |dense| ensures Linked(coords[dense[i].0], coords[dense[i].1]) {
      CouplerIsLinked(m, t, edges[i], coords[dense[i].0], coords[dense[i].1]);
    }
  }

  // ---- tiles and spines of both modes ----

  ghost predicate Bounded(es: set<Edge>, n: nat, tiles: seq<Tile>, spines: seq<Option<Spine>>) {
    && TilesWithSpines(tiles, spines)
    && EdgeRule(tiles, spines)
    && (forall t :: t in tiles ==> IsClique(es, t) && t.d < n)
    && forall e :: e in SpineEdges(spines) ==> e in es && e.u < e.v < n
  }

  lemma SpineEdgesInGraph(es: set<Edge>, n: nat, tiles: seq<Tile>, spines: seq<Option<Spine>>)
    requires DenseEdges(es, n) && TilesWithSpines(tiles, spines) && forall t :: t in tiles ==> IsClique(es, t)
    ensures forall t :: t in tiles ==> t.d < n
    ensures forall e :: e in SpineEdges(spines) ==> e in es && e.u < e.v < n
  {
    forall t | t in tiles ensures t.d < n {
      assert TileEdges(t)[5] in TileEdges(t);
    }
    forall e | e in SpineEdges(spines) ensures e in es {
      var i :| 0 <= i < |spines| && spines[i].Some? && OnSpine(e, spines[i].value);
      assert tiles[i] in tiles;
      SpineInTile(tiles[i], spines[i].value, e);
    }
  }

  lemma SpineInTile(t: Tile, s: Spine, e: Edge)
    requires s in Matchings(t) && OnSpine(e, s)
    ensures e in TileEdges(t)
  {
    var row := TileEdges(t);
    assert e == row[0] || e == row[1] || e == row[2] || e == row[3] || e == row[4] || e == row[5];
  }

  method AdjacencyStructure(n: nat, list: seq<Edge>, neighbours: seq<set<nat>>)
    returns (r: Result<(seq<Tile>, seq<Option<Spine>>), StructureError>)
    requires |neighbours| == n && NeighbourSets(neighbours, Elements(list)) && Distinct(list)
    ensures r.Ok? ==> Bounded(Elements(list), n, r.value.0, r.value.1)
    ensures r.Ok? ==> ListsCliques(Elements(list), r.value.0) && SpinesByRule(r.value.0, r.value.1)
    ensures r.Ok? <==> !GraphConflicts(Elements(list))
    ensures r.Err? ==> r.error == SpineConflict
  {
    ghost var es := Elements(list);
    DistinctCard(list);
    var found := AdjacencyTiles(neighbours, es, |list|);
    if found.Err? {
      EarlyStopIsSound(es);
      return Err(found.error);
    }
    var tiles := found.value;
    TileOrder();
    AscendingDistinct(tiles, TileLess);
    var spines := AdjacencySpines(tiles);
    if spines.Err? {
      ghost var t :| Conflicted(tiles, t);
      ConflictInGraph(es, tiles, t);
      return Err(spines.error);
    }
    AdjacencyEdgeRule(tiles, spines.value);
    NoConflictInGraph(es, tiles, spines.value);
    SpinesFit(tiles, spines.value);
    SpineEdgesInGraph(es, n, tiles, spines.value);
    return Ok((tiles, spines.value));
  }

  lemma SpinesFit(tiles: seq<Tile>, spines: seq<Option<Spine>>)
    requires |tiles| == |spines| && Ascending(tiles, TileLess) && forall t :: t in tiles ==> OrderedTile(t)
    requires forall i :: 0 <= i < |tiles| ==> SpineRule(tiles, tiles[i], spines[i])
    ensures TilesWithSpines(tiles, spines)
  {
    forall i | 0 <= i < |spines| && spines[i].Some? ensures spines[i].value in Matchings(tiles[i]) {
      assert SpineRule(tiles, tiles[i], spines[i]);
    }
  }

  /** The keys of the dictionary, ascending, with their spines. */
  method ListFound(found: map<Tile, Spine>) returns (tiles: seq<Tile>, spines: seq<Option<Spine>>)
    ensures Ascending(tiles, TileLess) && Elements(tiles) == found.Keys && |spines| == |tiles|
    ensures forall i :: 0 <= i < |tiles| ==> tiles[i] in found && spines[i] == Some(found[tiles[i]])
  {
    var keys: seq<Tile> := [];
    var todo := found.Keys;
    while todo != {}
      invariant todo + Elements(keys) == found.Keys
    {
      var t :| t in todo;
      assert Elements(keys + [t]) == Elements(keys) + {t};
      keys, todo := keys + [t], todo - {t};
    }
    TileOrder();
    SortAscending(keys, TileLess);
    tiles := SortDistinct(keys, TileLess);
    assert Elements(tiles) == Elements(keys);
    assert forall t :: t in tiles ==> t in Elements(tiles);
    spines := seq(|tiles|, i requires 0 <= i < |tiles| => assert tiles[i] in tiles; Some(found[tiles[i]]));
  }

  /** Every crossing pair of odd couplers gives a listed tile, and nothing else does. */
  ghost predicate ListsPairs(coords: seq<Coord>, es: set<Edge>, tiles: seq<Tile>, spines: seq<Option<Spine>>) {
    && ZephyrSpines(coords, es, tiles, spines)
    && forall e, f :: ZephyrPair(coords, es, e, f) ==> SortFour(e, f) in tiles
  }

  method ZephyrStructure(coords: seq<Coord>, list: seq<Edge>, neighbours: seq<set<nat>>)
    returns (tiles: seq<Tile>, spines: seq<Option<Spine>>)
    requires |neighbours| == |coords| && NeighbourSets(neighbours, Elements(list)) && LatticeGraph(coords, Elements(list))
    ensures Bounded(Elements(list), |coords|, tiles, spines) && ListsPairs(coords, Elements(list), tiles, spines)
  {
    var es := set e | e in list;
    assert es == Elements(list);
    var ordered := SortDistinct(list, EdgeLess);
    SortElements(list, EdgeLess);
    assert Elements(ordered) == es;
    var found := ZephyrTiles(coords, ordered, es, neighbours);
    tiles, spines := ListFound(found);
    FoundIsStructure(coords, es, ordered, found, tiles, spines);
  }

  lemma FoundIsStructure(coords: seq<Coord>, es: set<Edge>, ordered: seq<Edge>, found: map<Tile, Spine>,
                         tiles: seq<Tile>, spines: seq<Option<Spine>>)
    requires LatticeGraph(coords, es) && Elements(ordered) == es && FoundFrom(coords, es, ordered, found)
    requires Ascending(tiles, TileLess) && Elements(tiles) == found.Keys && |spines| == |tiles|
    requires forall i :: 0 <= i < |tiles| ==> tiles[i] in found && spines[i] == Some(found[tiles[i]])
    ensures Bounded(es, |coords|, tiles, spines) && ListsPairs(coords, es, tiles, spines)
  {
    TileOrder();
    AscendingDistinct(tiles, TileLess);
    FoundHasSpines(coords, es, found, tiles, spines);
    ZephyrTilesFit(coords, es, tiles, spines);
    ZephyrEdgeRule(coords, es, tiles, spines);
    SpineEdgesInGraph(es, |coords|, tiles, spines);
    forall e, f | ZephyrPair(coords, es, e, f) ensures SortFour(e, f) in tiles {
      assert e in Elements(ordered);
      assert SortFour(e, f) in Elements(tiles);
    }
  }

  lemma ZephyrTilesFit(coords: seq<Coord>, es: set<Edge>, tiles: seq<Tile>, spines: seq<Option<Spine>>)
    requires DenseEdges(es, |coords|) && ZephyrSpines(coords, es, tiles, spines) && Ascending(tiles, TileLess)
    ensures TilesWithSpines(tiles, spines) && forall t :: t in tiles ==> IsClique(es, t)
  {
    forall i | 0 <= i < |tiles| ensures IsClique(es, tiles[i]) && spines[i].Some? && spines[i].value in Matchings(tiles[i]) {
      var e, f := PairOfSpine(coords, es, tiles, spines, i);
      PairFormsTile(coords, es, e, f);
    }
  }

  lemma FoundHasSpines(coords: seq<Coord>, es: set<Edge>, found: map<Tile, Spine>, tiles: seq<Tile>, spines: seq<Option<Spine>>)
    requires Sound(coords, es, found) && |spines| == |tiles|
    requires forall i :: 0 <= i < |tiles| ==> tiles[i] in found && spines[i] == Some(found[tiles[i]])
    ensures ZephyrSpines(coords, es, tiles, spines)
  {
    forall i | 0 <= i < |tiles|
      ensures spines[i].Some? && exists e, f :: TilePair(coords, es, tiles[i], spines[i].value, e, f)
    {
      assert tiles[i] in found;
      assert exists e, f :: TilePair(coords, es, tiles[i], found[tiles[i]], e, f);
      var e, f :| TilePair(coords, es, tiles[i], found[tiles[i]], e, f);
      assert TilePair(coords, es, tiles[i], spines[i].value, e, f);
    }
  }

  // ---- candidates ----

  /** Node `v` is the first with more than two slots. */
  ghost predicate FirstCrowded(tiles: seq<Tile>, spines: seq<Option<Spine>>, v: nat)
    requires |tiles| == |spines|
  {
    Slots(tiles, spines, v) > 2 && forall w :: 0 <= w < v ==> Slots(tiles, spines, w) <= 2
  }

  method FirstAboveTwo(slots: seq<nat>) returns (v: nat)
    ensures v <= |slots| && (forall w :: 0 <= w < v ==> slots[w] <= 2) && (v < |slots| ==> slots[v] > 2)
  {
    v := 0;
    while v < |slots| && slots[v] <= 2
      invariant v <= |slots| && forall w :: 0 <= w < v ==> slots[w] <= 2
    {
      v := v + 1;
    }
  }

  method CheckSlots(nodes: seq<nat>, tiles: seq<Tile>, spines: seq<Option<Spine>>) returns (r: Option<StructureError>)
    requires |tiles| == |spines|
    requires forall t :: t in tiles ==> OrderedTile(t) && t.d < |nodes|
    requires forall e :: e in SpineEdges(spines) ==> e.u < e.v < |nodes|
    ensures r.None? ==> forall v :: 0 <= v < |nodes| ==> Slots(tiles, spines, v) <= 2
    ensures r.Some? ==> exists v :: 0 <= v < |nodes| && FirstCrowded(tiles, spines, v) && r.value == MembershipAboveTwo(nodes[v])
  {
    var slots := SlotCounts(|nodes|, tiles, spines);
    var v := FirstAboveTwo(slots);
    if v < |nodes| {
      assert FirstCrowded(tiles, spines, v);
      return Some(MembershipAboveTwo(nodes[v]));
    }
    return None;
  }

  // ---- the structure of a graph ----

  /** The tiles and spines that a sound graph determines: crossing pairs in Zephyr mode, else all 4-cliques with the spine rule. */
  ghost predicate Described(m: nat, n: nat, es: set<Edge>, coords: seq<Coord>, tiles: seq<Tile>, spines: seq<Option<Spine>>) {
    && DenseEdges(es, n) && Bounded(es, n, tiles, spines)
    && (m != 0 ==> |coords| == n && LatticeGraph(coords, es) && ListsPairs(coords, es, tiles, spines))
    && (m == 0 ==> coords == [] && ListsCliques(es, tiles) && SpinesByRule(tiles, spines) && !GraphConflicts(es))
  }

  /** A described structure that passes the late checks. */
  ghost predicate Carries(m: nat, n: nat, es: set<Edge>, coords: seq<Coord>, tiles: seq<Tile>, spines: seq<Option<Spine>>) {
    && Described(m, n, es, coords, tiles, spines)
    && tiles != []
    && (forall v :: 0 <= v < n ==> Slots(tiles, spines, v) <= 2)
    && Splittable(m, coords, spines)
  }

  lemma PairsListed(coords: seq<Coord>, es: set<Edge>, tiles: seq<Tile>, spines: seq<Option<Spine>>, t: Tile)
    requires ListsPairs(coords, es, tiles, spines)
    ensures t in tiles <==> exists e, f :: ZephyrPair(coords, es, e, f) && SortFour(e, f) == t
  {
    if t in tiles {
      var i :| 0 <= i < |tiles| && tiles[i] == t;
      var e, f := PairOfSpine(coords, es, tiles, spines, i);
      assert ZephyrPair(coords, es, e, f) && SortFour(e, f) == t;
    }
  }

  lemma SameTiles(m: nat, n: nat, es: set<Edge>, coords: seq<Coord>,
                  tiles: seq<Tile>, spines: seq<Option<Spine>>, others: seq<Tile>, rivals: seq<Option<Spine>>)
    requires Described(m, n, es, coords, tiles, spines) && Described(m, n, es, coords, others, rivals)
    ensures tiles == others
  {
    forall t ensures t in tiles <==> t in others {
      if m != 0 {
        PairsListed(coords, es, tiles, spines, t);
        PairsListed(coords, es, others, rivals, t);
      }
    }
    TileOrder();
    AscendingUnique(tiles, others, TileLess);
  }

  /** A graph determines its tiles and spines. */
  lemma DescribedOnce(m: nat, n: nat, es: set<Edge>, coords: seq<Coord>,
                      tiles: seq<Tile>, spines: seq<Option<Spine>>, others: seq<Tile>, rivals: seq<Option<Spine>>)
    requires Described(m, n, es, coords, tiles, spines) && Described(m, n, es, coords, others, rivals)
    ensures tiles == others && spines == rivals
  {
    SameTiles(m, n, es, coords, tiles, spines, others, rivals);
    forall i | 0 <= i < |tiles| ensures spines[i] == rivals[i] {
      if m != 0 {
        var e, f := PairOfSpine(coords, es, tiles, spines, i);
        var e', f' := PairOfSpine(coords, es, others, rivals, i);
        PairUnique(coords, es, e, f, e', f');
      } else {
        assert tiles[i] in tiles;
        SpineRuleUnique(tiles, tiles[i], spines[i], rivals[i]);
      }
    }
  }

  /** On a lattice graph no node has more than two slots and the spines split by orientation. */
  lemma ZephyrPassesLate(m: nat, n: nat, es: set<Edge>, coords: seq<Coord>, tiles: seq<Tile>, spines: seq<Option<Spine>>)
    requires m != 0 && Described(m, n, es, coords, tiles, spines)
    ensures (forall v :: 0 <= v < n ==> Slots(tiles, spines, v) <= 2) && Splittable(m, coords, spines)
  {
    forall v ensures Slots(tiles, spines, v) <= 2 {
      ZephyrSlots(coords, es, tiles, spines, v);
    }
    ZephyrSplits(m, coords, es, tiles, spines);
  }

  // ---- the verdict ----

  type Structure = (seq<Tile>, seq<Option<Spine>>)

  /** The late checks: some tile, at most two slots at every node, two sides. */
  ghost predicate LateVerdict(m: nat, nodes: seq<nat>, coords: seq<Coord>, tiles: seq<Tile>, spines: seq<Option<Spine>>,
                              r: Option<StructureError>)
    requires |tiles| == |spines|
  {
    if tiles == [] then r == Some(NoCandidates)
    else if exists v :: 0 <= v < |nodes| && Slots(tiles, spines, v) > 2 then
      exists v :: 0 <= v < |nodes| && FirstCrowded(tiles, spines, v) && r == Some(MembershipAboveTwo(nodes[v]))
    else if !Splittable(m, coords, spines) then r == Some(NotBipartite)
    else r.None?
  }

  datatype Fault = Shape | Degree | Duplicate | Node | Coupler | Conflict

  /** The first of the checks common to both modes that fails. */
  ghost function BasicFault(m: nat, t: nat, nodes: seq<nat>, edges: seq<NativeEdge>): Option<Fault>
    requires Registered(nodes, edges)
  {
    var dense := Dense(nodes, edges);
    if (m == 0) != (t == 0) then Some(Shape)
    else if exists v :: 0 <= v < |nodes| && DegreeOf(dense, v) > MAX_DEGREE then Some(Degree)
    else if exists i :: 0 <= i < |dense| && RepeatsOrLoops(dense, i) then Some(Duplicate)
    else None
  }

  /** The first check of the mode that fails. */
  ghost function ModeFault(m: nat, t: nat, nodes: seq<nat>, edges: seq<NativeEdge>): Option<Fault>
    requires Registered(nodes, edges)
  {
    if m != 0 then
      if exists i :: 0 <= i < |nodes| && Coordinates(m, t, nodes[i]).None? then Some(Node)
      else if exists i :: 0 <= i < |edges| && !IsCoupler(m, t, edges[i]) then Some(Coupler)
      else None
    else if GraphConflicts(EdgeSet(Dense(nodes, edges))) then Some(Conflict)
    else None
  }

  /** The first check that the topology itself fails. */
  ghost function EarlyFault(m: nat, t: nat, nodes: seq<nat>, edges: seq<NativeEdge>): Option<Fault>
    requires Registered(nodes, edges)
  {
    if BasicFault(m, t, nodes, edges).Some? then BasicFault(m, t, nodes, edges) else ModeFault(m, t, nodes, edges)
  }

  ghost predicate EarlyVerdict(m: nat, t: nat, nodes: seq<nat>, edges: seq<NativeEdge>, fault: Fault, error: StructureError) {
    match fault
    case Shape => error == MixedShape
    case Degree => error == DegreeAboveLimit
    case Duplicate => error == DuplicateEdge
    case Node => exists i: nat :: FirstOutside(m, t, nodes, i) && error == NotZephyrNode(nodes[i])
    case Coupler => exists i: nat :: FirstStranger(m, t, edges, i) && error == NotZephyrCoupler(Norm(edges[i].0, edges[i].1))
    case Conflict => error == SpineConflict
  }

  /** The answer on a graph without an early fault: the structure it determines, unless a late check fails. */
  ghost predicate Judged(m: nat, t: nat, nodes: seq<nat>, edges: seq<NativeEdge>, r: Result<Structure, StructureError>,
                         coords: seq<Coord>, tiles: seq<Tile>, spines: seq<Option<Spine>>)
    requires Registered(nodes, edges)
  {
    && Described(m, |nodes|, EdgeSet(Dense(nodes, edges)), coords, tiles, spines)
    && (m != 0 ==> CoordinatesOf(m, t, nodes, coords))
    && (r.Ok? ==> r.value == (tiles, spines))
    && LateVerdict(m, nodes, coords, tiles, spines, if r.Err? then Some(r.error) else None)
  }

  /** The answer for a given first fault: its error, or the judgement on the structure of the graph. */
  ghost predicate Answers(m: nat, t: nat, nodes: seq<nat>, edges: seq<NativeEdge>, fault: Option<Fault>,
                          r: Result<Structure, StructureError>)
    requires Registered(nodes, edges)
  {
    match fault
    case Some(f) => r.Err? && EarlyVerdict(m, t, nodes, edges, f, r.error)
    case None => exists coords, tiles, spines :: Judged(m, t, nodes, edges, r, coords, tiles, spines)
  }

  /** What `Candidates` answers, exactly. */
  ghost predicate IsVerdict(m: nat, t: nat, nodes: seq<nat>, edges: seq<NativeEdge>, r: Result<Structure, StructureError>)
    requires Registered(nodes, edges)
  {
    Answers(m, t, nodes, edges, EarlyFault(m, t, nodes, edges), r)
  }

  /** Acceptance means the structure carries tiles. */
  lemma AcceptedCarries(m: nat, t: nat, nodes: seq<nat>, edges: seq<NativeEdge>, r: Result<Structure, StructureError>)
    returns (coords: seq<Coord>)
    requires Registered(nodes, edges) && IsVerdict(m, t, nodes, edges, r)
    ensures r.Ok? ==> Carries(m, |nodes|, EdgeSet(Dense(nodes, edges)), coords, r.value.0, r.value.1)
    ensures r.Ok? ==> if m != 0 then CoordinatesOf(m, t, nodes, coords) else coords == []
    ensures r == Err(NotBipartite) || (r.Err? && r.error.MembershipAboveTwo?) ==> m == 0
  {
    coords := [];
    if EarlyFault(m, t, nodes, edges).None? {
      var at, tiles, spines :| Judged(m, t, nodes, edges, r, at, tiles, spines);
      coords := at;
      if m != 0 {
        ZephyrPassesLate(m, |nodes|, EdgeSet(Dense(nodes, edges)), coords, tiles, spines);
      }
    }
  }

  /** A first position is the only one. */
  lemma FirstUnique(m: nat, t: nat, nodes: seq<nat>, edges: seq<NativeEdge>, fault: Fault, e: StructureError, e': StructureError)
    requires EarlyVerdict(m, t, nodes, edges, fault, e) && EarlyVerdict(m, t, nodes, edges, fault, e')
    ensures e == e'
  {
  }

  /** The late checks answer one way. */
  lemma LateUnique(m: nat, nodes: seq<nat>, coords: seq<Coord>, tiles: seq<Tile>, spines: seq<Option<Spine>>,
                   r: Option<StructureError>, q: Option<StructureError>)
    requires |tiles| == |spines|
    requires LateVerdict(m, nodes, coords, tiles, spines, r) && LateVerdict(m, nodes, coords, tiles, spines, q)
    ensures r == q
  {
    if tiles != [] && exists v :: 0 <= v < |nodes| && Slots(tiles, spines, v) > 2 {
      var v :| 0 <= v < |nodes| && FirstCrowded(tiles, spines, v) && r == Some(MembershipAboveTwo(nodes[v]));
      var w :| 0 <= w < |nodes| && FirstCrowded(tiles, spines, w) && q == Some(MembershipAboveTwo(nodes[w]));
      assert v == w;
    }
  }

  /** Every topology has one verdict: the same tiles and spines, or the same error with the same detail. */
  lemma VerdictUnique(m: nat, t: nat, nodes: seq<nat>, edges: seq<NativeEdge>,
                      r: Result<Structure, StructureError>, q: Result<Structure, StructureError>)
    requires Registered(nodes, edges) && IsVerdict(m, t, nodes, edges, r) && IsVerdict(m, t, nodes, edges, q)
    ensures r == q
  {
    var fault := EarlyFault(m, t, nodes, edges);
    if fault.Some? {
      FirstUnique(m, t, nodes, edges, fault.value, r.error, q.error);
    } else {
      var coords, tiles, spines :| Judged(m, t, nodes, edges, r, coords, tiles, spines);
      var coords', tiles', spines' :| Judged(m, t, nodes, edges, q, coords', tiles', spines');
      assert coords == coords';
      DescribedOnce(m, |nodes|, EdgeSet(Dense(nodes, edges)), coords, tiles, spines, tiles', spines');
      LateUnique(m, nodes, coords, tiles, spines, if r.Err? then Some(r.error) else None, if q.Err? then Some(q.error) else None);
    }
  }

  method FinishChecks(m: nat, nodes: seq<nat>, ghost es: set<Edge>, coords: seq<Coord>, tiles: seq<Tile>, spines: seq<Option<Spine>>)
    returns (r: Option<StructureError>)
    requires Described(m, |nodes|, es, coords, tiles, spines)
    ensures LateVerdict(m, nodes, coords, tiles, spines, r)
  {
    if tiles == [] {
      return Some(NoCandidates);
    }
    r := CheckSlots(nodes, tiles, spines);
    if r.Some? {
      return;
    }
    var split := Sides(m, coords, spines);
    return if split.Ok? then None else Some(split.error);
  }

  lemma NodeFaultAnswers(m: nat, t: nat, nodes: seq<nat>, edges: seq<NativeEdge>, i: nat)
    requires Registered(nodes, edges) && m != 0 && FirstOutside(m, t, nodes, i)
    ensures Answers(m, t, nodes, edges, ModeFault(m, t, nodes, edges), Err(NotZephyrNode(nodes[i]))) == true
  {
  }

  lemma CouplerFaultAnswers(m: nat, t: nat, nodes: seq<nat>, edges: seq<NativeEdge>, at: seq<Coord>, i: nat)
    requires Registered(nodes, edges) && m != 0 && CoordinatesOf(m, t, nodes, at) && FirstStranger(m, t, edges, i)
    ensures Answers(m, t, nodes, edges, ModeFault(m, t, nodes, edges), Err(NotZephyrCoupler(Norm(edges[i].0, edges[i].1)))) == true
  {
    assert ModeFault(m, t, nodes, edges) == Some(Fault.Coupler);
  }

  lemma JudgementAnswers(m: nat, t: nat, nodes: seq<nat>, edges: seq<NativeEdge>, at: seq<Coord>, tiles: seq<Tile>, spines: seq<Option<Spine>>,
                         r: Result<Structure, StructureError>)
    requires Registered(nodes, edges) && m != 0 && CoordinatesOf(m, t, nodes, at) && forall i :: 0 <= i < |edges| ==> IsCoupler(m, t, edges[i])
    requires Judged(m, t, nodes, edges, r, at, tiles, spines) == true
    ensures Answers(m, t, nodes, edges, ModeFault(m, t, nodes, edges), r) == true
  {
    assert ModeFault(m, t, nodes, edges).None?;
  }

  /** Nodes and couplers have passed: tiles, and the late checks. */
  method ZephyrAnswer(m: nat, t: nat, nodes: seq<nat>, edges: seq<NativeEdge>, list: seq<Edge>, at: seq<Coord>)
    returns (r: Result<Structure, StructureError>)
    requires Registered(nodes, edges) && m != 0 && CoordinatesOf(m, t, nodes, at)
    requires forall i :: 0 <= i < |edges| ==> IsCoupler(m, t, edges[i])
    requires Elements(list) == EdgeSet(Dense(nodes, edges)) && Distinct(list) && DenseEdges(Elements(list), |nodes|)
    ensures Answers(m, t, nodes, edges, ModeFault(m, t, nodes, edges), r) == true
  {
    ChecksGiveLattice(m, t, nodes, edges, Dense(nodes, edges), at);
    var neighbours := BuildNeighbourSets(|nodes|, list);
    var tiles, spines := ZephyrStructure(at, list, neighbours);
    var fault := FinishChecks(m, nodes, Elements(list), at, tiles, spines);
    r := if fault.Some? then Err(fault.value) else Ok((tiles, spines));
    assert Judged(m, t, nodes, edges, r, at, tiles, spines) == true;
    JudgementAnswers(m, t, nodes, edges, at, tiles, spines, r);
  }

  method ZephyrCandidates(m: nat, t: nat, nodes: seq<nat>, edges: seq<NativeEdge>, list: seq<Edge>)
    returns (r: Result<Structure, StructureError>)
    requires Registered(nodes, edges) && m != 0
    requires Elements(list) == EdgeSet(Dense(nodes, edges)) && Distinct(list) && DenseEdges(Elements(list), |nodes|)
    ensures Answers(m, t, nodes, edges, ModeFault(m, t, nodes, edges), r) == true
  {
    var at := NodeCoordinates(m, t, nodes);
    if at.Err? {
      ghost var i: nat :| FirstOutside(m, t, nodes, i) && at.error == NotZephyrNode(nodes[i]);
      NodeFaultAnswers(m, t, nodes, edges, i);
      return Err(at.error);
    }
    var bad := CheckCouplers(m, t, edges);
    if bad.Some? {
      ghost var i: nat :| FirstStranger(m, t, edges, i) && bad.value == NotZephyrCoupler(Norm(edges[i].0, edges[i].1));
      CouplerFaultAnswers(m, t, nodes, edges, at.value, i);
      return Err(bad.value);
    }
    r := ZephyrAnswer(m, t, nodes, edges, list, at.value);
  }

  method AdjacencyCandidates(nodes: seq<nat>, edges: seq<NativeEdge>, list: seq<Edge>) returns (r: Result<Structure, StructureError>)
    requires Registered(nodes, edges)
    requires Elements(list) == EdgeSet(Dense(nodes, edges)) && Distinct(list) && DenseEdges(Elements(list), |nodes|)
    ensures Answers(0, 0, nodes, edges, ModeFault(0, 0, nodes, edges), r)
  {
    var neighbours := BuildNeighbourSets(|nodes|, list);
    var found := AdjacencyStructure(|nodes|, list, neighbours);
    if found.Err? {
      return Err(found.error);
    }
    var (tiles, spines) := found.value;
    var fault := FinishChecks(0, nodes, Elements(list), [], tiles, spines);
    r := if fault.Some? then Err(fault.value) else Ok((tiles, spines));
    assert Judged(0, 0, nodes, edges, r, [], tiles, spines);
  }

  /** The checks common to both modes, and the undirected edges when they pass. */
  method CheckBasics(m: nat, t: nat, nodes: seq<nat>, edges: seq<NativeEdge>) returns (r: Result<seq<Edge>, StructureError>)
    requires Registered(nodes, edges)
    ensures match BasicFault(m, t, nodes, edges)
            case Some(fault) => r.Err? && EarlyVerdict(m, t, nodes, edges, fault, r.error)
            case None =>
              && r.Ok? && Elements(r.value) == EdgeSet(Dense(nodes, edges)) && Distinct(r.value)
              && DenseEdges(Elements(r.value), |nodes|)
  {
    if (m == 0) != (t == 0) {
      return Err(MixedShape);
    }
    var dense := Dense(nodes, edges);
    var top := MaxDegree(|nodes|, dense);
    if top > MAX_DEGREE {
      return Err(DegreeAboveLimit);
    }
    var collected := CollectEdges(|nodes|, dense);
    return if collected.None? then Err(DuplicateEdge) else Ok(collected.value);
  }

  method Candidates(m: nat, t: nat, nodes: seq<nat>, edges: seq<NativeEdge>) returns (r: Result<Structure, StructureError>)
    requires Registered(nodes, edges)
    ensures IsVerdict(m, t, nodes, edges, r)
  {
    var list := CheckBasics(m, t, nodes, edges);
    if list.Err? {
      return Err(list.error);
    }
    if m != 0 {
      r := ZephyrCandidates(m, t, nodes, edges, list.value);
    } else {
      r := AdjacencyCandidates(nodes, edges, list.value);
    }
  }
}

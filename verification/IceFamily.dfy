/** What the families on ice tiles share: a largest selection over an accepted topology, and its sorted edges. */
module IceFamily {
  import opened ChargedIce
  import opened Common
  import opened IceCandidates
  import opened IceSelect
  import opened IceSides
  import opened IceSlots
  import opened IceTiles
  import opened IceTopology
  import opened IceTypes
  import opened Sorting
  import opened Zephyr

  /** The strength of a coupling inside a tile, which also bounds every coefficient. */
  const STRONG_MILLI: int := 1000

  /** A shuffle of the positions below `n` is a permutation of them. */
  ghost predicate Shuffles(order: nat -> seq<nat>) {
    forall n :: IsPermutation(order(n), n)
  }

  lemma SelectionOnGraph(n: nat, es: set<Edge>, edges: seq<Edge>, tiles: seq<Tile>, spines: seq<Option<Spine>>, chosen: seq<Tile>)
    requires Bounded(es, n, tiles, spines) && Selects(tiles, spines, chosen) && Elements(edges) == es
    ensures EdgeDisjoint(edges, chosen) && Distinct(chosen)
    ensures forall k :: 0 <= k < |chosen| ==> OrderedTile(chosen[k]) && chosen[k].d < n
  {
    TileOrder();
    AscendingDistinct(chosen, TileLess);
    forall k | 0 <= k < |chosen| ensures chosen[k] in tiles {
      assert chosen[k] in chosen;
    }
    forall i, j | 0 <= i < j < |chosen| ensures TileEdgeSet(chosen[i]) !! TileEdgeSet(chosen[j]) {
      if e :| e in TileEdgeSet(chosen[i]) && e in TileEdgeSet(chosen[j]) {
        SelectionEdgeDisjoint(tiles, spines, chosen, chosen[i], chosen[j], e);
      }
    }
  }

  lemma MembershipsAtMostTwo(n: nat, tiles: seq<Tile>, spines: seq<Option<Spine>>, chosen: seq<Tile>)
    requires TilesWithSpines(tiles, spines) && Selects(tiles, spines, chosen)
    requires forall v :: 0 <= v < n ==> Slots(tiles, spines, v) <= 2
    ensures forall v :: 0 <= v < n ==> |TilesAt(chosen, v)| <= 2
  {
    forall v | 0 <= v < n ensures |TilesAt(chosen, v)| <= 2 {
      MembershipBound(tiles, spines, chosen, v);
    }
  }

  /** Normalised dense edges, ascending. */
  function SortedEdges(dense: seq<NativeEdge>): seq<Edge> {
    SortDistinct(seq(|dense|, i requires 0 <= i < |dense| => Norm(dense[i].0, dense[i].1)), EdgeLess)
  }

  lemma SortedEdgesHold(dense: seq<NativeEdge>)
    ensures Elements(SortedEdges(dense)) == EdgeSet(dense) && Distinct(SortedEdges(dense))
    ensures Ascending(SortedEdges(dense), EdgeLess)
  {
    var all := seq(|dense|, i requires 0 <= i < |dense| => Norm(dense[i].0, dense[i].1));
    EdgeOrder();
    SortAscending(all, EdgeLess);
    AscendingDistinct(SortedEdges(dense), EdgeLess);
    forall e ensures e in all <==> e in EdgeSet(dense) {
      if e in EdgeSet(dense) {
        var p :| p in dense && e == Norm(p.0, p.1);
        var i :| 0 <= i < |dense| && dense[i] == p;
        assert all[i] == e;
      }
      if e in all {
        var i :| 0 <= i < |all| && all[i] == e;
        assert dense[i] in dense;
      }
    }
  }

  lemma CoordinatesAgree(m: nat, t: nat, nodes: seq<nat>, at: seq<Coord>)
    requires if m != 0 then CoordinatesOf(m, t, nodes, at) else at == []
    ensures m != 0 ==> forall i :: 0 <= i < |nodes| ==> Coordinates(m, t, nodes[i]).Some?
    ensures NodeCoords(m, t, nodes) == at
  {
  }

  lemma {:induction false} EdgeSetSize(dense: seq<NativeEdge>)
    ensures |EdgeSet(dense)| <= |dense|
  {
    if dense != [] {
      var rest := dense[1..];
      EdgeSetSize(rest);
      assert dense == [dense[0]] + rest;
      assert EdgeSet(dense) == EdgeSet(rest) + {Norm(dense[0].0, dense[0].1)};
    }
  }

  lemma EdgesInRange(n: nat, edges: seq<Edge>, dense: seq<NativeEdge>)
    requires Distinct(edges) && Elements(edges) == EdgeSet(dense) && DenseEdges(EdgeSet(dense), n)
    ensures |edges| <= |dense| && forall e :: e in edges ==> e.u < e.v < n
  {
    DistinctCard(edges);
    EdgeSetSize(dense);
    assert forall e :: e in edges ==> e in Elements(edges);
  }

  /** Select tiles from a structure that `Candidates` accepted; the sides are recomputed, and cannot fail. */
  method SelectTiles(m: nat, n: nat, ghost es: set<Edge>, coords: seq<Coord>, tiles: seq<Tile>, spines: seq<Option<Spine>>,
                     leftOrder: nat -> seq<nat>, rightOrder: nat -> seq<nat>) returns (chosen: seq<Tile>)
    requires Carries(m, n, es, coords, tiles, spines) && Shuffles(leftOrder) && Shuffles(rightOrder)
    ensures Selects(tiles, spines, chosen) && Largest(tiles, spines, chosen)
    ensures SelectedByShuffles(m, coords, tiles, spines, leftOrder, rightOrder, chosen)
  {
    var split := Sides(m, coords, spines);
    var (left, right) := split.value;
    chosen := Select(tiles, spines, left, right, leftOrder(|left|), rightOrder(|right|));
  }

  /** The selection that the shuffled sides lead to. */
  ghost predicate SelectedByShuffles(m: nat, coords: seq<Coord>, tiles: seq<Tile>, spines: seq<Option<Spine>>,
                                     leftOrder: nat -> seq<nat>, rightOrder: nat -> seq<nat>, chosen: seq<Tile>) {
    exists left, right ::
      && PinnedSides(m, coords, spines, left, right)
      && SelectedBy(tiles, spines, left, right, leftOrder(|left|), rightOrder(|right|), chosen)
  }

  /** The same over the topology: the coordinates are those of its nodes. */
  ghost predicate ChosenByShuffles(m: nat, t: nat, nodes: seq<nat>, found: Structure,
                        leftOrder: nat -> seq<nat>, rightOrder: nat -> seq<nat>, chosen: seq<Tile>) {
    exists at ::
      && (if m != 0 then CoordinatesOf(m, t, nodes, at) else at == [])
      && SelectedByShuffles(m, at, found.0, found.1, leftOrder, rightOrder, chosen)
  }

  lemma ShufflesDecide(m: nat, coords: seq<Coord>, tiles: seq<Tile>, spines: seq<Option<Spine>>,
                       leftOrder: nat -> seq<nat>, rightOrder: nat -> seq<nat>, chosen: seq<Tile>, also: seq<Tile>)
    requires Shuffles(rightOrder)
    requires SelectedByShuffles(m, coords, tiles, spines, leftOrder, rightOrder, chosen)
    requires SelectedByShuffles(m, coords, tiles, spines, leftOrder, rightOrder, also)
    ensures chosen == also
  {
    var left, right :| PinnedSides(m, coords, spines, left, right)
      && SelectedBy(tiles, spines, left, right, leftOrder(|left|), rightOrder(|right|), chosen);
    var left', right' :| PinnedSides(m, coords, spines, left', right')
      && SelectedBy(tiles, spines, left', right', leftOrder(|left'|), rightOrder(|right'|), also);
    SidesUnique(m, coords, spines, left, right, left', right');
    SelectionUnique(tiles, spines, left, right, leftOrder(|left|), rightOrder(|right|), chosen, also);
  }

  /** One structure and one pair of shuffles give one selection. */
  lemma ShufflesUnique(m: nat, t: nat, nodes: seq<nat>, found: Structure,
                    leftOrder: nat -> seq<nat>, rightOrder: nat -> seq<nat>, chosen: seq<Tile>, also: seq<Tile>)
    requires Shuffles(rightOrder)
    requires ChosenByShuffles(m, t, nodes, found, leftOrder, rightOrder, chosen) && ChosenByShuffles(m, t, nodes, found, leftOrder, rightOrder, also)
    ensures chosen == also
  {
    var at :| (if m != 0 then CoordinatesOf(m, t, nodes, at) else at == [])
      && SelectedByShuffles(m, at, found.0, found.1, leftOrder, rightOrder, chosen);
    var at' :| (if m != 0 then CoordinatesOf(m, t, nodes, at') else at' == [])
      && SelectedByShuffles(m, at', found.0, found.1, leftOrder, rightOrder, also);
    assert at == at';
    ShufflesDecide(m, at, found.0, found.1, leftOrder, rightOrder, chosen, also);
  }

  function Unshuffled(n: nat): seq<nat> {
    seq(n, i => i)
  }

  /** Shuffles exist: leaving every list as it is. */
  lemma IdentityShuffles()
    ensures Shuffles(Unshuffled)
  {
    forall n: nat {:trigger Unshuffled(n)} ensures IsPermutation(Unshuffled(n), n) {
      IdentityIsPermutation(n);
    }
  }

  /** The four signs that the stream of gauge draws gives tile `k`. */
  function GaugeAt(draws: (nat, nat) -> nat, k: nat): (g: Gauge)
    ensures IsGauge(g) && forall i :: 0 <= i < 4 ==> g[i] == SignOf(draws(k, i))
  {
    [SignOf(draws(k, 0)), SignOf(draws(k, 1)), SignOf(draws(k, 2)), SignOf(draws(k, 3))]
  }

  function Gauges(draws: (nat, nat) -> nat, n: nat): (g: seq<Gauge>)
    ensures |g| == n && forall k :: 0 <= k < n ==> g[k] == GaugeAt(draws, k) && IsGauge(g[k])
  {
    seq(n, k requires 0 <= k < n => GaugeAt(draws, k))
  }

  /** Sorted edges of the graph, and a largest selection of its tiles: they share no edge, and no node is in three. */
  ghost predicate SelectedOn(n: nat, es: set<Edge>, found: Structure, edges: seq<Edge>, chosen: seq<Tile>) {
    && Elements(edges) == es && Ascending(edges, EdgeLess) && Distinct(edges)
    && |found.0| == |found.1| && Selects(found.0, found.1, chosen) && Largest(found.0, found.1, chosen)
    && EdgeDisjoint(edges, chosen) && Distinct(chosen) && (forall t :: t in chosen ==> OrderedTile(t) && t.d < n)
    && (forall v :: 0 <= v < n ==> |TilesAt(chosen, v)| <= 2)
    && forall e :: e in edges ==> e.u < e.v < n
  }

  /** The selection over an accepted structure; no step after the structure checks can fail. */
  method SelectOver(m: nat, t: nat, nodes: seq<nat>, nativeEdges: seq<NativeEdge>, found: Structure, ghost at: seq<Coord>,
                    leftOrder: nat -> seq<nat>, rightOrder: nat -> seq<nat>) returns (edges: seq<Edge>, chosen: seq<Tile>)
    requires Registered(nodes, nativeEdges) && Shuffles(leftOrder) && Shuffles(rightOrder)
    requires Carries(m, |nodes|, EdgeSet(Dense(nodes, nativeEdges)), at, found.0, found.1)
    requires if m != 0 then CoordinatesOf(m, t, nodes, at) else at == []
    ensures SelectedOn(|nodes|, EdgeSet(Dense(nodes, nativeEdges)), found, edges, chosen) && |edges| <= |nativeEdges|
    ensures ChosenByShuffles(m, t, nodes, found, leftOrder, rightOrder, chosen)
  {
    var dense := Dense(nodes, nativeEdges);
    CoordinatesAgree(m, t, nodes, at);
    var coords := NodeCoords(m, t, nodes);
    chosen := SelectTiles(m, |nodes|, EdgeSet(dense), coords, found.0, found.1, leftOrder, rightOrder);
    edges := SortedEdges(dense);
    SortedEdgesHold(dense);
    EdgesInRange(|nodes|, edges, dense);
    SelectionIsOn(|nodes|, EdgeSet(dense), found, edges, chosen);
  }

  lemma SelectionIsOn(n: nat, es: set<Edge>, found: Structure, edges: seq<Edge>, chosen: seq<Tile>)
    requires Bounded(es, n, found.0, found.1) && Selects(found.0, found.1, chosen) && Largest(found.0, found.1, chosen)
    requires forall v :: 0 <= v < n ==> Slots(found.0, found.1, v) <= 2
    requires Elements(edges) == es && Ascending(edges, EdgeLess) && Distinct(edges) && forall e :: e in edges ==> e.u < e.v < n
    ensures SelectedOn(n, es, found, edges, chosen)
  {
    SelectionOnGraph(n, es, edges, found.0, found.1, chosen);
    MembershipsAtMostTwo(n, found.0, found.1, chosen);
  }

  /** Selections on one graph by the same shuffles are over the same edges and have the same tiles. */
  lemma SelectionsAgree(m: nat, t: nat, nodes: seq<nat>, es: set<Edge>, found: Structure, leftOrder: nat -> seq<nat>, rightOrder: nat -> seq<nat>,
                        edges: seq<Edge>, chosen: seq<Tile>, edges': seq<Edge>, chosen': seq<Tile>)
    requires Shuffles(rightOrder)
    requires SelectedOn(|nodes|, es, found, edges, chosen) && ChosenByShuffles(m, t, nodes, found, leftOrder, rightOrder, chosen)
    requires SelectedOn(|nodes|, es, found, edges', chosen') && ChosenByShuffles(m, t, nodes, found, leftOrder, rightOrder, chosen')
    ensures edges == edges' && chosen == chosen'
  {
    ShufflesUnique(m, t, nodes, found, leftOrder, rightOrder, chosen, chosen');
    EdgeOrder();
    forall e ensures e in edges <==> e in edges' {
      assert e in Elements(edges) <==> e in Elements(edges');
    }
    AscendingUnique(edges, edges', EdgeLess);
  }

  /** What all three families draw over: the edges of an accepted topology and the selection that the shuffles lead to. */
  ghost predicate SelectionOf(m: nat, t: nat, nodes: seq<nat>, nativeEdges: seq<NativeEdge>,
                              leftOrder: nat -> seq<nat>, rightOrder: nat -> seq<nat>, edges: seq<Edge>, chosen: seq<Tile>)
    requires Registered(nodes, nativeEdges)
  {
    exists found: Structure ::
      && IsVerdict(m, t, nodes, nativeEdges, Ok(found))
      && SelectedOn(|nodes|, EdgeSet(Dense(nodes, nativeEdges)), found, edges, chosen)
      && ChosenByShuffles(m, t, nodes, found, leftOrder, rightOrder, chosen)
  }

  /** A topology and two shuffles have one selection. */
  lemma SelectionOfUnique(m: nat, t: nat, nodes: seq<nat>, nativeEdges: seq<NativeEdge>, leftOrder: nat -> seq<nat>, rightOrder: nat -> seq<nat>,
                          edges: seq<Edge>, chosen: seq<Tile>, edges': seq<Edge>, chosen': seq<Tile>)
    requires Registered(nodes, nativeEdges) && Shuffles(rightOrder)
    requires SelectionOf(m, t, nodes, nativeEdges, leftOrder, rightOrder, edges, chosen)
    requires SelectionOf(m, t, nodes, nativeEdges, leftOrder, rightOrder, edges', chosen')
    ensures edges == edges' && chosen == chosen'
  {
    var es := EdgeSet(Dense(nodes, nativeEdges));
    var found: Structure :| IsVerdict(m, t, nodes, nativeEdges, Ok(found)) && SelectedOn(|nodes|, es, found, edges, chosen)
      && ChosenByShuffles(m, t, nodes, found, leftOrder, rightOrder, chosen);
    var other: Structure :| IsVerdict(m, t, nodes, nativeEdges, Ok(other)) && SelectedOn(|nodes|, es, other, edges', chosen')
      && ChosenByShuffles(m, t, nodes, other, leftOrder, rightOrder, chosen');
    VerdictUnique(m, t, nodes, nativeEdges, Ok(found), Ok(other));
    SelectionsAgree(m, t, nodes, es, found, leftOrder, rightOrder, edges, chosen, edges', chosen');
  }

  /** A rejected topology has none. */
  lemma RejectedHasNoSelection(m: nat, t: nat, nodes: seq<nat>, nativeEdges: seq<NativeEdge>, leftOrder: nat -> seq<nat>, rightOrder: nat -> seq<nat>,
                               error: StructureError, edges: seq<Edge>, chosen: seq<Tile>)
    requires Registered(nodes, nativeEdges) && IsVerdict(m, t, nodes, nativeEdges, Err(error))
    ensures !SelectionOf(m, t, nodes, nativeEdges, leftOrder, rightOrder, edges, chosen)
  {
    forall found: Structure ensures !IsVerdict(m, t, nodes, nativeEdges, Ok(found)) {
      if IsVerdict(m, t, nodes, nativeEdges, Ok(found)) {
        VerdictUnique(m, t, nodes, nativeEdges, Err(error), Ok(found));
      }
    }
  }

  /** The start of every family: the structure checks, and the selection of an accepted topology. */
  method Prepare(m: nat, t: nat, nodes: seq<nat>, nativeEdges: seq<NativeEdge>, leftOrder: nat -> seq<nat>, rightOrder: nat -> seq<nat>)
    returns (r: Result<(seq<Edge>, seq<Tile>), StructureError>, ghost found: Structure)
    requires Registered(nodes, nativeEdges) && Shuffles(leftOrder) && Shuffles(rightOrder)
    ensures r.Err? ==> IsVerdict(m, t, nodes, nativeEdges, Err(r.error)) == true
    ensures r.Ok? ==> SelectedOn(|nodes|, EdgeSet(Dense(nodes, nativeEdges)), found, r.value.0, r.value.1) == true
    ensures r.Ok? ==> SelectionOf(m, t, nodes, nativeEdges, leftOrder, rightOrder, r.value.0, r.value.1) == true
    ensures r.Ok? ==> |r.value.0| <= |nativeEdges|
  {
    var verdict := Candidates(m, t, nodes, nativeEdges);
    ghost var at := AcceptedCarries(m, t, nodes, nativeEdges, verdict);
    found := ([], []);
    if verdict.Err? {
      return Err(verdict.error), found;
    }
    found := verdict.value;
    var edges, chosen := SelectOver(m, t, nodes, nativeEdges, verdict.value, at, leftOrder, rightOrder);
    return Ok((edges, chosen)), found;
  }
}

/** Zephyr mode: tiles from pairs of odd couplers in the two orientations. */
module IceZephyrTiles {
  import opened Common
  import opened IceTypes
  import opened IceTiles
  import opened Zephyr

  function SortFour(e: Edge, f: Edge): Tile {
    var (a, b, c, d) := (e.u, e.v, f.u, f.v);
    if a < c then
      if b < c then Tile(a, b, c, d) else if b < d then Tile(a, c, b, d) else Tile(a, c, d, b)
    else
      if d < a then Tile(c, d, a, b) else if d < b then Tile(c, a, d, b) else Tile(c, a, b, d)
  }

  function SortSpine(e: Edge, f: Edge): Spine {
    if EdgeLess(f, e) then Spine(f, e) else Spine(e, f)
  }

  predicate OddIn(coords: seq<Coord>, e: Edge, u: nat) {
    e.u < |coords| && e.v < |coords| && coords[e.u].u == u && coords[e.v].u == u && OddPair(coords[e.u], coords[e.v])
  }

  predicate Crossed(es: set<Edge>, e: Edge, f: Edge) {
    Norm(e.u, f.u) in es && Norm(e.u, f.v) in es && Norm(e.v, f.u) in es && Norm(e.v, f.v) in es
  }

  /** An odd coupler of each orientation, every end of one next to every end of the other. */
  predicate ZephyrPair(coords: seq<Coord>, es: set<Edge>, e: Edge, f: Edge) {
    e in es && f in es && OddIn(coords, e, 0) && OddIn(coords, f, 1) && Crossed(es, e, f)
  }

  ghost predicate TilePair(coords: seq<Coord>, es: set<Edge>, t: Tile, s: Spine, e: Edge, f: Edge) {
    ZephyrPair(coords, es, e, f) && t == SortFour(e, f) && s == SortSpine(e, f)
  }

  /** The four sorted nodes form a clique, and the sorted pair is one of its perfect matchings. */
  lemma PairFormsTile(coords: seq<Coord>, es: set<Edge>, e: Edge, f: Edge)
    requires DenseEdges(es, |coords|) && ZephyrPair(coords, es, e, f)
    ensures IsClique(es, SortFour(e, f)) && SortSpine(e, f) in Matchings(SortFour(e, f))
  {
    assert e.u != f.u && e.u != f.v && e.v != f.u && e.v != f.v;
    assert e.u < e.v && f.u < f.v;
    var t := SortFour(e, f);
    assert forall x :: x in TileEdges(t) ==>
      x == e || x == f || x == Norm(e.u, f.u) || x == Norm(e.u, f.v) || x == Norm(e.v, f.u) || x == Norm(e.v, f.v);
  }

  lemma NodesOfTile(e: Edge, f: Edge, x: nat)
    ensures x in TileNodes(SortFour(e, f)) <==> x == e.u || x == e.v || x == f.u || x == f.v
  {
  }

  /** The orientation tells the two couplers of a tile apart. */
  lemma PairUnique(coords: seq<Coord>, es: set<Edge>, e: Edge, f: Edge, e': Edge, f': Edge)
    requires DenseEdges(es, |coords|)
    requires ZephyrPair(coords, es, e, f) && ZephyrPair(coords, es, e', f') && SortFour(e, f) == SortFour(e', f')
    ensures e == e' && f == f'
  {
    NodesOfTile(e, f, e'.u);
    NodesOfTile(e, f, e'.v);
    NodesOfTile(e, f, f'.u);
    NodesOfTile(e, f, f'.v);
    NodesOfTile(e', f', e'.u);
    NodesOfTile(e', f', e'.v);
    NodesOfTile(e', f', f'.u);
    NodesOfTile(e', f', f'.v);
  }

  ghost predicate Sound(coords: seq<Coord>, es: set<Edge>, found: map<Tile, Spine>) {
    forall t {:trigger t in found} :: t in found ==> exists e, f :: TilePair(coords, es, t, found[t], e, f)
  }

  /** The dictionary of tiles found from the first edges of a list. */
  ghost predicate FoundFrom(coords: seq<Coord>, es: set<Edge>, firsts: seq<Edge>, found: map<Tile, Spine>) {
    Sound(coords, es, found) && forall e, f :: e in firsts && ZephyrPair(coords, es, e, f) ==> SortFour(e, f) in found
  }

  /** All pairs of common neighbours before position (i, j) have been tried. */
  ghost predicate Tried(coords: seq<Coord>, es: set<Edge>, e: Edge, common: seq<nat>, i: nat, j: nat, found: map<Tile, Spine>) {
    forall p, q :: 0 <= p < q < |common| && (p < i || (p == i && q < j)) && ZephyrPair(coords, es, e, Edge(common[p], common[q])) ==>
      SortFour(e, Edge(common[p], common[q])) in found
  }

  lemma StoreTile(coords: seq<Coord>, es: set<Edge>, found: map<Tile, Spine>, e: Edge, f: Edge)
    requires Sound(coords, es, found) && ZephyrPair(coords, es, e, f)
    ensures Sound(coords, es, found[SortFour(e, f) := SortSpine(e, f)])
  {
    var more := found[SortFour(e, f) := SortSpine(e, f)];
    forall t | t in more ensures exists e, f :: TilePair(coords, es, t, more[t], e, f) {
      if t == SortFour(e, f) {
        assert TilePair(coords, es, t, more[t], e, f);
      }
    }
  }

  /** Pairs of common neighbours of `e` that form an odd coupler of the other orientation. */
  method TilesOn(coords: seq<Coord>, es: set<Edge>, neighbours: seq<set<nat>>, e: Edge, start: map<Tile, Spine>)
    returns (found: map<Tile, Spine>)
    requires NeighbourSets(neighbours, es) && |neighbours| == |coords|
    requires e in es && OddIn(coords, e, 0) && Sound(coords, es, start)
    ensures Sound(coords, es, found) && start.Keys <= found.Keys
    ensures forall f :: ZephyrPair(coords, es, e, f) ==> SortFour(e, f) in found
  {
    found := start;
    var common := Above(neighbours[e.u] * neighbours[e.v], -1, |neighbours|);
    for i := 0 to |common|
      invariant Sound(coords, es, found) && start.Keys <= found.Keys
      invariant Tried(coords, es, e, common, i, 0, found)
    {
      for j := i + 1 to |common|
        invariant Sound(coords, es, found) && start.Keys <= found.Keys
        invariant Tried(coords, es, e, common, i, j, found)
      {
        var f := Edge(common[i], common[j]);
        if f in es && OddIn(coords, f, 1) {
          CommonIsCrossed(neighbours, es, e, f, common);
          StoreTile(coords, es, found, e, f);
          found := found[SortFour(e, f) := SortSpine(e, f)];
        }
      }
    }
    forall f | ZephyrPair(coords, es, e, f) ensures SortFour(e, f) in found {
      var p, q := CrossedIsCommon(neighbours, es, e, f, common);
    }
  }

  lemma CommonIsCrossed(neighbours: seq<set<nat>>, es: set<Edge>, e: Edge, f: Edge, common: seq<nat>)
    requires NeighbourSets(neighbours, es) && e in es
    requires common == Above(neighbours[e.u] * neighbours[e.v], -1, |neighbours|) && f.u in common && f.v in common
    ensures Crossed(es, e, f)
  {
  }

  lemma CrossedIsCommon(neighbours: seq<set<nat>>, es: set<Edge>, e: Edge, f: Edge, common: seq<nat>) returns (p: nat, q: nat)
    requires NeighbourSets(neighbours, es) && e in es && f in es && Crossed(es, e, f)
    requires common == Above(neighbours[e.u] * neighbours[e.v], -1, |neighbours|)
    ensures p < q < |common| && f == Edge(common[p], common[q])
  {
    assert f.u in common && f.v in common;
    p :| 0 <= p < |common| && common[p] == f.u;
    q :| 0 <= q < |common| && common[q] == f.v;
  }

  method ZephyrTiles(coords: seq<Coord>, ordered: seq<Edge>, es: set<Edge>, neighbours: seq<set<nat>>)
    returns (found: map<Tile, Spine>)
    requires NeighbourSets(neighbours, es) && |neighbours| == |coords| && Elements(ordered) == es
    ensures FoundFrom(coords, es, ordered, found)
  {
    found := map[];
    for k := 0 to |ordered|
      invariant FoundFrom(coords, es, ordered[..k], found)
    {
      PrefixGrows(ordered, k);
      var e := ordered[k];
      assert e in Elements(ordered);
      if OddIn(coords, e, 0) {
        found := TilesOn(coords, es, neighbours, e, found);
      }
    }
    assert ordered[..|ordered|] == ordered;
  }
}

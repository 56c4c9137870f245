/** Why the structure found in either mode is sound: shared edges, slots, and sides. */
module IceStructure {
  import opened Common
  import opened IceCandidates
  import opened IceSides
  import opened IceSlots
  import opened IceSpines
  import opened IceTiles
  import opened IceTypes
  import opened IceZephyrTiles
  import opened Zephyr

  // ---- adjacency mode ----

  lemma AdjacencyEdgeRule(tiles: seq<Tile>, spines: seq<Option<Spine>>)
    requires |tiles| == |spines|
    requires forall i :: 0 <= i < |tiles| ==> SpineRule(tiles, tiles[i], spines[i])
    ensures EdgeRule(tiles, spines)
  {
    forall i, j, e | 0 <= i < |tiles| && 0 <= j < |tiles| && i != j && e in TileEdges(tiles[i]) && e in TileEdges(tiles[j])
      ensures spines[i].Some? && OnSpine(e, spines[i].value)
    {
      assert Shared(tiles, e);
      assert SpineRule(tiles, tiles[i], spines[i]);
    }
  }

  ghost predicate ListsCliques(es: set<Edge>, tiles: seq<Tile>) {
    Distinct(tiles) && forall t :: t in tiles <==> IsClique(es, t)
  }

  lemma SharedInGraph(es: set<Edge>, tiles: seq<Tile>, e: Edge)
    requires ListsCliques(es, tiles)
    ensures Shared(tiles, e) <==> SharedByCliques(es, e)
  {
    if Shared(tiles, e) {
      var i, j :| 0 <= i < j < |tiles| && e in TileEdges(tiles[i]) && e in TileEdges(tiles[j]);
      assert tiles[i] in tiles && tiles[j] in tiles;
    }
    if SharedByCliques(es, e) {
      var t, x :| t != x && IsClique(es, t) && IsClique(es, x) && e in TileEdges(t) && e in TileEdges(x);
      var i, j := IndexOf(tiles, t), IndexOf(tiles, x);
      assert if i < j then Shared(tiles, e) else Shared(tiles, e);
    }
  }

  lemma CoversInGraph(es: set<Edge>, tiles: seq<Tile>, t: Tile, s: Spine)
    requires ListsCliques(es, tiles) && s in Matchings(t)
    ensures Covers(tiles, t, s) <==> CliqueCovered(es, t, s)
  {
    forall e ensures Shared(tiles, e) <==> SharedByCliques(es, e) {
      SharedInGraph(es, tiles, e);
    }
  }

  /** The spine step fails exactly on graphs with a clique that no spine fits. */
  lemma ConflictInGraph(es: set<Edge>, tiles: seq<Tile>, t: Tile)
    requires ListsCliques(es, tiles) && Conflicted(tiles, t)
    ensures GraphConflicts(es)
  {
    forall s ensures !CliqueCovered(es, t, s) {
      if s in Matchings(t) {
        CoversInGraph(es, tiles, t, s);
      }
    }
  }

  lemma NoConflictInGraph(es: set<Edge>, tiles: seq<Tile>, spines: seq<Option<Spine>>)
    requires ListsCliques(es, tiles) && |tiles| == |spines|
    requires forall i :: 0 <= i < |tiles| ==> SpineRule(tiles, tiles[i], spines[i])
    ensures !GraphConflicts(es)
  {
    forall t | IsClique(es, t) ensures exists s :: CliqueCovered(es, t, s) {
      var i := IndexOf(tiles, t);
      var s := if spines[i].Some? then spines[i].value else Matchings(t)[0];
      assert SpineRule(tiles, t, spines[i]);
      CoversInGraph(es, tiles, t, s);
    }
  }

  // ---- Zephyr mode ----

  ghost predicate Touched(es: set<Edge>, a: nat) {
    exists e :: e in es && Ends(e, a)
  }

  /** Positions that meet edges have coordinates of their own; only repeated nodes, which meet none, may not. */
  ghost predicate OwnCoordinates(coords: seq<Coord>, es: set<Edge>) {
    forall a, b :: 0 <= a < |coords| && 0 <= b < |coords| && Touched(es, a) && Touched(es, b) && coords[a] == coords[b] ==> a == b
  }

  /** The coordinates of registered nodes: in the lattice, every edge a coupler between different ones. */
  ghost predicate LatticeGraph(coords: seq<Coord>, es: set<Edge>) {
    && DenseEdges(es, |coords|)
    && OwnCoordinates(coords, es)
    && (forall i :: 0 <= i < |coords| ==> coords[i].u < 2 && coords[i].j < 2)
    && forall e :: e in es ==> Linked(coords[e.u], coords[e.v])
  }

  ghost predicate ZephyrSpines(coords: seq<Coord>, es: set<Edge>, tiles: seq<Tile>, spines: seq<Option<Spine>>) {
    && |tiles| == |spines|
    && forall i :: 0 <= i < |tiles| ==> spines[i].Some? && exists e, f :: TilePair(coords, es, tiles[i], spines[i].value, e, f)
  }

  lemma PairOfSpine(coords: seq<Coord>, es: set<Edge>, tiles: seq<Tile>, spines: seq<Option<Spine>>, i: nat)
    returns (e: Edge, f: Edge)
    requires ZephyrSpines(coords, es, tiles, spines) && i < |tiles|
    ensures spines[i].Some? && TilePair(coords, es, tiles[i], spines[i].value, e, f)
  {
    assert spines[i].Some?;
    e, f :| TilePair(coords, es, tiles[i], spines[i].value, e, f);
  }

  lemma LinkedEnds(coords: seq<Coord>, es: set<Edge>, a: nat, b: nat)
    requires LatticeGraph(coords, es) && Norm(a, b) in es
    ensures a < |coords| && b < |coords| && Linked(coords[a], coords[b])
  {
  }

  /** Of the odd couplers at `a`, one has its other end next to `c`. */
  lemma PartnerUnique(coords: seq<Coord>, es: set<Edge>, a: nat, b: nat, b': nat, c: nat)
    requires LatticeGraph(coords, es)
    requires Norm(a, b) in es && Norm(a, b') in es && Norm(a, c) in es && Norm(b, c) in es && Norm(b', c) in es
    requires a < |coords| && b < |coords| && b' < |coords| && c < |coords|
    requires OddPair(coords[a], coords[b]) && OddPair(coords[a], coords[b']) && coords[a].u != coords[c].u
    ensures b == b'
  {
    LinkedEnds(coords, es, a, b);
    LinkedEnds(coords, es, a, b');
    LinkedEnds(coords, es, a, c);
    LinkedEnds(coords, es, b, c);
    LinkedEnds(coords, es, b', c);
    OnePartner(coords[a], coords[b], coords[b'], coords[c]);
    SameEnd(coords, es, Norm(a, b), Norm(a, b'), b, b');
  }

  lemma SameEnd(coords: seq<Coord>, es: set<Edge>, e: Edge, f: Edge, a: nat, b: nat)
    requires OwnCoordinates(coords, es) && a < |coords| && b < |coords| && coords[a] == coords[b]
    requires e in es && f in es && Ends(e, a) && Ends(f, b)
    ensures a == b
  {
    assert Touched(es, a) && Touched(es, b);
  }

  function Other(e: Edge, v: nat): nat {
    if v == e.u then e.v else e.u
  }

  lemma OtherEnd(e: Edge, v: nat)
    requires e.u < e.v && Ends(e, v)
    ensures Norm(v, Other(e, v)) == e && Ends(e, Other(e, v))
  {
  }

  lemma CrossedEnds(es: set<Edge>, e: Edge, f: Edge, a: nat, c: nat)
    requires Crossed(es, e, f) && Ends(e, a) && Ends(f, c)
    ensures Norm(a, c) in es && Norm(c, a) in es
  {
  }

  lemma OddEnds(coords: seq<Coord>, e: Edge, u: nat, a: nat)
    requires OddIn(coords, e, u) && Ends(e, a)
    ensures a < |coords| && Other(e, a) < |coords| && coords[a].u == u && OddPair(coords[a], coords[Other(e, a)])
  {
  }

  /** Two odd couplers through `a`, both crossing to `c`, are one. */
  lemma OddCouplerOnce(coords: seq<Coord>, es: set<Edge>, e: Edge, e': Edge, f: Edge, f': Edge, u: nat, a: nat, c: nat)
    requires LatticeGraph(coords, es) && e in es && e' in es
    requires OddIn(coords, e, u) && OddIn(coords, e', u) && c < |coords| && coords[c].u != u
    requires Crossed(es, e, f) && Crossed(es, e', f')
    requires Ends(e, a) && Ends(e', a) && Ends(f, c) && Ends(f', c)
    ensures e == e'
  {
    OtherEnd(e, a);
    OtherEnd(e', a);
    OddEnds(coords, e, u, a);
    OddEnds(coords, e', u, a);
    CrossedEnds(es, e, f, a, c);
    CrossedEnds(es, e, f, Other(e, a), c);
    CrossedEnds(es, e', f', Other(e', a), c);
    PartnerUnique(coords, es, a, Other(e, a), Other(e', a), c);
  }

  /** Two tiles through one internal coupler (a, c) are the same tile. */
  lemma InternalCouplerOnce(coords: seq<Coord>, es: set<Edge>, e: Edge, f: Edge, e': Edge, f': Edge, a: nat, c: nat)
    requires LatticeGraph(coords, es) && ZephyrPair(coords, es, e, f) && ZephyrPair(coords, es, e', f')
    requires Ends(e, a) && Ends(e', a) && Ends(f, c) && Ends(f', c)
    ensures e == e' && f == f'
  {
    CrossedBack(es, e, f);
    CrossedBack(es, e', f');
    OddCouplerOnce(coords, es, e, e', f, f', 0, a, c);
    OddCouplerOnce(coords, es, f, f', e, e', 1, c, a);
  }

  lemma CrossedBack(es: set<Edge>, e: Edge, f: Edge)
    requires Crossed(es, e, f)
    ensures Crossed(es, f, e)
  {
  }

  lemma EdgeOfPair(coords: seq<Coord>, es: set<Edge>, e: Edge, f: Edge, x: Edge)
    requires DenseEdges(es, |coords|) && ZephyrPair(coords, es, e, f) && x in TileEdges(SortFour(e, f))
    ensures x == e || x == f || (Ends(e, x.u) && Ends(f, x.v)) || (Ends(f, x.u) && Ends(e, x.v))
    ensures x.u < |coords| && x.v < |coords|
  {
    PairFormsTile(coords, es, e, f);
    NodesOfTile(e, f, x.u);
    NodesOfTile(e, f, x.v);
  }

  /** An edge of two Zephyr tiles is an odd coupler on both spines, because an internal coupler is in one tile. */
  lemma SharedIsOdd(coords: seq<Coord>, es: set<Edge>, e: Edge, f: Edge, e': Edge, f': Edge, x: Edge)
    requires LatticeGraph(coords, es) && ZephyrPair(coords, es, e, f) && ZephyrPair(coords, es, e', f')
    requires x in TileEdges(SortFour(e, f)) && x in TileEdges(SortFour(e', f'))
    requires SortFour(e, f) != SortFour(e', f')
    ensures x == e || x == f
  {
    EdgeOfPair(coords, es, e, f, x);
    EdgeOfPair(coords, es, e', f', x);
    if Ends(e, x.u) && Ends(f, x.v) && Ends(e', x.u) && Ends(f', x.v) {
      InternalCouplerOnce(coords, es, e, f, e', f', x.u, x.v);
    } else if Ends(f, x.u) && Ends(e, x.v) && Ends(f', x.u) && Ends(e', x.v) {
      InternalCouplerOnce(coords, es, e, f, e', f', x.v, x.u);
    }
  }

  lemma ZephyrEdgeRuleAt(coords: seq<Coord>, es: set<Edge>, tiles: seq<Tile>, spines: seq<Option<Spine>>,
                         i: nat, j: nat, x: Edge)
    requires LatticeGraph(coords, es) && ZephyrSpines(coords, es, tiles, spines)
    requires i < |tiles| && j < |tiles| && tiles[i] != tiles[j] && x in TileEdges(tiles[i]) && x in TileEdges(tiles[j])
    ensures spines[i].Some? && OnSpine(x, spines[i].value)
  {
    var e, f := PairOfSpine(coords, es, tiles, spines, i);
    var e', f' := PairOfSpine(coords, es, tiles, spines, j);
    SharedIsOdd(coords, es, e, f, e', f', x);
  }

  lemma ZephyrEdgeRule(coords: seq<Coord>, es: set<Edge>, tiles: seq<Tile>, spines: seq<Option<Spine>>)
    requires LatticeGraph(coords, es) && ZephyrSpines(coords, es, tiles, spines) && Distinct(tiles)
    ensures EdgeRule(tiles, spines)
  {
    forall i, j, x | 0 <= i < |tiles| && 0 <= j < |tiles| && i != j && x in TileEdges(tiles[i]) && x in TileEdges(tiles[j])
      ensures spines[i].Some? && OnSpine(x, spines[i].value)
    {
      ZephyrEdgeRuleAt(coords, es, tiles, spines, i, j, x);
    }
  }

  /** In Zephyr mode the orientation separates every spine. */
  lemma ZephyrSplits(m: nat, coords: seq<Coord>, es: set<Edge>, tiles: seq<Tile>, spines: seq<Option<Spine>>)
    requires m != 0 && ZephyrSpines(coords, es, tiles, spines)
    ensures Splittable(m, coords, spines)
  {
    forall s | Some(s) in spines
      ensures s.e.u < |coords| && s.f.u < |coords| && (coords[s.e.u].u != 0) != (coords[s.f.u].u != 0)
    {
      var i :| 0 <= i < |spines| && spines[i] == Some(s);
      var e, f := PairOfSpine(coords, es, tiles, spines, i);
    }
  }

  /** Every spine edge is an odd coupler of the graph. */
  lemma ZephyrSpineEdge(coords: seq<Coord>, es: set<Edge>, tiles: seq<Tile>, spines: seq<Option<Spine>>, x: Edge)
    requires ZephyrSpines(coords, es, tiles, spines) && x in SpineEdges(spines)
    ensures x in es && x.u < |coords| && x.v < |coords| && OddPair(coords[x.u], coords[x.v])
  {
    var i :| 0 <= i < |spines| && spines[i].Some? && OnSpine(x, spines[i].value);
    var e, f := PairOfSpine(coords, es, tiles, spines, i);
  }

  lemma ThreeAtNode(coords: seq<Coord>, es: set<Edge>, x: Edge, y: Edge, z: Edge, v: nat)
    requires LatticeGraph(coords, es) && x in es && y in es && z in es && Ends(x, v) && Ends(y, v) && Ends(z, v)
    requires OddPair(coords[x.u], coords[x.v]) && OddPair(coords[y.u], coords[y.v]) && OddPair(coords[z.u], coords[z.v])
    ensures x == y || x == z || y == z
  {
    var a, b, c := Other(x, v), Other(y, v), Other(z, v);
    TwoPartners(coords[v], coords[a], coords[b], coords[c]);
    if coords[a] == coords[b] {
      SameEnd(coords, es, x, y, a, b);
    } else if coords[a] == coords[c] {
      SameEnd(coords, es, x, z, a, c);
    } else {
      SameEnd(coords, es, y, z, b, c);
    }
  }

  /** In Zephyr mode no node has more than two slots, so the slot check never fails there. */
  lemma ZephyrSlots(coords: seq<Coord>, es: set<Edge>, tiles: seq<Tile>, spines: seq<Option<Spine>>, v: nat)
    requires LatticeGraph(coords, es) && ZephyrSpines(coords, es, tiles, spines)
    ensures Slots(tiles, spines, v) <= 2
  {
    NoFreeTiles(coords, es, tiles, spines, v);
    var here := SpineEdgesAt(SpineEdges(spines), v);
    if |here| > 2 {
      var x, y, z := ThreeOf(here);
      ZephyrSpineEdge(coords, es, tiles, spines, x);
      ZephyrSpineEdge(coords, es, tiles, spines, y);
      ZephyrSpineEdge(coords, es, tiles, spines, z);
      ThreeAtNode(coords, es, x, y, z, v);
    }
  }

  lemma NoFreeTiles(coords: seq<Coord>, es: set<Edge>, tiles: seq<Tile>, spines: seq<Option<Spine>>, v: nat)
    requires ZephyrSpines(coords, es, tiles, spines)
    ensures |FreeAt(tiles, spines, |tiles|, v)| == 0
  {
    assert FreeAt(tiles, spines, |tiles|, v) == {};
  }

  lemma ThreeOf<T>(s: set<T>) returns (x: T, y: T, z: T)
    requires |s| > 2
    ensures x in s && y in s && z in s && x != y && x != z && y != z
  {
    x :| x in s;
    assert |s - {x}| > 1;
    y :| y in s - {x};
    assert |s - {x} - {y}| > 0;
    z :| z in s - {x} - {y};
  }
}

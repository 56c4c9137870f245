/** Dense edges, four-node tiles, and spines of the ice structure. */
module IceTypes {
  import opened Common
  import opened Sorting

  /** Positions of two nodes in registration order. A stored edge has `u < v`. */
  datatype Edge = Edge(u: nat, v: nat)

  datatype Tile = Tile(a: nat, b: nat, c: nat, d: nat)

  datatype Spine = Spine(e: Edge, f: Edge)

  /** No instance comes of this nonce. */
  const CODE_NO_INSTANCE: nat := 14

  predicate EdgeLess(x: Edge, y: Edge) {
    x.u < y.u || (x.u == y.u && x.v < y.v)
  }

  predicate TileLess(x: Tile, y: Tile) {
    || x.a < y.a
    || (x.a == y.a && x.b < y.b)
    || (x.a == y.a && x.b == y.b && x.c < y.c)
    || (x.a == y.a && x.b == y.b && x.c == y.c && x.d < y.d)
  }

  /** How lists of numbers compare, as tuples do. */
  predicate ListLess(s: seq<nat>, t: seq<nat>) {
    s != [] && t != [] && (s[0] < t[0] || (s[0] == t[0] && ListLess(s[1..], t[1..])))
  }

  lemma HeadDecides(x: nat, y: nat, s: seq<nat>, t: seq<nat>)
    ensures ListLess([x] + s, [y] + t) <==> x < y || (x == y && ListLess(s, t))
  {
    assert ([x] + s)[1..] == s && ([y] + t)[1..] == t;
  }

  /** Edges and tiles compare as the tuples of their nodes. */
  lemma OrdersAreLexicographic(e: Edge, f: Edge, x: Tile, y: Tile)
    ensures EdgeLess(e, f) <==> ListLess([e.u] + [e.v], [f.u] + [f.v])
    ensures TileLess(x, y) <==> ListLess([x.a] + ([x.b] + ([x.c] + [x.d])), [y.a] + ([y.b] + ([y.c] + [y.d])))
  {
    HeadDecides(e.u, f.u, [e.v], [f.v]);
    HeadDecides(x.a, y.a, [x.b] + ([x.c] + [x.d]), [y.b] + ([y.c] + [y.d]));
    HeadDecides(x.b, y.b, [x.c] + [x.d], [y.c] + [y.d]);
    HeadDecides(x.c, y.c, [x.d], [y.d]);
  }

  lemma EdgeOrder()
    ensures StrictOrder(EdgeLess)
  {
  }

  lemma TileOrder()
    ensures StrictOrder(TileLess)
  {
  }

  function TileNodes(t: Tile): seq<nat> {
    [t.a, t.b, t.c, t.d]
  }

  /** The six node pairs of a tile, in combination order. */
  function TileEdges(t: Tile): seq<Edge> {
    [Edge(t.a, t.b), Edge(t.a, t.c), Edge(t.a, t.d), Edge(t.b, t.c), Edge(t.b, t.d), Edge(t.c, t.d)]
  }

  /** The three perfect matchings of a tile. */
  function Matchings(t: Tile): seq<Spine> {
    [Spine(Edge(t.a, t.b), Edge(t.c, t.d)),
     Spine(Edge(t.a, t.c), Edge(t.b, t.d)),
     Spine(Edge(t.a, t.d), Edge(t.b, t.c))]
  }

  /** The edges are all pairs of nodes, in the order of combinations. */
  lemma EdgesArePairs(t: Tile, e: Edge)
    requires OrderedTile(t)
    ensures e in TileEdges(t) <==> e.u < e.v && e.u in TileNodes(t) && e.v in TileNodes(t)
    ensures Ascending(TileEdges(t), EdgeLess)
  {
  }

  /** The matchings are all splits of the nodes into two edges, the one at the least node first. */
  lemma MatchingsAreSplits(t: Tile, s: Spine)
    requires OrderedTile(t)
    ensures s in Matchings(t) <==>
            && s.e in TileEdges(t) && s.f in TileEdges(t) && s.e.u == t.a
            && s.e.u != s.f.u && s.e.u != s.f.v && s.e.v != s.f.u && s.e.v != s.f.v
    ensures forall i, j :: 0 <= i < j < 3 ==> EdgeLess(Matchings(t)[i].e, Matchings(t)[j].e)
  {
    var m := Matchings(t);
    assert m[0] in m && m[1] in m && m[2] in m;
  }

  predicate OrderedTile(t: Tile) {
    t.a < t.b < t.c < t.d
  }

  predicate OnSpine(e: Edge, s: Spine) {
    e == s.e || e == s.f
  }

  predicate SharesEdge(s: Spine, t: Spine) {
    OnSpine(s.e, t) || OnSpine(s.f, t)
  }

  /** The spine joins `x` and `y`, in either order. */
  predicate Joins(s: Spine, x: Edge, y: Edge) {
    (s.e == x && s.f == y) || (s.e == y && s.f == x)
  }

  /** A list of tiles with a parallel list of spines; a tile without a spine is free. */
  ghost predicate TilesWithSpines(tiles: seq<Tile>, spines: seq<Option<Spine>>) {
    && |tiles| == |spines|
    && Ascending(tiles, TileLess)
    && (forall t :: t in tiles ==> OrderedTile(t))
    && forall i :: 0 <= i < |spines| && spines[i].Some? ==> spines[i].value in Matchings(tiles[i])
  }

  /** `left` and `right` split the spine edges so that every spine has one edge on each side. */
  ghost predicate TwoSided(spines: seq<Option<Spine>>, left: seq<Edge>, right: seq<Edge>) {
    && Distinct(left) && Distinct(right)
    && (forall e :: e in left ==> e !in right)
    && forall i :: 0 <= i < |spines| && spines[i].Some? ==>
         (spines[i].value.e in left && spines[i].value.f in right) ||
         (spines[i].value.f in left && spines[i].value.e in right)
  }

  lemma SpineDeterminesTile(s: Spine, t: Spine, x: Tile, y: Tile)
    requires OrderedTile(x) && OrderedTile(y)
    requires s in Matchings(x) && t in Matchings(y)
    requires Joins(s, t.e, t.f)
    ensures x == y
  {
  }
}

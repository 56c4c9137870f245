/** Sides of the spine graph: breadth-first two-colouring, and the split into left and right. */
module IceSides {
  import opened Common
  import opened Connectivity
  import opened IceTypes
  import opened Sorting

  datatype StructureError =
    | MixedShape
    | DegreeAboveLimit
    | DuplicateEdge
    | NotZephyrNode(id: nat)
    | NotZephyrCoupler(edge: Edge)
    | SpineConflict
    | NoCandidates
    | MembershipAboveTwo(node: nat)
    | NotBipartite

  type Arcs = set<(Edge, Edge)>

  type Colouring = map<Edge, bool>

  /** The spine graph: its vertices are spine edges, and every spine joins its two edges. */
  ghost function SpineArcs(pairs: seq<Spine>): Arcs {
    (set s | s in pairs :: (s.e, s.f)) + (set s | s in pairs :: (s.f, s.e))
  }

  ghost predicate Within(arcs: Arcs, all: set<Edge>) {
    forall a :: a in arcs ==> a.0 in all && a.1 in all
  }

  /** A colouring of `all` that separates the two ends of every arc. */
  ghost predicate Proper(c: Colouring, all: set<Edge>, arcs: Arcs) {
    all <= c.Keys && forall a :: a in arcs ==> a.0 in c && a.1 in c && c[a.0] != c[a.1]
  }

  /** No edge of the component of `e` comes before `e`. */
  ghost predicate LeastOfComponent(e: Edge, arcs: Arcs) {
    forall x :: Connected(arcs, x, e) ==> !EdgeLess(x, e)
  }

  /** The colouring the program fixes: proper, with the least edge of every component on the left. */
  ghost predicate Canonical(c: Colouring, all: set<Edge>, arcs: Arcs) {
    c.Keys == all && Proper(c, all, arcs) && forall e :: e in all && LeastOfComponent(e, arcs) ==> !c[e]
  }

  /** A canonical colouring, and there is no other. */
  ghost predicate OnlyCanonical(c: Colouring, all: set<Edge>, arcs: Arcs) {
    Canonical(c, all, arcs) && forall d :: Canonical(d, all, arcs) ==> d == c
  }

  /** Neighbour lists, each ascending without repeats. */
  ghost predicate NeighboursOf(graph: map<Edge, seq<Edge>>, all: set<Edge>, arcs: Arcs) {
    && graph.Keys == all
    && (forall e, f :: e in all ==> (f in graph[e] <==> (e, f) in arcs))
    && (forall e :: e in all ==> Ascending(graph[e], EdgeLess))
  }

  function Link(graph: map<Edge, seq<Edge>>, e: Edge, f: Edge): map<Edge, seq<Edge>>
    requires e in graph
  {
    graph[e := Insert(f, graph[e], EdgeLess)]
  }

  lemma LinkAddsArc(graph: map<Edge, seq<Edge>>, all: set<Edge>, arcs: Arcs, e: Edge, f: Edge)
    requires NeighboursOf(graph, all, arcs) && e in graph
    ensures NeighboursOf(Link(graph, e, f), all, arcs + {(e, f)})
  {
    EdgeOrder();
    InsertElements(f, graph[e], EdgeLess);
    InsertAscending(f, graph[e], EdgeLess);
  }

  lemma SpineArcsGrow(pairs: seq<Spine>, k: nat)
    requires k < |pairs|
    ensures SpineArcs(pairs[..k + 1]) == SpineArcs(pairs[..k]) + {(pairs[k].e, pairs[k].f)} + {(pairs[k].f, pairs[k].e)}
  {
    PrefixGrows(pairs, k);
  }

  method BuildNeighbours(edges: seq<Edge>, pairs: seq<Spine>) returns (graph: map<Edge, seq<Edge>>)
    requires Within(SpineArcs(pairs), Elements(edges))
    ensures NeighboursOf(graph, Elements(edges), SpineArcs(pairs))
  {
    ghost var all := Elements(edges);
    graph := map e | e in edges :: [];
    for i := 0 to |pairs|
      invariant NeighboursOf(graph, all, SpineArcs(pairs[..i]))
    {
      var s := pairs[i];
      assert (s.e, s.f) in SpineArcs(pairs);
      SpineArcsGrow(pairs, i);
      ghost var arcs := SpineArcs(pairs[..i]);
      LinkAddsArc(graph, all, arcs, s.e, s.f);
      graph := Link(graph, s.e, s.f);
      LinkAddsArc(graph, all, arcs + {(s.e, s.f)}, s.f, s.e);
      graph := Link(graph, s.f, s.e);
    }
    assert pairs[..|pairs|] == pairs;
  }

  // ---- one component ----

  /** Nothing leads out of the colouring, and every arc inside it changes the colour. */
  ghost predicate Settled(colour: Colouring, arcs: Arcs) {
    && ClosedUnder(arcs, colour.Keys)
    && forall a :: a in arcs && a.0 in colour && a.1 in colour ==> colour[a.0] != colour[a.1]
  }

  /** Every proper colouring puts `x` across from `root` exactly when `side` holds. */
  ghost predicate ForcedFrom(root: Edge, x: Edge, side: bool, all: set<Edge>, arcs: Arcs) {
    && x in all && root in all
    && Connected(arcs, root, x)
    && forall c :: Proper(c, all, arcs) ==> (c[x] != c[root]) == side
  }

  lemma ForcedStep(root: Edge, x: Edge, y: Edge, side: bool, all: set<Edge>, arcs: Arcs)
    requires Within(arcs, all) && ForcedFrom(root, x, side, all, arcs) && (x, y) in arcs
    ensures ForcedFrom(root, y, !side, all, arcs)
  {
    ExtendConnection(arcs, root, x, y);
    forall c | Proper(c, all, arcs) ensures c[x] != c[y] {
    }
  }

  /** Two joined edges forced to one side leave no proper colouring. */
  lemma Clash(root: Edge, x: Edge, y: Edge, side: bool, all: set<Edge>, arcs: Arcs)
    requires ForcedFrom(root, x, side, all, arcs) && ForcedFrom(root, y, side, all, arcs) && (x, y) in arcs
    ensures forall c :: !Proper(c, all, arcs)
  {
  }

  /** The walk from `root`: the queue lists everything coloured since `start`, all of it forced. */
  ghost predicate Frontier(root: Edge, start: Colouring, colour: Colouring, queue: seq<Edge>, all: set<Edge>, arcs: Arcs) {
    && Distinct(queue)
    && colour.Keys == start.Keys + Elements(queue)
    && root in queue && !colour[root]
    && Elements(queue) <= all && Elements(queue) !! start.Keys
    && (forall e {:trigger ForcedFrom(root, e, colour[e], all, arcs)} :: e in queue ==> ForcedFrom(root, e, colour[e], all, arcs))
    && (forall e :: e in start ==> colour[e] == start[e])
  }

  /** All arcs out of `e` are coloured, each with a change of side. */
  ghost predicate Scanned(e: Edge, colour: Colouring, arcs: Arcs) {
    e in colour && forall f :: (e, f) in arcs ==> f in colour && colour[f] != colour[e]
  }

  lemma FrontierGrows(root: Edge, start: Colouring, colour: Colouring, queue: seq<Edge>, all: set<Edge>, arcs: Arcs,
                      node: Edge, next: Edge)
    requires Within(arcs, all) && Frontier(root, start, colour, queue, all, arcs)
    requires node in queue && (node, next) in arcs && next !in colour
    ensures Frontier(root, start, colour[next := !colour[node]], queue + [next], all, arcs)
  {
    ForcedStep(root, node, next, colour[node], all, arcs);
    assert next !in queue;
    var grown := colour[next := !colour[node]];
    forall e ensures e in queue + [next] <==> e in queue || e == next {
    }
    assert grown.Keys == start.Keys + Elements(queue + [next]);
  }

  /** A neighbour that already has the side of `node` was reached by this walk, so no proper colouring exists. */
  lemma FrontierClash(root: Edge, start: Colouring, colour: Colouring, queue: seq<Edge>, all: set<Edge>, arcs: Arcs,
                      node: Edge, next: Edge)
    requires Symmetric(arcs) && Settled(start, arcs) && Frontier(root, start, colour, queue, all, arcs)
    requires node in queue && (node, next) in arcs && next in colour && colour[next] == colour[node]
    ensures forall c :: !Proper(c, all, arcs)
  {
    assert next !in start by {
      assert (next, node) in arcs;
    }
    Clash(root, node, next, colour[node], all, arcs);
  }

  lemma FrontierDone(root: Edge, start: Colouring, colour: Colouring, queue: seq<Edge>, all: set<Edge>, arcs: Arcs)
    requires Settled(start, arcs) && Frontier(root, start, colour, queue, all, arcs)
    requires forall k :: 0 <= k < |queue| ==> Scanned(queue[k], colour, arcs)
    ensures Settled(colour, arcs)
  {
    forall a | a in arcs && a.0 in colour ensures a.1 in colour && colour[a.1] != colour[a.0] {
      if a.0 in queue {
        assert Scanned(a.0, colour, arcs);
      }
    }
  }

  lemma QueueFits(root: Edge, start: Colouring, colour: Colouring, queue: seq<Edge>, all: set<Edge>, arcs: Arcs)
    requires Frontier(root, start, colour, queue, all, arcs)
    ensures |queue| <= |all|
  {
    DistinctCard(queue);
    SubsetCard(Elements(queue), all);
  }

  /** Visit the neighbours of the queue entry `node`: colour the new ones, and stop at a clash. */
  method ScanRow(ghost all: set<Edge>, ghost arcs: Arcs, row: seq<Edge>, node: Edge, ghost root: Edge,
                 ghost start: Colouring, was: Colouring, entered: seq<Edge>)
    returns (clash: bool, colour: Colouring, queue: seq<Edge>)
    requires Within(arcs, all) && Symmetric(arcs)
    requires Settled(start, arcs) && Frontier(root, start, was, entered, all, arcs)
    requires node in entered && forall f :: f in row <==> (node, f) in arcs
    ensures clash ==> forall c :: !Proper(c, all, arcs)
    ensures !clash ==> Frontier(root, start, colour, queue, all, arcs) && Scanned(node, colour, arcs)
    ensures entered <= queue && was.Keys <= colour.Keys && forall e :: e in was ==> colour[e] == was[e]
  {
    colour, queue := was, entered;
    for k := 0 to |row|
      invariant entered <= queue && Frontier(root, start, colour, queue, all, arcs)
      invariant was.Keys <= colour.Keys && forall e :: e in was ==> colour[e] == was[e]
      invariant forall j :: 0 <= j < k ==> row[j] in colour && colour[row[j]] != colour[node]
    {
      var next := row[k];
      assert next in row;
      if next !in colour {
        FrontierGrows(root, start, colour, queue, all, arcs, node, next);
        colour := colour[next := !colour[node]];
        queue := queue + [next];
      } else if colour[next] == colour[node] {
        FrontierClash(root, start, colour, queue, all, arcs, node, next);
        return true, colour, queue;
      }
    }
    clash := false;
  }

  /** The walk with the queue scanned up to `head`. */
  ghost predicate Walked(root: Edge, start: Colouring, colour: Colouring, queue: seq<Edge>, head: nat, all: set<Edge>, arcs: Arcs) {
    && head <= |queue| && Frontier(root, start, colour, queue, all, arcs)
    && forall k :: 0 <= k < head ==> Scanned(queue[k], colour, arcs)
  }

  lemma WalkStarts(root: Edge, start: Colouring, all: set<Edge>, arcs: Arcs)
    requires root in all && root !in start
    ensures Walked(root, start, start[root := false], [root], 0, all, arcs)
  {
    ConnectedToSelf(arcs, root);
  }

  lemma WalkSteps(root: Edge, start: Colouring, was: Colouring, entered: seq<Edge>, colour: Colouring, queue: seq<Edge>, head: nat,
                  all: set<Edge>, arcs: Arcs)
    requires Walked(root, start, was, entered, head, all, arcs) && head < |entered|
    requires Frontier(root, start, colour, queue, all, arcs) && Scanned(entered[head], colour, arcs)
    requires entered <= queue && was.Keys <= colour.Keys && forall e :: e in was ==> colour[e] == was[e]
    ensures Walked(root, start, colour, queue, head + 1, all, arcs)
  {
    forall k | 0 <= k < head ensures Scanned(queue[k], colour, arcs) {
      assert Scanned(entered[k], was, arcs);
    }
  }

  lemma WalkEnds(root: Edge, start: Colouring, colour: Colouring, queue: seq<Edge>, all: set<Edge>, arcs: Arcs)
    requires Settled(start, arcs) && Walked(root, start, colour, queue, |queue|, all, arcs)
    ensures Settled(colour, arcs) && root in colour && !colour[root]
    ensures start.Keys <= colour.Keys <= start.Keys + all && forall e :: e in start ==> colour[e] == start[e]
    ensures forall e {:trigger ForcedFrom(root, e, colour[e], all, arcs)} ::
      e in colour && e !in start ==> ForcedFrom(root, e, colour[e], all, arcs)
  {
    FrontierDone(root, start, colour, queue, all, arcs);
  }

  /** Colour everything reachable from `root`, breadth first. */
  method ColourComponent(ghost all: set<Edge>, ghost arcs: Arcs, graph: map<Edge, seq<Edge>>, root: Edge, start: Colouring)
    returns (r: Result<Colouring, StructureError>)
    requires Within(arcs, all) && Symmetric(arcs) && NeighboursOf(graph, all, arcs)
    requires root in all && root !in start && Settled(start, arcs)
    ensures r.Ok? ==> Settled(r.value, arcs) && root in r.value && !r.value[root]
    ensures r.Ok? ==> start.Keys <= r.value.Keys <= start.Keys + all && forall e :: e in start ==> r.value[e] == start[e]
    ensures r.Ok? ==> forall e {:trigger ForcedFrom(root, e, r.value[e], all, arcs)} ::
      e in r.value && e !in start ==> ForcedFrom(root, e, r.value[e], all, arcs)
    ensures r.Err? ==> r.error == NotBipartite && forall c :: !Proper(c, all, arcs)
  {
    var colour := start[root := false];
    var queue := [root];
    var head := 0;
    WalkStarts(root, start, all, arcs);
    while head < |queue|
      invariant Walked(root, start, colour, queue, head, all, arcs) == true
      decreases |all| - head
    {
      QueueFits(root, start, colour, queue, all, arcs);
      ghost var was, entered := colour, queue;
      assert queue[head] in queue;
      var clash;
      clash, colour, queue := ScanRow(all, arcs, graph[queue[head]], queue[head], root, start, colour, queue);
      if clash {
        return Err(NotBipartite);
      }
      WalkSteps(root, start, was, entered, colour, queue, head, all, arcs);
      head := head + 1;
    }
    WalkEnds(root, start, colour, queue, all, arcs);
    return Ok(colour);
  }

  // ---- all components ----

  ghost predicate RootOf(root: Edge, e: Edge, side: bool, all: set<Edge>, arcs: Arcs) {
    && ForcedFrom(root, e, side, all, arcs)
    && !EdgeLess(e, root)
    && LeastOfComponent(root, arcs)
    && (e == root ==> !side)
  }

  /** `roots` names, for every coloured edge, the edge its walk started from. */
  ghost predicate Rooted(colour: Colouring, roots: map<Edge, Edge>, all: set<Edge>, arcs: Arcs) {
    && roots.Keys == colour.Keys
    && forall e {:trigger RootOf(roots[e], e, colour[e], all, arcs)} :: e in colour ==> RootOf(roots[e], e, colour[e], all, arcs)
  }

  lemma EndpointListed(all: set<Edge>, arcs: Arcs, x: Edge, y: Edge)
    requires Within(arcs, all) && y in all && Connected(arcs, x, y)
    ensures x in all
  {
    var p :| IsPath(arcs, p) && p[0] == x && p[|p| - 1] == y;
    if |p| > 1 {
      assert (p[0], p[1]) in arcs;
    }
  }

  /** A root is the least edge of its component, because everything before it is in closed components. */
  lemma RootIsLeast(edges: seq<Edge>, arcs: Arcs, start: Colouring, i: nat)
    requires Ascending(edges, EdgeLess) && Within(arcs, Elements(edges)) && i < |edges|
    requires forall k :: 0 <= k < i ==> edges[k] in start
    requires Settled(start, arcs) && edges[i] !in start
    ensures LeastOfComponent(edges[i], arcs)
  {
    forall x | Connected(arcs, x, edges[i]) ensures !EdgeLess(x, edges[i]) {
      EndpointListed(Elements(edges), arcs, x, edges[i]);
      var k :| 0 <= k < |edges| && edges[k] == x;
      if k < i {
        StaysInside(arcs, start.Keys, x, edges[i]);
      } else {
        EdgeOrder();
        assert k == i || EdgeLess(edges[i], edges[k]);
      }
    }
  }

  lemma ComponentRooted(edges: seq<Edge>, arcs: Arcs, start: Colouring, roots: map<Edge, Edge>, colour: Colouring, i: nat)
    returns (grown: map<Edge, Edge>)
    requires Ascending(edges, EdgeLess) && i < |edges| && Rooted(start, roots, Elements(edges), arcs)
    requires start.Keys <= colour.Keys && forall e :: e in start ==> colour[e] == start[e]
    requires forall k :: 0 <= k < i ==> edges[k] in start
    requires colour.Keys <= Elements(edges) && edges[i] in colour && !colour[edges[i]] && LeastOfComponent(edges[i], arcs)
    requires forall e {:trigger ForcedFrom(edges[i], e, colour[e], Elements(edges), arcs)} ::
      e in colour && e !in start ==> ForcedFrom(edges[i], e, colour[e], Elements(edges), arcs)
    ensures Rooted(colour, grown, Elements(edges), arcs)
  {
    grown := map e | e in colour :: if e in start then roots[e] else edges[i];
    forall e | e in colour ensures RootOf(grown[e], e, colour[e], Elements(edges), arcs) {
      if e in start {
        assert RootOf(roots[e], e, start[e], Elements(edges), arcs);
      } else {
        EdgeOrder();
        var k :| 0 <= k < |edges| && edges[k] == e;
        assert k >= i;
        assert k == i || EdgeLess(edges[i], edges[k]);
      }
    }
  }

  lemma LeastIsLeft(e: Edge, root: Edge, side: bool, all: set<Edge>, arcs: Arcs)
    requires RootOf(root, e, side, all, arcs) && LeastOfComponent(e, arcs)
    ensures !side
  {
    assert Connected(arcs, root, e);
    assert root == e;
  }

  /** A colouring grown from least edges is canonical. */
  lemma RootedIsCanonical(colour: Colouring, roots: map<Edge, Edge>, all: set<Edge>, arcs: Arcs)
    requires Within(arcs, all) && Settled(colour, arcs) && colour.Keys == all
    requires Rooted(colour, roots, all, arcs)
    ensures Canonical(colour, all, arcs)
  {
    forall e | e in all && LeastOfComponent(e, arcs) ensures !colour[e] {
      assert RootOf(roots[e], e, colour[e], all, arcs);
      LeastIsLeft(e, roots[e], colour[e], all, arcs);
    }
  }

  /** No other colouring is canonical. */
  lemma CanonicalUnique(colour: Colouring, roots: map<Edge, Edge>, c: Colouring, all: set<Edge>, arcs: Arcs)
    requires colour.Keys == all && Rooted(colour, roots, all, arcs) && Canonical(c, all, arcs)
    ensures c == colour
  {
    forall e | e in all ensures c[e] == colour[e] {
      assert RootOf(roots[e], e, colour[e], all, arcs);
      assert !c[roots[e]];
    }
  }

  method TwoColour(edges: seq<Edge>, pairs: seq<Spine>) returns (r: Result<Colouring, StructureError>)
    requires Ascending(edges, EdgeLess) && Within(SpineArcs(pairs), Elements(edges))
    ensures r.Ok? ==> OnlyCanonical(r.value, Elements(edges), SpineArcs(pairs))
    ensures r.Err? ==> r.error == NotBipartite && forall c :: !Proper(c, Elements(edges), SpineArcs(pairs))
  {
    var graph := BuildNeighbours(edges, pairs);
    r := ColourAll(edges, SpineArcs(pairs), graph);
  }

  method ColourAll(edges: seq<Edge>, ghost arcs: Arcs, graph: map<Edge, seq<Edge>>) returns (r: Result<Colouring, StructureError>)
    requires Ascending(edges, EdgeLess) && Within(arcs, Elements(edges)) && Symmetric(arcs)
    requires NeighboursOf(graph, Elements(edges), arcs)
    ensures r.Ok? ==> OnlyCanonical(r.value, Elements(edges), arcs)
    ensures r.Err? ==> r.error == NotBipartite && forall c :: !Proper(c, Elements(edges), arcs)
  {
    ghost var all := Elements(edges);
    var colour: Colouring := map[];
    ghost var roots: map<Edge, Edge> := map[];
    for i := 0 to |edges|
      invariant colour.Keys <= all && forall k :: 0 <= k < i ==> edges[k] in colour
      invariant Settled(colour, arcs)
      invariant Rooted(colour, roots, all, arcs)
    {
      if edges[i] !in colour {
        RootIsLeast(edges, arcs, colour, i);
        var next := ColourComponent(all, arcs, graph, edges[i], colour);
        if next.Err? {
          return next;
        }
        roots := ComponentRooted(edges, arcs, colour, roots, next.value, i);
        colour := next.value;
      }
    }
    RootedIsCanonical(colour, roots, all, arcs);
    forall c | Canonical(c, all, arcs) ensures c == colour {
      CanonicalUnique(colour, roots, c, all, arcs);
    }
    return Ok(colour);
  }
}

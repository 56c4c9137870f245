/** Potentials by breadth-first walks over linked tiles. */
module GaugeWalk {
  import opened Common
  import opened Connectivity
  import opened GaugeLinks
  import opened Sorting
  import opened WalkOrder

  type Row = seq<Neighbour>

  type Arcs = set<(nat, nat)>

  ghost predicate LinksFit(links: seq<Link>, n: nat) {
    forall k :: 0 <= k < |links| ==> links[k].a < n && links[k].b < n && IsSign(links[k].relation)
  }

  /** Tiles next to each other through some link. */
  ghost function LinkArcs(links: seq<Link>): Arcs {
    (set l | l in links :: (l.a, l.b)) + (set l | l in links :: (l.b, l.a))
  }

  lemma JoinedArcs(links: seq<Link>, x: nat, y: nat)
    ensures (x, y) in LinkArcs(links) <==> exists r :: Joined(links, x, y, r)
  {
    if (x, y) in LinkArcs(links) {
      var l :| l in links && ((l.a, l.b) == (x, y) || (l.b, l.a) == (x, y));
      var k :| 0 <= k < |links| && links[k] == l;
      assert LinkJoins(links[k], x, y, l.relation);
      assert Joined(links, x, y, l.relation);
    }
    if r :| Joined(links, x, y, r) {
      var k :| 0 <= k < |links| && LinkJoins(links[k], x, y, r);
      assert links[k] in links;
    }
  }

  ghost predicate RowsOf(rows: seq<Row>, links: seq<Link>) {
    forall x: nat, y: nat, r: int :: x < |rows| ==> (Neighbour(y, r) in rows[x] <==> Joined(links, x, y, r))
  }

  function AddToRow(rows: seq<Row>, x: nat, p: Neighbour): seq<Row>
    requires x < |rows|
  {
    rows[x := rows[x] + [p]]
  }

  lemma RowGrows(rows: seq<Row>, links: seq<Link>, l: Link)
    requires RowsOf(rows, links) && l.a < |rows| && l.b < |rows|
    ensures RowsOf(AddToRow(AddToRow(rows, l.a, Neighbour(l.b, l.relation)), l.b, Neighbour(l.a, l.relation)), links + [l])
  {
    var more := AddToRow(AddToRow(rows, l.a, Neighbour(l.b, l.relation)), l.b, Neighbour(l.a, l.relation));
    forall x: nat, y: nat, r: int | x < |rows| ensures Neighbour(y, r) in more[x] <==> Joined(links + [l], x, y, r) {
      JoinedPush(links, l, x, y, r);
    }
  }

  lemma JoinedPush(links: seq<Link>, l: Link, x: nat, y: nat, r: int)
    ensures Joined(links + [l], x, y, r) <==> Joined(links, x, y, r) || LinkJoins(l, x, y, r)
  {
    var more := links + [l];
    assert more[|links|] == l;
    if Joined(links, x, y, r) {
      var k :| 0 <= k < |links| && LinkJoins(links[k], x, y, r);
      assert more[k] == links[k];
    }
    if Joined(more, x, y, r) {
      var k :| 0 <= k < |more| && LinkJoins(more[k], x, y, r);
      assert k < |links| ==> links[k] == more[k];
    }
  }

  method BuildRows(n: nat, links: seq<Link>) returns (rows: seq<Row>)
    requires LinksFit(links, n)
    ensures |rows| == n && RowsOf(rows, links)
  {
    rows := seq(n, _ => []);
    for k := 0 to |links|
      invariant |rows| == n && RowsOf(rows, links[..k])
    {
      PrefixGrows(links, k);
      RowGrows(rows, links[..k], links[k]);
      rows := AddToRow(rows, links[k].a, Neighbour(links[k].b, links[k].relation));
      rows := AddToRow(rows, links[k].b, Neighbour(links[k].a, links[k].relation));
    }
    assert links[..|links|] == links;
  }

  // ---- potentials ----

  ghost predicate IsPotential(pot: seq<int>) {
    forall x :: 0 <= x < |pot| ==> pot[x] == 0 || IsSign(pot[x])
  }

  ghost function Visited(pot: seq<int>): set<nat> {
    set x | 0 <= x < |pot| && pot[x] != 0
  }

  /** Every consistent choice of tile signs puts `side` between `root` and `x`. */
  ghost predicate Forced(links: seq<Link>, arcs: Arcs, root: nat, x: nat, side: int, n: nat) {
    && root < n && x < n && IsSign(side)
    && Connected(arcs, root, x)
    && forall c :: Consistent(c, links) && |c| == n ==> c[x] * c[root] == side
  }

  lemma SignChain(x: int, y: int, root: int, r: int, side: int)
    requires IsSign(x) && IsSign(y) && IsSign(root) && x * root == side && x * y == r
    ensures y * root == side * r && IsSign(side * r)
  {
  }

  lemma ConsistentJoin(c: seq<int>, links: seq<Link>, x: nat, y: nat, r: int)
    requires Consistent(c, links) && Joined(links, x, y, r)
    ensures x < |c| && y < |c| && c[x] * c[y] == r
  {
    var k :| 0 <= k < |links| && LinkJoins(links[k], x, y, r);
    assert links[k] in links;
  }

  lemma ForcedStep(links: seq<Link>, arcs: Arcs, root: nat, x: nat, y: nat, r: int, side: int, n: nat)
    requires Forced(links, arcs, root, x, side, n) && y < n && IsSign(r)
    requires Joined(links, x, y, r) && (x, y) in arcs
    ensures Forced(links, arcs, root, y, side * r, n)
  {
    ExtendConnection(arcs, root, x, y);
    SignTimesSign(side, r);
    forall c | Consistent(c, links) && |c| == n ensures c[y] * c[root] == side * r {
      ConsistentJoin(c, links, x, y, r);
      SignChain(c[x], c[y], c[root], r, side);
    }
  }

  ghost predicate Holds(l: Link, pot: seq<int>) {
    l.a < |pot| && l.b < |pot| && pot[l.a] != 0 && pot[l.b] != 0 && pot[l.a] * pot[l.b] == l.relation
  }

  /** The links through which the walks reached a new tile: one for every visited tile that is no root. */
  ghost predicate TreeOf(links: seq<Link>, pot: seq<int>, tree: set<nat>, roots: nat) {
    && (forall k :: k in tree ==> k < |links| && Holds(links[k], pot))
    && |tree| + roots == |Visited(pot)|
  }

  lemma VisitOne(pot: seq<int>, y: nat, value: int)
    requires y < |pot| && pot[y] == 0 && value != 0
    ensures Visited(pot[y := value]) == Visited(pot) + {y}
    ensures |Visited(pot[y := value])| == |Visited(pot)| + 1
  {
    assert Visited(pot[y := value]) == Visited(pot) + {y};
  }

  lemma TreeGrows(links: seq<Link>, pot: seq<int>, tree: set<nat>, roots: nat, x: nat, y: nat, r: int, k: nat)
    requires TreeOf(links, pot, tree, roots)
    requires x < |pot| && y < |pot| && IsSign(pot[x]) && pot[y] == 0 && IsSign(r)
    requires k < |links| && LinkJoins(links[k], x, y, r)
    ensures TreeOf(links, pot[y := pot[x] * r], tree + {k}, roots)
  {
    SignTimesSign(pot[x], r);
    VisitOne(pot, y, pot[x] * r);
    assert k !in tree;
  }

  /** The walk from `root`: `pending` is the queue, `done` the tiles already scanned. */
  ghost predicate Walk(root: nat, was: seq<int>, pot: seq<int>, pending: seq<nat>, done: set<nat>) {
    && |was| == |pot| && root < |was| && was[root] == 0 && pot[root] == 1
    && IsPotential(pot)
    && (forall x :: 0 <= x < |was| && was[x] != 0 ==> pot[x] == was[x])
    && Distinct(pending)
    && (forall x :: x in done ==> x !in pending && x < |pot| && was[x] == 0 && pot[x] != 0)
    && (forall x :: x in pending ==> x < |pot| && was[x] == 0 && pot[x] != 0)
    && forall x: nat :: x < |pot| && was[x] == 0 && pot[x] != 0 ==> x in done || x in pending
  }

  ghost predicate AllForced(links: seq<Link>, arcs: Arcs, root: nat, was: seq<int>, pot: seq<int>)
    requires |was| == |pot|
  {
    forall x {:trigger Forced(links, arcs, root, x, pot[x], |pot|)} :: 0 <= x < |pot| && was[x] == 0 && pot[x] != 0 ==>
      Forced(links, arcs, root, x, pot[x], |pot|)
  }

  lemma WalkGrows(root: nat, was: seq<int>, pot: seq<int>, pending: seq<nat>, done: set<nat>, y: nat, value: int)
    requires Walk(root, was, pot, pending, done) && y < |pot| && pot[y] == 0 && IsSign(value)
    ensures Walk(root, was, pot[y := value], pending + [y], done)
  {
    assert y !in pending && y !in done && was[y] == 0;
    assert forall x :: x in pending + [y] <==> x in pending || x == y;
  }

  lemma ForcedGrows(links: seq<Link>, arcs: Arcs, root: nat, was: seq<int>, pot: seq<int>, x: nat, y: nat, r: int)
    requires |was| == |pot| && AllForced(links, arcs, root, was, pot)
    requires x < |pot| && was[x] == 0 && pot[x] != 0 && y < |pot| && IsSign(r)
    requires Joined(links, x, y, r) && (x, y) in arcs
    ensures AllForced(links, arcs, root, was, pot[y := pot[x] * r])
  {
    assert Forced(links, arcs, root, x, pot[x], |pot|);
    ForcedStep(links, arcs, root, x, y, r, pot[x], |pot|);
    var more := pot[y := pot[x] * r];
    forall z | 0 <= z < |more| && was[z] == 0 && more[z] != 0 ensures Forced(links, arcs, root, z, more[z], |more|) {
      if z != y {
        assert Forced(links, arcs, root, z, pot[z], |pot|);
      }
    }
  }

  /** Everything the walk keeps while rows are scanned. */
  ghost predicate Searching(links: seq<Link>, arcs: Arcs, root: nat, was: seq<int>, pot: seq<int>, pending: seq<nat>,
                            done: set<nat>, tree: set<nat>, roots: nat) {
    Walk(root, was, pot, pending, done) && AllForced(links, arcs, root, was, pot) && TreeOf(links, pot, tree, roots)
  }

  lemma Reach(links: seq<Link>, arcs: Arcs, root: nat, was: seq<int>, pot: seq<int>, pending: seq<nat>,
              done: set<nat>, tree: set<nat>, roots: nat, x: nat, y: nat, r: int) returns (k: nat)
    requires LinksFit(links, |pot|) && Searching(links, arcs, root, was, pot, pending, done, tree, roots)
    requires x < |pot| && was[x] == 0 && pot[x] != 0 && y < |pot| && pot[y] == 0
    requires Joined(links, x, y, r) && (x, y) in arcs
    ensures Searching(links, arcs, root, was, pot[y := pot[x] * r], pending + [y], done, tree + {k}, roots)
    ensures pot[x] * r != 0
  {
    k :| 0 <= k < |links| && LinkJoins(links[k], x, y, r);
    SignTimesSign(pot[x], r);
    WalkGrows(root, was, pot, pending, done, y, pot[x] * r);
    ForcedGrows(links, arcs, root, was, pot, x, y, r);
    TreeGrows(links, pot, tree, roots, x, y, r, k);
  }

  /** Potentials already given stay. */
  ghost predicate Keeps(start: seq<int>, pot: seq<int>) {
    |pot| == |start| && forall z :: 0 <= z < |start| && start[z] != 0 ==> pot[z] == start[z]
  }

  /** The potentials after the first `i` neighbours have been visited. */
  ghost predicate Scanning(start: seq<int>, sorted: seq<Neighbour>, i: nat, pot: seq<int>) {
    && Keeps(start, pot) && i <= |sorted|
    && forall k :: 0 <= k < i ==> sorted[k].tile < |pot| && pot[sorted[k].tile] != 0
  }

  lemma ScanStep(start: seq<int>, sorted: seq<Neighbour>, i: nat, before: seq<int>, pot: seq<int>)
    requires Scanning(start, sorted, i, before) && i < |sorted| && Keeps(before, pot)
    requires sorted[i].tile < |pot| && pot[sorted[i].tile] != 0
    ensures Scanning(start, sorted, i + 1, pot)
  {
  }

  /** Visit the neighbours of `x`: give each new one the potential its relation asks for. */
  method ScanRow(ghost links: seq<Link>, ghost arcs: Arcs, row: Row, x: nat, ghost root: nat, ghost was: seq<int>,
                 start: seq<int>, queue: seq<nat>, ghost done: set<nat>, ghost tree: set<nat>, ghost roots: nat)
    returns (pot: seq<int>, pending: seq<nat>, ghost grown: set<nat>)
    requires LinksFit(links, |start|) && Searching(links, arcs, root, was, start, queue, done, tree, roots)
    requires x in done && x < |start|
    requires forall p :: p in row ==> p.tile < |start| && Joined(links, x, p.tile, p.relation) && (x, p.tile) in arcs
    ensures Searching(links, arcs, root, was, pot, pending, done, grown, roots)
    ensures Front(pot, pending) == Visit(Front(start, queue), x, SortDistinct(row, NeighbourLess))
    ensures Keeps(start, pot)
    ensures forall p :: p in row ==> p.tile < |pot| && pot[p.tile] != 0
  {
    pot, pending, grown := start, queue, tree;
    // A repeated (tile, relation) pair finds its tile visited, so dropping repeats changes nothing.
    var sorted := SortDistinct(row, NeighbourLess);
    SortElements(row, NeighbourLess);
    for i := 0 to |sorted|
      invariant Searching(links, arcs, root, was, pot, pending, done, grown, roots) == true
      invariant Scanning(start, sorted, i, pot) == true
      invariant Front(pot, pending) == Visit(Front(start, queue), x, sorted[..i])
    {
      assert sorted[i] in sorted;
      var Neighbour(y, r) := sorted[i];
      ghost var before := pot;
      VisitNext(Front(start, queue), x, sorted, i, pot, pending);
      if pot[y] == 0 {
        ghost var k := Reach(links, arcs, root, was, pot, pending, done, grown, roots, x, y, r);
        grown := grown + {k};
        pending := pending + [y];
        pot := pot[y := pot[x] * r];
      }
      ScanStep(start, sorted, i, before, pot);
    }
    assert sorted[..|sorted|] == sorted;
    forall p | p in row ensures p.tile < |pot| && pot[p.tile] != 0 {
      assert p in sorted;
    }
  }

  /** All neighbours of `x` have a potential. */
  ghost predicate Scanned(rows: seq<Row>, x: nat, pot: seq<int>) {
    x < |rows| && forall p :: p in rows[x] ==> p.tile < |pot| && pot[p.tile] != 0
  }

  /** The visited tiles have no neighbour outside. */
  ghost predicate Closed(rows: seq<Row>, pot: seq<int>) {
    |rows| == |pot| && forall x :: 0 <= x < |pot| && pot[x] != 0 ==> Scanned(rows, x, pot)
  }

  ghost predicate RowsFit(rows: seq<Row>, links: seq<Link>, arcs: Arcs) {
    forall x, p :: 0 <= x < |rows| && p in rows[x] ==> p.tile < |rows| && Joined(links, x, p.tile, p.relation) && (x, p.tile) in arcs
  }

  lemma FreshWalk(links: seq<Link>, arcs: Arcs, start: nat, was: seq<int>, tree: set<nat>, roots: nat)
    requires start < |was| && was[start] == 0 && IsPotential(was) && TreeOf(links, was, tree, roots)
    ensures Searching(links, arcs, start, was, was[start := 1], [start], {}, tree, roots + 1)
  {
    VisitOne(was, start, 1);
    ConnectedToSelf(arcs, start);
    forall x | 0 <= x < |was| && was[x] == 0 && was[start := 1][x] != 0
      ensures Forced(links, arcs, start, x, was[start := 1][x], |was|)
    {
      forall c | Consistent(c, links) && |c| == |was| ensures c[start] * c[start] == 1 {
      }
    }
  }

  /** The first in the queue has been scanned; it moves from the queue to the finished tiles. */
  lemma PopWalk(root: nat, was: seq<int>, pot: seq<int>, pending: seq<nat>, done: set<nat>)
    requires Walk(root, was, pot, pending, done) && pending != []
    ensures Walk(root, was, pot, pending[1..], done + {pending[0]})
    ensures pending[0] !in done && pending[0] < |pot|
  {
    assert pending == [pending[0]] + pending[1..];
    assert forall x :: x in pending <==> x == pending[0] || x in pending[1..];
  }

  lemma DoneBelow(root: nat, was: seq<int>, pot: seq<int>, pending: seq<nat>, done: set<nat>)
    requires Walk(root, was, pot, pending, done)
    ensures |done| <= |pot|
  {
    SubsetCard(done, Below(|pot|));
  }

  /** Give a potential to everything linked to `start`. */
  method WalkFrom(ghost links: seq<Link>, ghost arcs: Arcs, rows: seq<Row>, start: nat, was: seq<int>,
                  ghost tree: set<nat>, ghost roots: nat) returns (pot: seq<int>, ghost grown: set<nat>)
    requires LinksFit(links, |was|) && |rows| == |was| && RowsFit(rows, links, arcs) && RowsOf(rows, links)
    requires start < |was| && was[start] == 0 && IsPotential(was) && Closed(rows, was) && TreeOf(links, was, tree, roots)
    ensures |pot| == |was| && IsPotential(pot) && Closed(rows, pot) && pot[start] == 1
    ensures forall x :: 0 <= x < |was| && was[x] != 0 ==> pot[x] == was[x]
    ensures AllForced(links, arcs, start, was, pot) && TreeOf(links, pot, grown, roots + 1)
    ensures WalksTo(links, start, was, pot)
  {
    pot := was[start := 1];
    var pending := [start];
    ghost var done: set<nat> := {};
    grown := tree;
    ghost var fronts := [Front(pot, pending)];
    FreshWalk(links, arcs, start, was, tree, roots);
    while pending != []
      invariant Searching(links, arcs, start, was, pot, pending, done, grown, roots + 1)
      invariant forall x :: x in done ==> Scanned(rows, x, pot)
      invariant Walking(links, start, was, fronts, pot, pending) == true
      decreases |pot| - |done|
    {
      var current := pending[0];
      PopWalk(start, was, pot, pending, done);
      ghost var before := done;
      done := done + {current};
      DoneBelow(start, was, pot, pending[1..], done);
      ghost var old_, queue := pot, pending;
      SortedRow(rows, links, current);
      pot, pending, grown := ScanRow(links, arcs, rows[current], current, start, was, pot, pending[1..], done, grown, roots + 1);
      StillScanned(rows, before, old_, pot);
      fronts := WalkOn(links, start, was, fronts, old_, queue, SortDistinct(rows[current], NeighbourLess), Front(pot, pending));
    }
    WalkDone(rows, start, was, pot, done);
    assert Walks(links, start, was, fronts);
  }

  lemma SortedRow(rows: seq<Row>, links: seq<Link>, x: nat)
    requires RowsOf(rows, links) && x < |rows|
    ensures WalkOrder.NeighboursOf(links, x, SortDistinct(rows[x], NeighbourLess))
  {
    NeighbourOrder();
    SortAscending(rows[x], NeighbourLess);
  }

  lemma StillScanned(rows: seq<Row>, done: set<nat>, was: seq<int>, pot: seq<int>)
    requires |was| == |pot| && forall x :: 0 <= x < |was| && was[x] != 0 ==> pot[x] == was[x]
    requires forall x :: x in done ==> Scanned(rows, x, was)
    ensures forall x :: x in done ==> Scanned(rows, x, pot)
  {
  }

  lemma WalkDone(rows: seq<Row>, root: nat, was: seq<int>, pot: seq<int>, done: set<nat>)
    requires Walk(root, was, pot, [], done) && Closed(rows, was)
    requires forall x :: x in done ==> Scanned(rows, x, pot)
    ensures Closed(rows, pot)
  {
    forall x | 0 <= x < |pot| && pot[x] != 0 ensures Scanned(rows, x, pot) {
      if was[x] != 0 {
        assert Scanned(rows, x, was);
      }
    }
  }
}

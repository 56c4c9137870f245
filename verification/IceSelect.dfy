/** `select`: every free tile, and a maximum matching of the spine tiles. */
module IceSelect {
  import opened AlternatingPaths
  import opened Common
  import opened IceTypes
  import opened Matching
  import opened Sorting

  /** Tiles in the selection that have a spine, by position. */
  ghost function SpinePicks(tiles: seq<Tile>, spines: seq<Option<Spine>>, chosen: seq<Tile>): set<nat>
    requires |tiles| == |spines|
  {
    set i | 0 <= i < |tiles| && spines[i].Some? && tiles[i] in chosen
  }

  /** Spine tiles that use every spine edge at most once. */
  ghost predicate Compatible(spines: seq<Option<Spine>>, picks: set<nat>) {
    && (forall i :: i in picks ==> i < |spines| && spines[i].Some?)
    && forall i, j :: i in picks && j in picks && i != j ==> !SharesEdge(spines[i].value, spines[j].value)
  }

  /** What the selection promises whatever the orders were. */
  ghost predicate Selects(tiles: seq<Tile>, spines: seq<Option<Spine>>, chosen: seq<Tile>) {
    && |tiles| == |spines|
    && Ascending(chosen, TileLess)
    && (forall t :: t in chosen ==> t in tiles)
    && (forall i :: 0 <= i < |tiles| && spines[i].None? ==> tiles[i] in chosen)
    && Compatible(spines, SpinePicks(tiles, spines, chosen))
  }

  ghost predicate Largest(tiles: seq<Tile>, spines: seq<Option<Spine>>, chosen: seq<Tile>)
    requires |tiles| == |spines|
  {
    forall picks :: Compatible(spines, picks) ==> |picks| <= |SpinePicks(tiles, spines, chosen)|
  }

  /** Tile `i` has a spine between left edge `p.0` and right edge `p.1`. */
  ghost predicate TileAt(spines: seq<Option<Spine>>, left: seq<Edge>, right: seq<Edge>, i: nat, p: (nat, nat)) {
    i < |spines| && spines[i].Some? && p.0 < |left| && p.1 < |right| && Joins(spines[i].value, left[p.0], right[p.1])
  }

  /** The table from vertex pairs to tiles, over the first `n` tiles. */
  ghost predicate TileTable(tiles: seq<Tile>, spines: seq<Option<Spine>>, left: seq<Edge>, right: seq<Edge>,
                            n: nat, tileOf: map<(nat, nat), Tile>)
    requires n <= |tiles| == |spines|
  {
    && (forall p :: p in tileOf ==> exists i :: 0 <= i < n && TileAt(spines, left, right, i, p))
    && (forall i, p :: 0 <= i < n && TileAt(spines, left, right, i, p) ==> p in tileOf && tileOf[p] == tiles[i])
  }

  ghost predicate AdjacencyOf(tileOf: map<(nat, nat), Tile>, adj: seq<seq<nat>>) {
    && (forall l, r :: 0 <= l < |adj| && r in adj[l] ==> (l, r) in tileOf)
    && (forall p :: p in tileOf ==> p.0 < |adj| && p.1 in adj[p.0])
  }

  /** A spine has exactly one place between the sides. */
  lemma OnePlace(spines: seq<Option<Spine>>, left: seq<Edge>, right: seq<Edge>, i: nat, p: (nat, nat), q: (nat, nat))
    requires TwoSided(spines, left, right)
    requires TileAt(spines, left, right, i, p) && TileAt(spines, left, right, i, q)
    ensures p == q
  {
    assert left[p.0] in left && left[q.0] in left && right[p.1] in right && right[q.1] in right;
  }

  /** Two tiles at one place, or sharing a spine edge, meet in a vertex of the spine graph. */
  lemma SharedVertex(tiles: seq<Tile>, spines: seq<Option<Spine>>, left: seq<Edge>, right: seq<Edge>,
                     i: nat, j: nat, p: (nat, nat), q: (nat, nat))
    requires TilesWithSpines(tiles, spines) && TwoSided(spines, left, right)
    requires TileAt(spines, left, right, i, p) && TileAt(spines, left, right, j, q)
    ensures SharesEdge(spines[i].value, spines[j].value) <==> p.0 == q.0 || p.1 == q.1
    ensures p == q ==> i == j
  {
    assert left[p.0] in left && left[q.0] in left && right[p.1] in right && right[q.1] in right;
    if p == q {
      assert tiles[i] in tiles && tiles[j] in tiles;
      SpineDeterminesTile(spines[i].value, spines[j].value, tiles[i], tiles[j]);
      TileOrder();
      AscendingDistinct(tiles, TileLess);
    }
  }

  ghost function Place(spines: seq<Option<Spine>>, left: seq<Edge>, right: seq<Edge>, i: nat): (p: (nat, nat))
    requires TwoSided(spines, left, right) && i < |spines| && spines[i].Some?
    ensures TileAt(spines, left, right, i, p)
  {
    var s := spines[i].value;
    var x, y := if s.e in left then s.e else s.f, if s.e in left then s.f else s.e;
    var l :| 0 <= l < |left| && left[l] == x;
    var r :| 0 <= r < |right| && right[r] == y;
    (l, r)
  }

  /** The tiles that a matching picks. */
  ghost predicate PickedBy(own: Owner, tileOf: map<(nat, nat), Tile>, t: Tile) {
    exists r :: 0 <= r < |own| && own[r].Some? && (own[r].value, r) in tileOf && tileOf[(own[r].value, r)] == t
  }

  ghost predicate Outcome(tiles: seq<Tile>, spines: seq<Option<Spine>>, tileOf: map<(nat, nat), Tile>,
                          own: Owner, chosen: seq<Tile>)
    requires |tiles| == |spines|
  {
    && Ascending(chosen, TileLess)
    && (forall i :: 0 <= i < |tiles| && spines[i].None? ==> tiles[i] in chosen)
    && (forall r :: 0 <= r < |own| && own[r].Some? ==>
          (own[r].value, r) in tileOf && tileOf[(own[r].value, r)] in chosen)
    && (forall t :: t in chosen ==> PickedBy(own, tileOf, t) || exists i :: 0 <= i < |tiles| && spines[i].None? && tiles[i] == t)
  }

  /** A chosen spine tile sits at a matched place. */
  lemma ChosenPlace(tiles: seq<Tile>, spines: seq<Option<Spine>>, left: seq<Edge>, right: seq<Edge>,
                    tileOf: map<(nat, nat), Tile>, own: Owner, i: nat) returns (r: nat)
    requires |tiles| == |spines| && Distinct(tiles) && i < |tiles|
    requires TileTable(tiles, spines, left, right, |tiles|, tileOf) && PickedBy(own, tileOf, tiles[i])
    ensures r < |own| && own[r].Some? && TileAt(spines, left, right, i, (own[r].value, r))
  {
    r :| 0 <= r < |own| && own[r].Some? && (own[r].value, r) in tileOf && tileOf[(own[r].value, r)] == tiles[i];
    var p := (own[r].value, r);
    var j :| 0 <= j < |tiles| && TileAt(spines, left, right, j, p);
    assert tiles[j] == tiles[i];
  }

  lemma PickIsMatched(tiles: seq<Tile>, spines: seq<Option<Spine>>, tileOf: map<(nat, nat), Tile>,
                      own: Owner, chosen: seq<Tile>, i: nat)
    requires |tiles| == |spines| && Distinct(tiles)
    requires Outcome(tiles, spines, tileOf, own, chosen) && i in SpinePicks(tiles, spines, chosen)
    ensures PickedBy(own, tileOf, tiles[i])
  {
  }

  lemma OutcomeSelects(tiles: seq<Tile>, spines: seq<Option<Spine>>, left: seq<Edge>, right: seq<Edge>,
                       tileOf: map<(nat, nat), Tile>, adj: seq<seq<nat>>, own: Owner, chosen: seq<Tile>)
    requires TilesWithSpines(tiles, spines) && TwoSided(spines, left, right)
    requires TileTable(tiles, spines, left, right, |tiles|, tileOf) && ValidMatching(adj, own)
    requires Outcome(tiles, spines, tileOf, own, chosen)
    ensures Selects(tiles, spines, chosen)
  {
    TileOrder();
    AscendingDistinct(tiles, TileLess);
    forall i, j | i in SpinePicks(tiles, spines, chosen) && j in SpinePicks(tiles, spines, chosen) && i != j
      ensures !SharesEdge(spines[i].value, spines[j].value)
    {
      PickIsMatched(tiles, spines, tileOf, own, chosen, i);
      PickIsMatched(tiles, spines, tileOf, own, chosen, j);
      var r := ChosenPlace(tiles, spines, left, right, tileOf, own, i);
      var q := ChosenPlace(tiles, spines, left, right, tileOf, own, j);
      SharedVertex(tiles, spines, left, right, i, j, (own[r].value, r), (own[q].value, q));
    }
  }

  lemma RivalIsMatching(tiles: seq<Tile>, spines: seq<Option<Spine>>, left: seq<Edge>, right: seq<Edge>,
                        tileOf: map<(nat, nat), Tile>, adj: seq<seq<nat>>, picks: set<nat>) returns (pairs: set<(nat, nat)>)
    requires TilesWithSpines(tiles, spines) && TwoSided(spines, left, right)
    requires TileTable(tiles, spines, left, right, |tiles|, tileOf) && AdjacencyOf(tileOf, adj)
    requires Compatible(spines, picks)
    ensures IsMatching(adj, pairs) && |picks| <= |pairs|
  {
    pairs := set i | i in picks :: Place(spines, left, right, i);
    forall i, j | i in picks && j in picks
      ensures var p, q := Place(spines, left, right, i), Place(spines, left, right, j);
        p.0 == q.0 || p.1 == q.1 ==> i == j
    {
      SharedVertex(tiles, spines, left, right, i, j, Place(spines, left, right, i), Place(spines, left, right, j));
    }
    InjectionBound(picks, pairs,
      (i: nat) requires i < |spines| && spines[i].Some? => Place(spines, left, right, i));
  }

  lemma OutcomeLargest(tiles: seq<Tile>, spines: seq<Option<Spine>>, left: seq<Edge>, right: seq<Edge>,
                       tileOf: map<(nat, nat), Tile>, adj: seq<seq<nat>>, own: Owner, chosen: seq<Tile>)
    requires TilesWithSpines(tiles, spines) && TwoSided(spines, left, right)
    requires TileTable(tiles, spines, left, right, |tiles|, tileOf) && AdjacencyOf(tileOf, adj)
    requires Maximum(adj, own) && Outcome(tiles, spines, tileOf, own, chosen)
    ensures Largest(tiles, spines, chosen)
  {
    var mine := SpinePicks(tiles, spines, chosen);
    assert |MatchedRight(own)| <= |mine| by {
      var position := map r | r in MatchedRight(own) :: IndexOfMatched(tiles, spines, left, right, tileOf, own, chosen, r);
      InjectionBound(MatchedRight(own), mine, (r: nat) requires r in position => position[r]) by {
        forall r, q | r in MatchedRight(own) && q in MatchedRight(own) && position[r] == position[q] ensures r == q {
          OnePlace(spines, left, right, position[r], (own[r].value, r), (own[q].value, q));
        }
      }
    }
    forall picks | Compatible(spines, picks) ensures |picks| <= |mine| {
      var pairs := RivalIsMatching(tiles, spines, left, right, tileOf, adj, picks);
    }
  }

  ghost function IndexOfMatched(tiles: seq<Tile>, spines: seq<Option<Spine>>, left: seq<Edge>, right: seq<Edge>,
                                tileOf: map<(nat, nat), Tile>, own: Owner, chosen: seq<Tile>, r: nat): (i: nat)
    requires |tiles| == |spines|
    requires TileTable(tiles, spines, left, right, |tiles|, tileOf) && Outcome(tiles, spines, tileOf, own, chosen)
    requires r in MatchedRight(own)
    ensures i in SpinePicks(tiles, spines, chosen) && TileAt(spines, left, right, i, (own[r].value, r))
  {
    var i :| 0 <= i < |tiles| && TileAt(spines, left, right, i, (own[r].value, r));
    i
  }

  /** The dictionary of spine tiles with its keys in insertion order, and the free tiles. */
  method BuildTable(tiles: seq<Tile>, spines: seq<Option<Spine>>, left: seq<Edge>, right: seq<Edge>,
                    leftAt: map<Edge, nat>, rightAt: map<Edge, nat>)
    returns (tileOf: map<(nat, nat), Tile>, keys: seq<(nat, nat)>, free: seq<Tile>)
    requires TilesWithSpines(tiles, spines) && TwoSided(spines, left, right)
    requires forall e :: e in leftAt <==> e in left
    requires forall e :: e in leftAt ==> leftAt[e] < |left| && left[leftAt[e]] == e
    requires forall e :: e in rightAt <==> e in right
    requires forall e :: e in rightAt ==> rightAt[e] < |right| && right[rightAt[e]] == e
    ensures TileTable(tiles, spines, left, right, |tiles|, tileOf)
    ensures forall p :: p in keys <==> p in tileOf
    ensures Distinct(keys)
    ensures forall t :: t in free <==> exists i :: 0 <= i < |tiles| && spines[i].None? && tiles[i] == t
  {
    tileOf, keys, free := map[], [], [];
    for i := 0 to |tiles|
      invariant TileTable(tiles, spines, left, right, i, tileOf)
      invariant forall p :: p in keys <==> p in tileOf
      invariant Distinct(keys)
      invariant forall t :: t in free <==> exists k :: 0 <= k < i && spines[k].None? && tiles[k] == t
    {
      match spines[i]
      case None =>
        free := free + [tiles[i]];
      case Some(s) =>
        var p := if s.e in leftAt then (leftAt[s.e], rightAt[s.f]) else (leftAt[s.f], rightAt[s.e]);
        assert TileAt(spines, left, right, i, p);
        forall k, q | 0 <= k <= i && TileAt(spines, left, right, k, q) ensures q == p ==> k == i {
          if q == p {
            SharedVertex(tiles, spines, left, right, k, i, q, p);
          }
        }
        forall q | TileAt(spines, left, right, i, q) ensures q == p {
          OnePlace(spines, left, right, i, p, q);
        }
        if p !in tileOf {
          keys := keys + [p];
        }
        tileOf := tileOf[p := tiles[i]];
    }
  }

  /** `x` stands before `y` in the order. */
  ghost predicate Precedes(order: seq<nat>, x: nat, y: nat) {
    exists i, j :: 0 <= i < j < |order| && order[i] == x && order[j] == y
  }

  /** Each row holds the right ends of the spines at its left vertex, in the given order. */
  ghost predicate RowsInOrder(spines: seq<Option<Spine>>, left: seq<Edge>, right: seq<Edge>, order: seq<nat>, adj: seq<seq<nat>>) {
    && |adj| == |left|
    && (forall l: nat, r: nat :: l < |adj| ==> (r in adj[l] <==> exists i :: TileAt(spines, left, right, i, (l, r))))
    && forall l, a, b :: 0 <= l < |adj| && 0 <= a < b < |adj[l]| ==> Precedes(order, adj[l][a], adj[l][b])
  }

  lemma RankedIsOrdered(order: seq<nat>, n: nat, row: seq<nat>)
    requires IsPermutation(order, n) && Ascending(row, RankLess(PositionOf(order))) && forall r :: r in row ==> r < n
    ensures forall a, b :: 0 <= a < b < |row| ==> Precedes(order, row[a], row[b])
  {
    var rank := PositionOf(order);
    forall a, b | 0 <= a < b < |row| ensures Precedes(order, row[a], row[b]) {
      assert row[a] in row && row[b] in row;
      assert order[rank[row[a]]] == row[a] && order[rank[row[b]]] == row[b];
    }
  }

  /** Right vertices of every left vertex, in the order of their rank. */
  method BuildRows(lefts: nat, rights: nat, tileOf: map<(nat, nat), Tile>, keys: seq<(nat, nat)>, rank: map<nat, nat>)
    returns (adj: seq<seq<nat>>)
    requires forall p :: p in keys <==> p in tileOf
    requires forall p :: p in tileOf ==> p.0 < lefts && p.1 < rights
    requires forall r :: 0 <= r < rights ==> r in rank
    requires forall r, q :: r in rank && q in rank && rank[r] == rank[q] ==> r == q
    ensures |adj| == lefts && AdjacencyOf(tileOf, adj)
    ensures forall l :: 0 <= l < lefts ==> Ascending(adj[l], RankLess(rank))
  {
    adj := seq(lefts, _ => []);
    for k := 0 to |keys|
      invariant |adj| == lefts
      invariant forall l, r :: 0 <= l < lefts && r in adj[l] ==> (l, r) in keys[..k]
      invariant forall p :: p in keys[..k] ==> p.0 < lefts && p.1 in adj[p.0]
    {
      var (l, r) := keys[k];
      assert keys[..k + 1] == keys[..k] + [keys[k]];
      assert (l, r) in keys;
      adj := adj[l := adj[l] + [r]];
    }
    assert keys[..|keys|] == keys;
    ghost var before := adj;
    var less := RankLess(rank);
    RankOrder(rank);
    for l := 0 to lefts
      invariant |adj| == lefts
      invariant forall k :: l <= k < lefts ==> adj[k] == before[k]
      invariant forall k :: 0 <= k < l ==> Ascending(adj[k], less) && forall r :: r in adj[k] <==> r in before[k]
    {
      SortAscending(adj[l], less);
      adj := adj[l := SortDistinct(adj[l], less)];
    }
  }

  /** Compare by rank; numbers without a rank come last, in their own order. */
  function RankLess(rank: map<nat, nat>): (nat, nat) -> bool {
    (x: nat, y: nat) =>
      if x in rank then y !in rank || rank[x] < rank[y] else y !in rank && x < y
  }

  lemma RankOrder(rank: map<nat, nat>)
    requires forall r, q :: r in rank && q in rank && rank[r] == rank[q] ==> r == q
    ensures StrictOrder(RankLess(rank))
  {
  }

  /** The position of every element of a list, the last one where an element repeats. */
  function PositionOf<T(==,!new)>(s: seq<T>): (at: map<T, nat>)
    ensures forall x :: x in at ==> at[x] < |s| && s[at[x]] == x
    ensures forall x :: x in s ==> x in at
    ensures forall i :: 0 <= i < |s| ==> i <= at[s[i]]
  {
    if s == [] then map[] else PositionOf(s[..|s| - 1])[s[|s| - 1] := |s| - 1]
  }

  /** Free tiles, then the tile of every matched right vertex. */
  method Collect(own: Owner, tileOf: map<(nat, nat), Tile>, free: seq<Tile>) returns (list: seq<Tile>)
    requires forall r :: 0 <= r < |own| && own[r].Some? ==> (own[r].value, r) in tileOf
    ensures forall t :: t in list <==> t in free || PickedBy(own, tileOf, t)
  {
    list := free;
    for r := 0 to |own|
      invariant forall t :: t in list <==> t in free || exists q :: 0 <= q < r && own[q].Some? && tileOf[(own[q].value, q)] == t
    {
      if own[r].Some? {
        list := list + [tileOf[(own[r].value, r)]];
      }
    }
  }

  // ---- what the orders decide ----

  /** The tile at a matched place. */
  ghost predicate MatchedTile(spines: seq<Option<Spine>>, left: seq<Edge>, right: seq<Edge>, own: Owner, i: nat) {
    exists r :: 0 <= r < |own| && own[r].Some? && TileAt(spines, left, right, i, (own[r].value, r))
  }

  /** The free tiles and the tiles at matched places, ascending. */
  ghost predicate ChosenBy(tiles: seq<Tile>, spines: seq<Option<Spine>>, left: seq<Edge>, right: seq<Edge>, own: Owner, chosen: seq<Tile>) {
    && |tiles| == |spines| && Ascending(chosen, TileLess)
    && forall t :: t in chosen <==>
         exists i: nat :: i < |tiles| && tiles[i] == t && (spines[i].None? || MatchedTile(spines, left, right, own, i))
  }

  /** The selection that the two orders lead to. */
  ghost predicate SelectedBy(tiles: seq<Tile>, spines: seq<Option<Spine>>, left: seq<Edge>, right: seq<Edge>,
                             leftOrder: seq<nat>, rightOrder: seq<nat>, chosen: seq<Tile>) {
    exists adj, own :: RowsInOrder(spines, left, right, rightOrder, adj) && Runs(adj, |right|, leftOrder, own)
      && ChosenBy(tiles, spines, left, right, own, chosen)
  }

  lemma OrderedIsRanked(order: seq<nat>, n: nat, row: seq<nat>)
    requires IsPermutation(order, n) && forall a, b :: 0 <= a < b < |row| ==> Precedes(order, row[a], row[b])
    ensures Ascending(row, RankLess(PositionOf(order)))
  {
    var rank := PositionOf(order);
    forall a, b | 0 <= a < b < |row| ensures RankLess(rank)(row[a], row[b]) {
      var i, j :| 0 <= i < j < |order| && order[i] == row[a] && order[j] == row[b];
      assert order[i] in order && order[j] in order;
      assert i == rank[row[a]] && j == rank[row[b]];
    }
  }

  lemma RowsUnique(spines: seq<Option<Spine>>, left: seq<Edge>, right: seq<Edge>, order: seq<nat>, adj: seq<seq<nat>>, also: seq<seq<nat>>)
    requires IsPermutation(order, |right|)
    requires RowsInOrder(spines, left, right, order, adj) && RowsInOrder(spines, left, right, order, also)
    ensures adj == also
  {
    var rank := PositionOf(order);
    RankOrder(rank);
    forall l | 0 <= l < |adj| ensures adj[l] == also[l] {
      OrderedIsRanked(order, |right|, adj[l]);
      OrderedIsRanked(order, |right|, also[l]);
      forall r: nat ensures r in adj[l] <==> r in also[l] {
      }
      AscendingUnique(adj[l], also[l], RankLess(rank));
    }
  }

  lemma ChosenUnique(tiles: seq<Tile>, spines: seq<Option<Spine>>, left: seq<Edge>, right: seq<Edge>, own: Owner, chosen: seq<Tile>, also: seq<Tile>)
    requires ChosenBy(tiles, spines, left, right, own, chosen) && ChosenBy(tiles, spines, left, right, own, also)
    ensures chosen == also
  {
    TileOrder();
    AscendingUnique(chosen, also, TileLess);
  }

  /** The two orders determine the selection. */
  lemma SelectionUnique(tiles: seq<Tile>, spines: seq<Option<Spine>>, left: seq<Edge>, right: seq<Edge>,
                        leftOrder: seq<nat>, rightOrder: seq<nat>, chosen: seq<Tile>, also: seq<Tile>)
    requires IsPermutation(rightOrder, |right|)
    requires SelectedBy(tiles, spines, left, right, leftOrder, rightOrder, chosen)
    requires SelectedBy(tiles, spines, left, right, leftOrder, rightOrder, also)
    ensures chosen == also
  {
    var adj, own :| RowsInOrder(spines, left, right, rightOrder, adj) && Runs(adj, |right|, leftOrder, own)
      && ChosenBy(tiles, spines, left, right, own, chosen);
    var adj', own' :| RowsInOrder(spines, left, right, rightOrder, adj') && Runs(adj', |right|, leftOrder, own')
      && ChosenBy(tiles, spines, left, right, own', also);
    RowsUnique(spines, left, right, rightOrder, adj, adj');
    RunsUnique(adj, |right|, leftOrder, own, own');
    ChosenUnique(tiles, spines, left, right, own, chosen, also);
  }

  lemma RowsAreOrdered(tiles: seq<Tile>, spines: seq<Option<Spine>>, left: seq<Edge>, right: seq<Edge>, order: seq<nat>,
                       tileOf: map<(nat, nat), Tile>, adj: seq<seq<nat>>)
    requires |tiles| == |spines| && TileTable(tiles, spines, left, right, |tiles|, tileOf) && AdjacencyOf(tileOf, adj)
    requires |adj| == |left| && IsPermutation(order, |right|)
    requires forall l :: 0 <= l < |adj| ==> Ascending(adj[l], RankLess(PositionOf(order)))
    ensures RowsInOrder(spines, left, right, order, adj)
  {
    forall l: nat, r: nat | l < |adj| ensures r in adj[l] <==> exists i :: TileAt(spines, left, right, i, (l, r)) {
      if r in adj[l] {
        assert (l, r) in tileOf;
      }
    }
    forall l | 0 <= l < |adj| ensures forall a, b :: 0 <= a < b < |adj[l]| ==> Precedes(order, adj[l][a], adj[l][b]) {
      forall r | r in adj[l] ensures r < |right| {
        assert (l, r) in tileOf;
      }
      RankedIsOrdered(order, |right|, adj[l]);
    }
  }

  lemma OutcomeIsChosen(tiles: seq<Tile>, spines: seq<Option<Spine>>, left: seq<Edge>, right: seq<Edge>,
                        tileOf: map<(nat, nat), Tile>, own: Owner, chosen: seq<Tile>)
    requires |tiles| == |spines| && Distinct(tiles) && TileTable(tiles, spines, left, right, |tiles|, tileOf)
    requires Outcome(tiles, spines, tileOf, own, chosen)
    ensures ChosenBy(tiles, spines, left, right, own, chosen)
  {
    forall t | t in chosen
      ensures exists i: nat :: i < |tiles| && tiles[i] == t && (spines[i].None? || MatchedTile(spines, left, right, own, i))
    {
      if PickedBy(own, tileOf, t) {
        var r :| 0 <= r < |own| && own[r].Some? && (own[r].value, r) in tileOf && tileOf[(own[r].value, r)] == t;
        var i :| 0 <= i < |tiles| && TileAt(spines, left, right, i, (own[r].value, r));
        assert tiles[i] == t && MatchedTile(spines, left, right, own, i);
      }
    }
    forall i: nat | i < |tiles| && MatchedTile(spines, left, right, own, i) ensures tiles[i] in chosen {
      var r :| 0 <= r < |own| && own[r].Some? && TileAt(spines, left, right, i, (own[r].value, r));
    }
  }

  lemma SortedOutcome(tiles: seq<Tile>, spines: seq<Option<Spine>>, tileOf: map<(nat, nat), Tile>,
                      own: Owner, free: seq<Tile>, list: seq<Tile>)
    requires |tiles| == |spines|
    requires forall r :: 0 <= r < |own| && own[r].Some? ==> (own[r].value, r) in tileOf
    requires forall t :: t in free <==> exists i :: 0 <= i < |tiles| && spines[i].None? && tiles[i] == t
    requires forall t :: t in list <==> t in free || PickedBy(own, tileOf, t)
    ensures Outcome(tiles, spines, tileOf, own, SortDistinct(list, TileLess))
  {
    TileOrder();
    SortAscending(list, TileLess);
  }

  method Select(tiles: seq<Tile>, spines: seq<Option<Spine>>, left: seq<Edge>, right: seq<Edge>,
                leftOrder: seq<nat>, rightOrder: seq<nat>) returns (chosen: seq<Tile>)
    requires TilesWithSpines(tiles, spines) && TwoSided(spines, left, right)
    requires IsPermutation(leftOrder, |left|) && IsPermutation(rightOrder, |right|)
    ensures Selects(tiles, spines, chosen)
    ensures Largest(tiles, spines, chosen)
    ensures SelectedBy(tiles, spines, left, right, leftOrder, rightOrder, chosen)
  {
    var rank := PositionOf(rightOrder);
    var leftAt, rightAt := PositionOf(left), PositionOf(right);
    var tileOf, keys, free := BuildTable(tiles, spines, left, right, leftAt, rightAt);
    var adj := BuildRows(|left|, |right|, tileOf, keys, rank);
    var matcher := new Matcher(adj, |right|);
    matcher.Run(leftOrder);
    var own := matcher.owner[..];
    var list := Collect(own, tileOf, free);
    chosen := SortDistinct(list, TileLess);
    SortedOutcome(tiles, spines, tileOf, own, free, list);
    OutcomeSelects(tiles, spines, left, right, tileOf, adj, own, chosen);
    OutcomeLargest(tiles, spines, left, right, tileOf, adj, own, chosen);
    RowsAreOrdered(tiles, spines, left, right, rightOrder, tileOf, adj);
    TileOrder();
    AscendingDistinct(tiles, TileLess);
    OutcomeIsChosen(tiles, spines, left, right, tileOf, own, chosen);
  }
}

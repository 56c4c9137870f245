/** Spines of adjacency mode, and why the early stop of the clique search is sound. */
module IceSpines {
  import opened Common
  import opened IceTypes
  import opened IceTiles
  import opened IceSides

  /** Two listed tiles hold `e`. */
  ghost predicate Shared(tiles: seq<Tile>, e: Edge) {
    exists i, j :: 0 <= i < j < |tiles| && e in TileEdges(tiles[i]) && e in TileEdges(tiles[j])
  }

  ghost function CountIn(tiles: seq<Tile>, e: Edge): nat {
    if tiles == [] then 0
    else CountIn(tiles[..|tiles| - 1], e) + if e in TileEdges(tiles[|tiles| - 1]) then 1 else 0
  }

  lemma {:induction false} CountPositive(tiles: seq<Tile>, e: Edge)
    ensures CountIn(tiles, e) > 0 <==> exists i :: 0 <= i < |tiles| && e in TileEdges(tiles[i])
  {
    if tiles != [] {
      var rest := tiles[..|tiles| - 1];
      CountPositive(rest, e);
      assert forall i :: 0 <= i < |rest| ==> rest[i] == tiles[i];
      if CountIn(tiles, e) > 0 && CountIn(rest, e) == 0 {
        assert e in TileEdges(tiles[|tiles| - 1]);
      }
    }
  }

  /** The occurrence count tells which edges two tiles share. */
  lemma {:induction false} CountTellsShared(tiles: seq<Tile>, e: Edge)
    ensures CountIn(tiles, e) >= 2 <==> Shared(tiles, e)
  {
    if tiles != [] {
      var last := |tiles| - 1;
      var rest := tiles[..last];
      CountTellsShared(rest, e);
      CountPositive(rest, e);
      assert forall i :: 0 <= i < |rest| ==> rest[i] == tiles[i];
      if Shared(rest, e) {
        var i, j :| 0 <= i < j < |rest| && e in TileEdges(rest[i]) && e in TileEdges(rest[j]);
        assert e in TileEdges(tiles[i]) && e in TileEdges(tiles[j]);
      }
      if Shared(tiles, e) {
        var i, j :| 0 <= i < j < |tiles| && e in TileEdges(tiles[i]) && e in TileEdges(tiles[j]);
        assert e in TileEdges(rest[i]);
        if j < last {
          assert e in TileEdges(rest[j]);
        }
      }
    }
  }

  ghost predicate Covers(tiles: seq<Tile>, t: Tile, s: Spine) {
    forall e :: e in TileEdges(t) && Shared(tiles, e) ==> OnSpine(e, s)
  }

  /** A tile without shared edges is free; any other has a spine that holds all its shared edges. */
  ghost predicate SpineRule(tiles: seq<Tile>, t: Tile, spine: Option<Spine>) {
    match spine
    case None => forall e :: e in TileEdges(t) ==> !Shared(tiles, e)
    case Some(s) => s in Matchings(t) && Covers(tiles, t, s) && HoldsShared(tiles, t)
  }

  ghost predicate HoldsShared(tiles: seq<Tile>, t: Tile) {
    exists e :: e in TileEdges(t) && Shared(tiles, e)
  }

  ghost predicate SpinesByRule(tiles: seq<Tile>, spines: seq<Option<Spine>>) {
    |spines| == |tiles| && forall i :: 0 <= i < |tiles| ==> SpineRule(tiles, tiles[i], spines[i])
  }

  /** The rule leaves no choice: one shared edge lies in one perfect matching only. */
  lemma SpineRuleUnique(tiles: seq<Tile>, t: Tile, x: Option<Spine>, y: Option<Spine>)
    requires OrderedTile(t) && SpineRule(tiles, t, x) && SpineRule(tiles, t, y)
    ensures x == y
  {
    if x.Some? {
      var e :| e in TileEdges(t) && Shared(tiles, e);
      assert y.Some?;
      assert OnSpine(e, x.value) && OnSpine(e, y.value);
      OneMatching(t, x.value, y.value, e);
    } else {
      assert y.Some? ==> !HoldsShared(tiles, t);
    }
  }

  lemma OneMatching(t: Tile, x: Spine, y: Spine, e: Edge)
    requires OrderedTile(t) && x in Matchings(t) && y in Matchings(t) && OnSpine(e, x) && OnSpine(e, y)
    ensures x == y
  {
  }

  ghost predicate Conflicted(tiles: seq<Tile>, t: Tile) {
    t in tiles && forall s :: s in Matchings(t) ==> !Covers(tiles, t, s)
  }

  function CountOf(count: map<Edge, nat>, e: Edge): nat {
    if e in count then count[e] else 0
  }

  method CountEdges(tiles: seq<Tile>) returns (count: map<Edge, nat>)
    requires forall t :: t in tiles ==> OrderedTile(t)
    ensures forall e :: CountOf(count, e) == CountIn(tiles, e)
  {
    count := map[];
    for k := 0 to |tiles|
      invariant forall e :: CountOf(count, e) == CountIn(tiles[..k], e)
    {
      PrefixGrows(tiles, k);
      var row := TileEdges(tiles[k]);
      ghost var was := count;
      for j := 0 to |row|
        invariant forall e :: CountOf(count, e) == CountOf(was, e) + if e in row[..j] then 1 else 0
      {
        PrefixGrows(row, j);
        assert row[j] !in row[..j];
        count := count[row[j] := CountOf(count, row[j]) + 1];
      }
      assert row[..|row|] == row;
      assert tiles[..k + 1][..k] == tiles[..k];
    }
    assert tiles[..|tiles|] == tiles;
  }

  /** The edges of a tile that another tile holds too. */
  method HeldEdges(tiles: seq<Tile>, count: map<Edge, nat>, t: Tile) returns (held: seq<Edge>)
    requires forall e :: CountOf(count, e) == CountIn(tiles, e)
    ensures forall e :: e in held <==> e in TileEdges(t) && Shared(tiles, e)
  {
    held := [];
    var row := TileEdges(t);
    for j := 0 to |row|
      invariant forall e :: e in held <==> e in row[..j] && Shared(tiles, e)
    {
      PrefixGrows(row, j);
      CountTellsShared(tiles, row[j]);
      if CountOf(count, row[j]) >= 2 {
        held := held + [row[j]];
      }
    }
    assert row[..|row|] == row;
  }

  method FirstCover(ghost tiles: seq<Tile>, t: Tile, held: seq<Edge>) returns (r: Option<Spine>)
    requires forall e :: e in held <==> e in TileEdges(t) && Shared(tiles, e)
    ensures r.Some? ==> r.value in Matchings(t) && Covers(tiles, t, r.value)
    ensures r.None? ==> forall s :: s in Matchings(t) ==> !Covers(tiles, t, s)
  {
    var choices := Matchings(t);
    for i := 0 to |choices|
      invariant forall k :: 0 <= k < i ==> !Covers(tiles, t, choices[k])
    {
      if forall e :: e in held ==> OnSpine(e, choices[i]) {
        return Some(choices[i]);
      }
    }
    return None;
  }

  method AdjacencySpines(tiles: seq<Tile>) returns (r: Result<seq<Option<Spine>>, StructureError>)
    requires forall t :: t in tiles ==> OrderedTile(t)
    ensures r.Ok? ==> SpinesByRule(tiles, r.value)
    ensures r.Err? ==> r.error == SpineConflict && exists t :: Conflicted(tiles, t)
  {
    var count := CountEdges(tiles);
    var spines: seq<Option<Spine>> := [];
    for k := 0 to |tiles|
      invariant |spines| == k
      invariant forall i :: 0 <= i < k ==> SpineRule(tiles, tiles[i], spines[i])
    {
      var held := HeldEdges(tiles, count, tiles[k]);
      if held == [] {
        assert forall e :: e !in held;
        spines := spines + [None];
      } else {
        assert held[0] in held && HoldsShared(tiles, tiles[k]);
        var s := FirstCover(tiles, tiles[k], held);
        if s.None? {
          assert Conflicted(tiles, tiles[k]);
          return Err(SpineConflict);
        }
        spines := spines + [s];
      }
    }
    return Ok(spines);
  }

  // ---- the early stop ----

  /** Two different cliques of the graph hold `e`. */
  ghost predicate SharedByCliques(es: set<Edge>, e: Edge) {
    exists t, x :: t != x && IsClique(es, t) && IsClique(es, x) && e in TileEdges(t) && e in TileEdges(x)
  }

  ghost predicate CliqueCovered(es: set<Edge>, t: Tile, s: Spine) {
    s in Matchings(t) && forall e :: e in TileEdges(t) && SharedByCliques(es, e) ==> OnSpine(e, s)
  }

  /** Some 4-clique has shared edges that no perfect matching of it holds. */
  ghost predicate GraphConflicts(es: set<Edge>) {
    exists t :: IsClique(es, t) && forall s :: !CliqueCovered(es, t, s)
  }

  /** Four edges that belong to `t` alone. */
  ghost function Private(es: set<Edge>, t: Tile): (own: set<Edge>)
    requires IsClique(es, t) && exists s :: CliqueCovered(es, t, s)
    ensures own <= es && |own| == 4
    ensures forall x, e :: IsClique(es, x) && x != t && e in own ==> e !in TileEdges(x)
    ensures forall e :: e in own ==> e in TileEdges(t)
  {
    var s :| CliqueCovered(es, t, s);
    var own := set e | e in TileEdges(t) && !OnSpine(e, s);
    FourLeft(t, s);
    own
  }

  lemma FourLeft(t: Tile, s: Spine)
    requires OrderedTile(t) && s in Matchings(t)
    ensures |(set e | e in TileEdges(t) && !OnSpine(e, s))| == 4
  {
    var e := TileEdges(t);
    var own := set x | x in e && !OnSpine(x, s);
    assert own == (if s == Matchings(t)[0] then {e[1], e[2], e[3], e[4]}
                   else if s == Matchings(t)[1] then {e[0], e[2], e[3], e[5]}
                   else {e[0], e[1], e[4], e[5]}) by {
      assert forall x :: x in e <==> x == e[0] || x == e[1] || x == e[2] || x == e[3] || x == e[4] || x == e[5];
    }
  }

  ghost predicate AllCovered(es: set<Edge>, list: seq<Tile>) {
    forall t :: t in list ==> IsClique(es, t) && exists s :: CliqueCovered(es, t, s)
  }

  ghost function AllPrivate(es: set<Edge>, list: seq<Tile>): set<Edge>
    requires AllCovered(es, list)
  {
    if list == [] then {} else AllPrivate(es, list[1..]) + Private(es, list[0])
  }

  lemma {:induction false} PrivateHolder(es: set<Edge>, list: seq<Tile>, e: Edge) returns (t: Tile)
    requires AllCovered(es, list) && e in AllPrivate(es, list)
    ensures t in list && e in TileEdges(t)
  {
    if e in Private(es, list[0]) {
      t := list[0];
    } else {
      t := PrivateHolder(es, list[1..], e);
    }
  }

  /** Without a conflict every clique owns four edges alone. */
  lemma {:induction false} PrivateEdgesAddUp(es: set<Edge>, list: seq<Tile>)
    requires Distinct(list) && AllCovered(es, list)
    ensures |AllPrivate(es, list)| == 4 * |list|
    ensures AllPrivate(es, list) <= es
  {
    if list != [] {
      var rest, own := list[1..], Private(es, list[0]);
      PrivateEdgesAddUp(es, rest);
      forall e | e in AllPrivate(es, rest) ensures e !in own {
        var t := PrivateHolder(es, rest, e);
        assert t != list[0];
      }
      assert AllPrivate(es, rest) !! own;
    }
  }

  /** Stopping above a quarter of the edge count never rejects a graph whose cliques all have a spine. */
  lemma EarlyStopIsSound(es: set<Edge>)
    requires TooManyCliques(es, |es|)
    ensures GraphConflicts(es)
  {
    if !GraphConflicts(es) {
      var list: seq<Tile> :| Distinct(list) && |list| > |es| / 4 && forall t :: t in list ==> IsClique(es, t);
      PrivateEdgesAddUp(es, list);
      SubsetCard(AllPrivate(es, list), es);
    }
  }
}

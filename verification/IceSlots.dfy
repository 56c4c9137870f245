/** Slots of a node, the check that no node has more than two, and what it means for a selection. */
module IceSlots {
  import opened Common
  import opened IceSelect
  import opened IceTypes

  /** Two tiles share an edge only where both have it on their spine. */
  ghost predicate EdgeRule(tiles: seq<Tile>, spines: seq<Option<Spine>>)
    requires |tiles| == |spines|
  {
    forall i, j, e :: 0 <= i < |tiles| && 0 <= j < |tiles| && i != j && e in TileEdges(tiles[i]) && e in TileEdges(tiles[j]) ==>
      spines[i].Some? && OnSpine(e, spines[i].value)
  }

  ghost function SpineEdges(spines: seq<Option<Spine>>): set<Edge> {
    (set i | 0 <= i < |spines| && spines[i].Some? :: spines[i].value.e) +
    (set i | 0 <= i < |spines| && spines[i].Some? :: spines[i].value.f)
  }

  ghost predicate Ends(e: Edge, v: nat) {
    v == e.u || v == e.v
  }

  ghost function SpineEdgesAt(edges: set<Edge>, v: nat): set<Edge> {
    set e | e in edges && Ends(e, v)
  }

  /** The free tiles among the first `n` that hold node `v`. */
  ghost function FreeAt(tiles: seq<Tile>, spines: seq<Option<Spine>>, n: nat, v: nat): set<nat>
    requires n <= |tiles| == |spines|
  {
    set i | 0 <= i < n && spines[i].None? && v in TileNodes(tiles[i])
  }

  /** One slot per distinct spine edge that ends at `v`, and one per free tile that holds `v`. */
  ghost function Slots(tiles: seq<Tile>, spines: seq<Option<Spine>>, v: nat): nat
    requires |tiles| == |spines|
  {
    |FreeAt(tiles, spines, |tiles|, v)| + |SpineEdgesAt(SpineEdges(spines), v)|
  }

  function Bump(slots: seq<nat>, v: nat): seq<nat>
    requires v < |slots|
  {
    slots[v := slots[v] + 1]
  }

  function BumpTile(slots: seq<nat>, t: Tile): (r: seq<nat>)
    requires OrderedTile(t) && t.d < |slots|
    ensures |r| == |slots|
    ensures forall v :: 0 <= v < |slots| ==> r[v] == slots[v] + if v in TileNodes(t) then 1 else 0
  {
    Bump(Bump(Bump(Bump(slots, t.a), t.b), t.c), t.d)
  }

  function BumpEdge(slots: seq<nat>, e: Edge): (r: seq<nat>)
    requires e.u < e.v < |slots|
    ensures |r| == |slots|
    ensures forall v :: 0 <= v < |slots| ==> r[v] == slots[v] + if v == e.u || v == e.v then 1 else 0
  {
    Bump(Bump(slots, e.u), e.v)
  }

  method SpineEdgeSet(spines: seq<Option<Spine>>) returns (edges: set<Edge>)
    ensures edges == SpineEdges(spines)
  {
    edges := {};
    for i := 0 to |spines|
      invariant edges == SpineEdges(spines[..i])
    {
      assert spines[..i + 1] == spines[..i] + [spines[i]];
      assert forall k :: 0 <= k < i ==> spines[..i + 1][k] == spines[..i][k];
      if spines[i].Some? {
        edges := edges + {spines[i].value.e, spines[i].value.f};
      }
    }
    assert spines[..|spines|] == spines;
  }

  lemma FreeAtGrows(tiles: seq<Tile>, spines: seq<Option<Spine>>, n: nat, v: nat)
    requires n < |tiles| == |spines|
    ensures |FreeAt(tiles, spines, n + 1, v)| ==
      |FreeAt(tiles, spines, n, v)| + if spines[n].None? && v in TileNodes(tiles[n]) then 1 else 0
  {
    if spines[n].None? && v in TileNodes(tiles[n]) {
      assert FreeAt(tiles, spines, n + 1, v) == FreeAt(tiles, spines, n, v) + {n};
    } else {
      assert FreeAt(tiles, spines, n + 1, v) == FreeAt(tiles, spines, n, v);
    }
  }

  lemma SpineEdgesGrow(edges: set<Edge>, e: Edge, v: nat)
    requires e !in edges
    ensures |SpineEdgesAt(edges + {e}, v)| == |SpineEdgesAt(edges, v)| + if Ends(e, v) then 1 else 0
  {
    if Ends(e, v) {
      assert SpineEdgesAt(edges + {e}, v) == SpineEdgesAt(edges, v) + {e};
    } else {
      assert SpineEdgesAt(edges + {e}, v) == SpineEdgesAt(edges, v);
    }
  }

  method FreeSlots(count: nat, tiles: seq<Tile>, spines: seq<Option<Spine>>) returns (slots: seq<nat>)
    requires |tiles| == |spines|
    requires forall t :: t in tiles ==> OrderedTile(t) && t.d < count
    ensures |slots| == count && forall v :: 0 <= v < count ==> slots[v] == |FreeAt(tiles, spines, |tiles|, v)|
  {
    slots := seq(count, _ => 0);
    for i := 0 to |tiles|
      invariant |slots| == count && forall v :: 0 <= v < count ==> slots[v] == |FreeAt(tiles, spines, i, v)|
    {
      assert tiles[i] in tiles;
      ghost var was := slots;
      if spines[i].None? {
        slots := BumpTile(slots, tiles[i]);
      }
      FreeCountsGrow(tiles, spines, i, was, slots);
    }
  }

  lemma FreeCountsGrow(tiles: seq<Tile>, spines: seq<Option<Spine>>, i: nat, was: seq<nat>, slots: seq<nat>)
    requires i < |tiles| == |spines| && |slots| == |was|
    requires forall v :: 0 <= v < |was| ==> was[v] == |FreeAt(tiles, spines, i, v)|
    requires forall v :: 0 <= v < |was| ==> slots[v] == was[v] + if spines[i].None? && v in TileNodes(tiles[i]) then 1 else 0
    ensures forall v :: 0 <= v < |slots| ==> slots[v] == |FreeAt(tiles, spines, i + 1, v)|
  {
    forall v | 0 <= v < |slots| ensures slots[v] == |FreeAt(tiles, spines, i + 1, v)| {
      FreeAtGrows(tiles, spines, i, v);
    }
  }

  method SlotCounts(count: nat, tiles: seq<Tile>, spines: seq<Option<Spine>>) returns (slots: seq<nat>)
    requires |tiles| == |spines|
    requires forall t :: t in tiles ==> OrderedTile(t) && t.d < count
    requires forall e :: e in SpineEdges(spines) ==> e.u < e.v < count
    ensures |slots| == count && forall v :: 0 <= v < count ==> slots[v] == Slots(tiles, spines, v)
  {
    slots := FreeSlots(count, tiles, spines);
    var todo := SpineEdgeSet(spines);
    ghost var all, done: set<Edge> := todo, {};
    while todo != {}
      invariant done !! todo && done + todo == all && |slots| == count
      invariant forall v :: 0 <= v < count ==> slots[v] == |FreeAt(tiles, spines, |tiles|, v)| + |SpineEdgesAt(done, v)|
    {
      var e :| e in todo;
      forall v ensures |SpineEdgesAt(done + {e}, v)| == |SpineEdgesAt(done, v)| + if v == e.u || v == e.v then 1 else 0 {
        SpineEdgesGrow(done, e, v);
      }
      slots := BumpEdge(slots, e);
      todo, done := todo - {e}, done + {e};
    }
    assert done == all;
  }

  // ---- the selection respects the slots ----

  ghost function TilesAt(chosen: seq<Tile>, v: nat): set<Tile> {
    set t | t in chosen && v in TileNodes(t)
  }

  lemma TilesAtGrows(tiles: seq<Tile>, k: nat, v: nat)
    requires k < |tiles| && Distinct(tiles)
    ensures |TilesAt(tiles[..k + 1], v)| == |TilesAt(tiles[..k], v)| + if v in TileNodes(tiles[k]) then 1 else 0
  {
    PrefixGrows(tiles, k);
    if v in TileNodes(tiles[k]) {
      assert TilesAt(tiles[..k + 1], v) == TilesAt(tiles[..k], v) + {tiles[k]};
    } else {
      assert TilesAt(tiles[..k + 1], v) == TilesAt(tiles[..k], v);
    }
  }

  ghost function IndexOf(tiles: seq<Tile>, t: Tile): (i: nat)
    requires t in tiles
    ensures i < |tiles| && tiles[i] == t
  {
    var i :| 0 <= i < |tiles| && tiles[i] == t;
    i
  }

  /** The edge of a spine that ends at a node of its tile. */
  ghost function EdgeAt(s: Spine, v: nat): (e: Edge)
    ensures OnSpine(e, s)
  {
    if Ends(s.e, v) then s.e else s.f
  }

  lemma SpineReaches(t: Tile, s: Spine, v: nat)
    requires s in Matchings(t) && v in TileNodes(t)
    ensures Ends(EdgeAt(s, v), v)
  {
  }

  ghost function SpineEdgeOf(tiles: seq<Tile>, spines: seq<Option<Spine>>, t: Tile, v: nat): (e: Edge)
    requires |tiles| == |spines| && t in tiles && spines[IndexOf(tiles, t)].Some?
    ensures e in SpineEdges(spines)
  {
    EdgeAt(spines[IndexOf(tiles, t)].value, v)
  }

  ghost predicate FreeTile(tiles: seq<Tile>, spines: seq<Option<Spine>>, t: Tile)
    requires |tiles| == |spines|
  {
    t in tiles && spines[IndexOf(tiles, t)].None?
  }

  ghost predicate HeldTile(tiles: seq<Tile>, spines: seq<Option<Spine>>, t: Tile)
    requires |tiles| == |spines|
  {
    t in tiles && spines[IndexOf(tiles, t)].Some?
  }

  lemma FreeTilesBound(tiles: seq<Tile>, spines: seq<Option<Spine>>, free: set<Tile>, v: nat)
    requires |tiles| == |spines|
    requires forall t :: t in free ==> FreeTile(tiles, spines, t) && v in TileNodes(t)
    ensures |free| <= |FreeAt(tiles, spines, |tiles|, v)|
  {
    InjectionBound(free, FreeAt(tiles, spines, |tiles|, v), (t: Tile) requires t in tiles => IndexOf(tiles, t));
  }

  /** Two selected tiles that use one spine edge are the same. */
  lemma SpineEdgeOnce(tiles: seq<Tile>, spines: seq<Option<Spine>>, chosen: seq<Tile>, t: Tile, x: Tile, v: nat)
    requires |tiles| == |spines| && Selects(tiles, spines, chosen)
    requires t in chosen && x in chosen && HeldTile(tiles, spines, t) && HeldTile(tiles, spines, x)
    requires SpineEdgeOf(tiles, spines, t, v) == SpineEdgeOf(tiles, spines, x, v)
    ensures t == x
  {
    assert IndexOf(tiles, t) in SpinePicks(tiles, spines, chosen) && IndexOf(tiles, x) in SpinePicks(tiles, spines, chosen);
  }

  lemma HeldTilesBound(tiles: seq<Tile>, spines: seq<Option<Spine>>, chosen: seq<Tile>, held: set<Tile>, v: nat)
    requires TilesWithSpines(tiles, spines) && Selects(tiles, spines, chosen)
    requires forall t :: t in held ==> t in chosen && HeldTile(tiles, spines, t) && v in TileNodes(t)
    ensures |held| <= |SpineEdgesAt(SpineEdges(spines), v)|
  {
    forall t | t in held ensures Ends(SpineEdgeOf(tiles, spines, t, v), v) {
      SpineReaches(t, spines[IndexOf(tiles, t)].value, v);
    }
    forall t, x | t in held && x in held && SpineEdgeOf(tiles, spines, t, v) == SpineEdgeOf(tiles, spines, x, v) ensures t == x {
      SpineEdgeOnce(tiles, spines, chosen, t, x, v);
    }
    InjectionBound(held, SpineEdgesAt(SpineEdges(spines), v),
      (t: Tile) requires HeldTile(tiles, spines, t) => SpineEdgeOf(tiles, spines, t, v));
  }

  /** The selection uses each spine edge at a node once, so the node is in no more tiles than it has slots. */
  lemma MembershipBound(tiles: seq<Tile>, spines: seq<Option<Spine>>, chosen: seq<Tile>, v: nat)
    requires TilesWithSpines(tiles, spines) && Selects(tiles, spines, chosen)
    ensures |TilesAt(chosen, v)| <= Slots(tiles, spines, v)
  {
    var free, held := FreeOrHeld(tiles, spines, chosen, v);
    FreeTilesBound(tiles, spines, free, v);
    HeldTilesBound(tiles, spines, chosen, held, v);
  }

  lemma FreeOrHeld(tiles: seq<Tile>, spines: seq<Option<Spine>>, chosen: seq<Tile>, v: nat) returns (free: set<Tile>, held: set<Tile>)
    requires |tiles| == |spines| && forall t :: t in chosen ==> t in tiles
    ensures |TilesAt(chosen, v)| == |free| + |held|
    ensures forall t :: t in free ==> FreeTile(tiles, spines, t) && v in TileNodes(t)
    ensures forall t :: t in held ==> t in chosen && HeldTile(tiles, spines, t) && v in TileNodes(t)
  {
    free := set t | t in TilesAt(chosen, v) && FreeTile(tiles, spines, t);
    held := TilesAt(chosen, v) - free;
  }

  /** No two tiles of a selection share an edge. */
  lemma SelectionEdgeDisjoint(tiles: seq<Tile>, spines: seq<Option<Spine>>, chosen: seq<Tile>, x: Tile, y: Tile, e: Edge)
    requires TilesWithSpines(tiles, spines) && EdgeRule(tiles, spines) && Selects(tiles, spines, chosen)
    requires x in chosen && y in chosen && e in TileEdges(x) && e in TileEdges(y)
    ensures x == y
  {
    if x != y {
      SharedByPicks(tiles, spines, chosen, x, y, e);
    }
  }

  /** Two chosen tiles with a common edge are spine picks whose spines share it. */
  lemma SharedByPicks(tiles: seq<Tile>, spines: seq<Option<Spine>>, chosen: seq<Tile>, x: Tile, y: Tile, e: Edge)
    requires |tiles| == |spines| && EdgeRule(tiles, spines) && (forall t :: t in chosen ==> t in tiles)
    requires x in chosen && y in chosen && x != y && e in TileEdges(x) && e in TileEdges(y)
    ensures !Compatible(spines, SpinePicks(tiles, spines, chosen))
  {
    var i, j := IndexOf(tiles, x), IndexOf(tiles, y);
    assert spines[i].Some? && OnSpine(e, spines[i].value) && spines[j].Some? && OnSpine(e, spines[j].value);
    assert i in SpinePicks(tiles, spines, chosen) && j in SpinePicks(tiles, spines, chosen);
  }
}

/** Tiles of adjacency mode: every 4-clique once, or an early stop. */
module IceTiles {
  import opened Common
  import opened IceTypes
  import opened Sorting
  import opened IceSides

  // ---- neighbours ----

  function Norm(a: nat, b: nat): Edge {
    if a <= b then Edge(a, b) else Edge(b, a)
  }

  /** Dense edges of a graph on `n` nodes: no loops, smaller end first. */
  ghost predicate DenseEdges(es: set<Edge>, n: nat) {
    forall e :: e in es ==> e.u < e.v < n
  }

  ghost predicate NeighbourSets(neighbours: seq<set<nat>>, es: set<Edge>) {
    && DenseEdges(es, |neighbours|)
    && forall a, b :: 0 <= a < |neighbours| ==> (b in neighbours[a] <==> Norm(a, b) in es)
  }

  method BuildNeighbourSets(n: nat, dense: seq<Edge>) returns (neighbours: seq<set<nat>>)
    requires DenseEdges(Elements(dense), n)
    ensures |neighbours| == n && NeighbourSets(neighbours, Elements(dense))
  {
    neighbours := seq(n, _ => {});
    for k := 0 to |dense|
      invariant |neighbours| == n && NeighbourSets(neighbours, Elements(dense[..k]))
    {
      PrefixGrows(dense, k);
      var e := dense[k];
      assert e in Elements(dense);
      neighbours := neighbours[e.u := neighbours[e.u] + {e.v}];
      neighbours := neighbours[e.v := neighbours[e.v] + {e.u}];
      assert Elements(dense[..k + 1]) == Elements(dense[..k]) + {e};
    }
    assert dense[..|dense|] == dense;
  }

  /** The members of `s` above `low` and below `n`, ascending. */
  function Above(s: set<nat>, low: int, n: nat): (list: seq<nat>)
    requires -1 <= low
    ensures forall x :: x in list <==> x in s && low < x < n
    ensures forall i, j :: 0 <= i < j < |list| ==> list[i] < list[j]
    decreases n - low
  {
    if low + 1 >= n then []
    else if low + 1 in s then
      var rest := Above(s, low + 1, n);
      assert forall i :: 0 <= i < |rest| ==> rest[i] in rest;
      [low + 1] + rest
    else Above(s, low + 1, n)
  }

  // ---- adjacency mode: every 4-clique ----

  ghost predicate IsClique(es: set<Edge>, t: Tile) {
    OrderedTile(t) && forall e :: e in TileEdges(t) ==> e in es
  }

  /** `tiles` lists, ascending, exactly the cliques before `cursor`. */
  ghost predicate ListedBefore(es: set<Edge>, tiles: seq<Tile>, cursor: Tile) {
    && Ascending(tiles, TileLess)
    && forall t :: t in tiles <==> IsClique(es, t) && TileLess(t, cursor)
  }

  /** Where the search meets a clique: `b` in the list of `a`, then `c` and `d` among the common neighbours. */
  predicate Met(neighbours: seq<set<nat>>, t: Tile) {
    && t.a < |neighbours| && t.b in Above(neighbours[t.a], t.a, |neighbours|)
    && t.b < |neighbours|
    && t.c in Above(neighbours[t.a] * neighbours[t.b], t.b, |neighbours|)
    && t.d in Above(neighbours[t.a] * neighbours[t.b], t.b, |neighbours|)
    && t.c < |neighbours| && t.c < t.d && t.d in neighbours[t.c]
  }

  lemma CliquesAreMet(neighbours: seq<set<nat>>, es: set<Edge>, t: Tile)
    requires NeighbourSets(neighbours, es)
    ensures IsClique(es, t) <==> Met(neighbours, t)
  {
    SixEdges(es, t);
  }

  lemma SixEdges(es: set<Edge>, t: Tile)
    ensures IsClique(es, t) <==>
            (OrderedTile(t) && Edge(t.a, t.b) in es && Edge(t.a, t.c) in es && Edge(t.a, t.d) in es
             && Edge(t.b, t.c) in es && Edge(t.b, t.d) in es && Edge(t.c, t.d) in es)
  {
    var e := TileEdges(t);
    assert forall x :: x in e <==> x == e[0] || x == e[1] || x == e[2] || x == e[3] || x == e[4] || x == e[5];
  }

  /** The least value that no entry of the ascending `list` before position `i` reaches. */
  function After(list: seq<nat>, i: nat): nat
    requires i <= |list|
  {
    if i == 0 then 0 else list[i - 1] + 1
  }

  lemma NoneInGap(list: seq<nat>, i: nat, x: nat)
    requires Increasing(list) && i <= |list| && x in list
    ensures x < After(list, i) || (i < |list| && list[i] <= x)
  {
  }

  lemma SkipToSecond(neighbours: seq<set<nat>>, es: set<Edge>, tiles: seq<Tile>, a: nat, i: nat)
    requires NeighbourSets(neighbours, es) && a < |neighbours|
    requires var list := Above(neighbours[a], a, |neighbours|);
      i <= |list| && ListedBefore(es, tiles, Tile(a, After(list, i), 0, 0))
    ensures var list := Above(neighbours[a], a, |neighbours|);
      ListedBefore(es, tiles, if i < |list| then Tile(a, list[i], 0, 0) else Tile(a + 1, 0, 0, 0))
  {
    var list := Above(neighbours[a], a, |neighbours|);
    forall t | IsClique(es, t) && t.a == a ensures t.b < After(list, i) || (i < |list| && list[i] <= t.b) {
      CliquesAreMet(neighbours, es, t);
      NoneInGap(list, i, t.b);
    }
  }

  lemma SkipToThird(neighbours: seq<set<nat>>, es: set<Edge>, tiles: seq<Tile>, a: nat, b: nat, i: nat)
    requires NeighbourSets(neighbours, es) && a < |neighbours| && b < |neighbours|
    requires var list := Above(neighbours[a] * neighbours[b], b, |neighbours|);
      i <= |list| && ListedBefore(es, tiles, Tile(a, b, After(list, i), 0))
    ensures var list := Above(neighbours[a] * neighbours[b], b, |neighbours|);
      ListedBefore(es, tiles, if i < |list| then Tile(a, b, list[i], 0) else Tile(a, b + 1, 0, 0))
  {
    var list := Above(neighbours[a] * neighbours[b], b, |neighbours|);
    forall t | IsClique(es, t) && t.a == a && t.b == b ensures t.c < After(list, i) || (i < |list| && list[i] <= t.c) {
      CliquesAreMet(neighbours, es, t);
      NoneInGap(list, i, t.c);
    }
  }

  lemma SkipToFourth(neighbours: seq<set<nat>>, es: set<Edge>, tiles: seq<Tile>, a: nat, b: nat, c: nat, i: nat)
    requires NeighbourSets(neighbours, es) && a < |neighbours| && b < |neighbours|
    requires var list := Above(neighbours[a] * neighbours[b], b, |neighbours|);
      i <= |list| && ListedBefore(es, tiles, Tile(a, b, c, After(list, i)))
    ensures var list := Above(neighbours[a] * neighbours[b], b, |neighbours|);
      ListedBefore(es, tiles, if i < |list| then Tile(a, b, c, list[i]) else Tile(a, b, c + 1, 0))
  {
    var list := Above(neighbours[a] * neighbours[b], b, |neighbours|);
    forall t | IsClique(es, t) && t.a == a && t.b == b && t.c == c
      ensures t.d < After(list, i) || (i < |list| && list[i] <= t.d)
    {
      CliquesAreMet(neighbours, es, t);
      NoneInGap(list, i, t.d);
    }
  }

  /** The fourth node of a clique comes after the third. */
  lemma SkipToPair(es: set<Edge>, tiles: seq<Tile>, a: nat, b: nat, c: nat)
    requires ListedBefore(es, tiles, Tile(a, b, c, 0))
    ensures ListedBefore(es, tiles, Tile(a, b, c, c + 1))
  {
  }

  lemma SkipOne(es: set<Edge>, tiles: seq<Tile>, t: Tile)
    requires ListedBefore(es, tiles, t) && !IsClique(es, t)
    ensures ListedBefore(es, tiles, t.(d := t.d + 1))
  {
    forall x | TileLess(x, t.(d := t.d + 1)) ensures x == t || TileLess(x, t) {
    }
  }

  lemma AppendOne(es: set<Edge>, tiles: seq<Tile>, t: Tile)
    requires ListedBefore(es, tiles, t) && IsClique(es, t)
    ensures ListedBefore(es, tiles + [t], t.(d := t.d + 1))
  {
    var more := tiles + [t];
    forall x ensures x in more <==> x in tiles || x == t {
    }
    forall i, j | 0 <= i < j < |more| ensures TileLess(more[i], more[j]) {
      assert more[i] == tiles[i];
      assert tiles[i] in tiles;
    }
    forall x ensures TileLess(x, t.(d := t.d + 1)) <==> x == t || TileLess(x, t) {
    }
  }

  /** More cliques than a graph without a spine conflict can hold. */
  ghost predicate TooManyCliques(es: set<Edge>, edgeCount: nat) {
    exists list: seq<Tile> :: Distinct(list) && |list| > edgeCount / 4 && forall t :: t in list ==> IsClique(es, t)
  }

  lemma OverCap(es: set<Edge>, tiles: seq<Tile>, t: Tile, edgeCount: nat)
    requires ListedBefore(es, tiles, t) && IsClique(es, t) && |tiles| >= edgeCount / 4
    ensures TooManyCliques(es, edgeCount)
  {
    AppendOne(es, tiles, t);
    TileOrder();
    AscendingDistinct(tiles + [t], TileLess);
    assert Distinct(tiles + [t]);
  }

  /** Two common neighbours of an edge form a clique with it exactly when they are neighbours. */
  lemma CommonCloses(neighbours: seq<set<nat>>, es: set<Edge>, a: nat, b: nat, above: seq<nat>, i: nat, j: nat)
    requires NeighbourSets(neighbours, es) && a < |neighbours| && b in Above(neighbours[a], a, |neighbours|)
    requires above == Above(neighbours[a] * neighbours[b], b, |neighbours|) && i < j < |above|
    ensures above[i] < |neighbours|
    ensures IsClique(es, Tile(a, b, above[i], above[j])) <==> above[j] in neighbours[above[i]]
  {
    assert above[i] in above && above[j] in above;
    CliquesAreMet(neighbours, es, Tile(a, b, above[i], above[j]));
  }

  /** Append a candidate that closes a clique, unless the list is full. */
  method TryFourth(neighbours: seq<set<nat>>, ghost es: set<Edge>, edgeCount: nat, t: Tile, start: seq<Tile>)
    returns (over: bool, tiles: seq<Tile>)
    requires NeighbourSets(neighbours, es) && t.c < |neighbours| && ListedBefore(es, start, t)
    requires IsClique(es, t) <==> t.d in neighbours[t.c]
    ensures over ==> TooManyCliques(es, edgeCount)
    ensures !over ==> ListedBefore(es, tiles, t.(d := t.d + 1))
  {
    tiles, over := start, false;
    if t.d in neighbours[t.c] {
      if |tiles| >= edgeCount / 4 {
        OverCap(es, tiles, t, edgeCount);
        return true, tiles;
      }
      AppendOne(es, tiles, t);
      tiles := tiles + [t];
    } else {
      SkipOne(es, tiles, t);
    }
  }

  /** The cliques that start with `a`, `b`, and the common neighbour at position `i`. */
  method CliquesWith(neighbours: seq<set<nat>>, ghost es: set<Edge>, edgeCount: nat, a: nat, b: nat,
                     above: seq<nat>, i: nat, start: seq<Tile>) returns (over: bool, tiles: seq<Tile>)
    requires NeighbourSets(neighbours, es) && a < |neighbours| && b in Above(neighbours[a], a, |neighbours|)
    requires above == Above(neighbours[a] * neighbours[b], b, |neighbours|) && i < |above|
    requires ListedBefore(es, start, Tile(a, b, above[i], 0))
    ensures over ==> TooManyCliques(es, edgeCount)
    ensures !over ==> ListedBefore(es, tiles, Tile(a, b, above[i] + 1, 0))
  {
    tiles, over := start, false;
    SkipToPair(es, tiles, a, b, above[i]);
    for j := i + 1 to |above|
      invariant ListedBefore(es, tiles, Tile(a, b, above[i], After(above, j)))
    {
      SkipToFourth(neighbours, es, tiles, a, b, above[i], j);
      CommonCloses(neighbours, es, a, b, above, i, j);
      over, tiles := TryFourth(neighbours, es, edgeCount, Tile(a, b, above[i], above[j]), tiles);
      if over {
        return;
      }
    }
    SkipToFourth(neighbours, es, tiles, a, b, above[i], |above|);
  }

  /** The cliques that start with `a` and `b`. */
  method CliquesFrom(neighbours: seq<set<nat>>, ghost es: set<Edge>, edgeCount: nat, a: nat, b: nat, start: seq<Tile>)
    returns (over: bool, tiles: seq<Tile>)
    requires NeighbourSets(neighbours, es) && a < |neighbours| && b in Above(neighbours[a], a, |neighbours|)
    requires ListedBefore(es, start, Tile(a, b, 0, 0))
    ensures over ==> TooManyCliques(es, edgeCount)
    ensures !over ==> ListedBefore(es, tiles, Tile(a, b + 1, 0, 0))
  {
    tiles, over := start, false;
    var above := Above(neighbours[a] * neighbours[b], b, |neighbours|);
    for i := 0 to |above|
      invariant ListedBefore(es, tiles, Tile(a, b, After(above, i), 0))
    {
      SkipToThird(neighbours, es, tiles, a, b, i);
      over, tiles := CliquesWith(neighbours, es, edgeCount, a, b, above, i, tiles);
      if over {
        return;
      }
    }
    SkipToThird(neighbours, es, tiles, a, b, |above|);
  }

  method AdjacencyTiles(neighbours: seq<set<nat>>, ghost es: set<Edge>, edgeCount: nat)
    returns (r: Result<seq<Tile>, StructureError>)
    requires NeighbourSets(neighbours, es)
    ensures r.Ok? ==> Ascending(r.value, TileLess) && forall t :: t in r.value <==> IsClique(es, t)
    ensures r.Err? ==> r.error == SpineConflict && TooManyCliques(es, edgeCount)
  {
    var n := |neighbours|;
    var tiles := [];
    for a := 0 to n
      invariant ListedBefore(es, tiles, Tile(a, 0, 0, 0))
    {
      var list := Above(neighbours[a], a, n);
      for i := 0 to |list|
        invariant ListedBefore(es, tiles, Tile(a, After(list, i), 0, 0))
      {
        assert list[i] in list;
        SkipToSecond(neighbours, es, tiles, a, i);
        var over;
        over, tiles := CliquesFrom(neighbours, es, edgeCount, a, list[i], tiles);
        if over {
          return Err(SpineConflict);
        }
      }
      SkipToSecond(neighbours, es, tiles, a, |list|);
    }
    forall t | IsClique(es, t) ensures t in tiles {
      CliquesAreMet(neighbours, es, t);
    }
    return Ok(tiles);
  }
}

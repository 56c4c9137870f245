/** Ice fields: the admission test on two-slot nodes, and the shortfall of eligible nodes it predicts. */
module IceFields {
  import opened ChargedIce
  import opened Common
  import opened IceCandidates
  import opened IceSelect
  import opened IceSides
  import opened IceSlots
  import opened IceTopology
  import opened IceTypes
  import opened Sorting
  import Zephyr

  const MAX_NODES: nat := 131072
  const MAX_EDGES: nat := 2097152
  const CODE_TOPOLOGY_INCOMPATIBLE: nat := 12
  const CODE_BOUNDS_EXCEEDED: nat := 13

  // ---- admission ----

  ghost function TwoSlotNodes(n: nat, tiles: seq<Tile>, spines: seq<Option<Spine>>): set<nat>
    requires |tiles| == |spines|
  {
    set v | v in Below(n) && Slots(tiles, spines, v) == 2
  }

  ghost function TwosBelow(slots: seq<nat>, k: nat): set<nat>
    requires k <= |slots|
  {
    set v | v in Below(k) && slots[v] == 2
  }

  lemma TwosGrow(slots: seq<nat>, k: nat)
    requires k < |slots|
    ensures |TwosBelow(slots, k + 1)| == |TwosBelow(slots, k)| + if slots[k] == 2 then 1 else 0
  {
    if slots[k] == 2 {
      assert TwosBelow(slots, k + 1) == TwosBelow(slots, k) + {k};
    } else {
      assert TwosBelow(slots, k + 1) == TwosBelow(slots, k);
    }
  }

  method CountTwos(slots: seq<nat>) returns (c: nat)
    ensures c == |TwosBelow(slots, |slots|)|
  {
    c := 0;
    for k := 0 to |slots|
      invariant c == |TwosBelow(slots, k)|
    {
      TwosGrow(slots, k);
      if slots[k] == 2 {
        c := c + 1;
      }
    }
  }

  /** The topology breaks a size limit of the ice families. */
  ghost predicate TooLarge(nodes: seq<nat>, edges: seq<NativeEdge>)
    requires Registered(nodes, edges)
  {
    || |nodes| > MAX_NODES || |edges| > MAX_EDGES
    || exists v :: 0 <= v < |nodes| && DegreeOf(Dense(nodes, edges), v) > MAX_DEGREE
  }

  method SizeCode(nodes: seq<nat>, edges: seq<NativeEdge>) returns (code: Option<nat>)
    requires Registered(nodes, edges)
    ensures code == if TooLarge(nodes, edges) then Some(CODE_BOUNDS_EXCEEDED) else None
  {
    var top := MaxDegree(|nodes|, Dense(nodes, edges));
    code := if |nodes| > MAX_NODES || |edges| > MAX_EDGES || top > MAX_DEGREE then Some(CODE_BOUNDS_EXCEEDED) else None;
  }

  /** A structure whose two-slot nodes cannot supply `n / divisor` fields. */
  ghost predicate TooFewTwoSlots(n: nat, divisor: nat, tiles: seq<Tile>, spines: seq<Option<Spine>>)
    requires |tiles| == |spines| && divisor > 0
  {
    n / divisor > |TwoSlotNodes(n, tiles, spines)|
  }

  predicate HasLoop(edges: seq<NativeEdge>): (b: bool)
    ensures b <==> exists i :: 0 <= i < |edges| && edges[i].0 == edges[i].1
  {
    exists e :: e in edges && e.0 == e.1
  }

  /** Code 12 for a structure error other than the degree, or too few two-slot nodes; else the size code. */
  ghost predicate Admits(divisor: nat, nodes: seq<nat>, edges: seq<NativeEdge>, found: Result<Structure, StructureError>, code: Option<nat>)
    requires Registered(nodes, edges) && divisor > 0
  {
    && (found.Ok? ==> |found.value.0| == |found.value.1|)
    && if (found.Err? && found.error != DegreeAboveLimit)
          || (found.Ok? && TooFewTwoSlots(|nodes|, divisor, found.value.0, found.value.1))
       then code == Some(CODE_TOPOLOGY_INCOMPATIBLE)
       else code == if TooLarge(nodes, edges) then Some(CODE_BOUNDS_EXCEEDED) else None
  }

  /** The admission code after the parameters were accepted: 12 for a loop, else what the verdict on the structure gives. */
  ghost predicate IsAdmission(m: nat, t: nat, divisor: nat, nodes: seq<nat>, edges: seq<NativeEdge>, code: Option<nat>)
    requires Registered(nodes, edges) && divisor > 0
  {
    if HasLoop(edges) then code == Some(CODE_TOPOLOGY_INCOMPATIBLE)
    else exists found :: IsVerdict(m, t, nodes, edges, found) && Admits(divisor, nodes, edges, found, code)
  }

  method CannotSupply(n: nat, divisor: nat, tiles: seq<Tile>, spines: seq<Option<Spine>>, ghost es: set<Edge>) returns (few: bool)
    requires Bounded(es, n, tiles, spines) && divisor > 0
    ensures few == TooFewTwoSlots(n, divisor, tiles, spines)
  {
    var slots := SlotCounts(n, tiles, spines);
    var twoSlots := CountTwos(slots);
    assert TwosBelow(slots, |slots|) == TwoSlotNodes(n, tiles, spines);
    return n / divisor > twoSlots;
  }

  /** The code for what the structure checks found. */
  method FoundCode(divisor: nat, nodes: seq<nat>, edges: seq<NativeEdge>, found: Result<Structure, StructureError>,
                   ghost m: nat, ghost t: nat) returns (code: Option<nat>)
    requires Registered(nodes, edges) && divisor > 0 && IsVerdict(m, t, nodes, edges, found) == true
    ensures Admits(divisor, nodes, edges, found, code) == true
  {
    ghost var coords := AcceptedCarries(m, t, nodes, edges, found);
    if found.Err? {
      if found.error != DegreeAboveLimit {
        return Some(CODE_TOPOLOGY_INCOMPATIBLE);
      }
    } else {
      var few := CannotSupply(|nodes|, divisor, found.value.0, found.value.1, EdgeSet(Dense(nodes, edges)));
      if few {
        return Some(CODE_TOPOLOGY_INCOMPATIBLE);
      }
    }
    code := SizeCode(nodes, edges);
  }

  method AdmissionCode(m: nat, t: nat, divisor: nat, nodes: seq<nat>, edges: seq<NativeEdge>) returns (code: Option<nat>)
    requires Registered(nodes, edges) && divisor > 0
    ensures IsAdmission(m, t, divisor, nodes, edges, code)
  {
    if HasLoop(edges) {
      return Some(CODE_TOPOLOGY_INCOMPATIBLE);
    }
    var found := Candidates(m, t, nodes, edges);
    code := FoundCode(divisor, nodes, edges, found, m, t);
  }

  // ---- generation ----

  /** Nodes in exactly two tiles of the selection. */
  ghost function EligibleNodes(n: nat, chosen: seq<Tile>): set<nat> {
    set v | v in Below(n) && |TilesAt(chosen, v)| == 2
  }

  ghost predicate Positions(n: nat, chosen: seq<Tile>) {
    Distinct(chosen) && forall t :: t in chosen ==> OrderedTile(t) && t.d < n
  }

  method SeenCounts(n: nat, chosen: seq<Tile>) returns (seen: seq<nat>)
    requires Positions(n, chosen)
    ensures |seen| == n && forall v :: 0 <= v < n ==> seen[v] == |TilesAt(chosen, v)|
  {
    seen := seq(n, _ => 0);
    for k := 0 to |chosen|
      invariant |seen| == n && forall v :: 0 <= v < n ==> seen[v] == |TilesAt(chosen[..k], v)|
    {
      assert chosen[k] in chosen;
      forall v ensures |TilesAt(chosen[..k + 1], v)| == |TilesAt(chosen[..k], v)| + if v in TileNodes(chosen[k]) then 1 else 0 {
        TilesAtGrows(chosen, k, v);
      }
      seen := BumpTile(seen, chosen[k]);
    }
    assert chosen[..|chosen|] == chosen;
  }

  method Eligible(n: nat, chosen: seq<Tile>) returns (list: seq<nat>)
    requires Positions(n, chosen)
    ensures Distinct(list) && Elements(list) == EligibleNodes(n, chosen)
    ensures forall i, j :: 0 <= i < j < |list| ==> list[i] < list[j]
  {
    var seen := SeenCounts(n, chosen);
    list := [];
    for v := 0 to n
      invariant forall i, j :: 0 <= i < j < |list| ==> list[i] < list[j]
      invariant forall x: nat :: x in list <==> x < v && seen[x] == 2
    {
      if seen[v] == 2 {
        assert forall i :: 0 <= i < |list| ==> list[i] in list;
        list := list + [v];
      }
    }
  }

  /** Nodes that carry a field, and how the field of each is built from its sign and gauge. */
  ghost predicate FieldOn(h: seq<int>, kept: set<nat>, magnitude: int, gauge: seq<int>)
    requires |gauge| == |h|
  {
    forall v :: 0 <= v < |h| ==>
      if v in kept then h[v] == magnitude * gauge[v] || h[v] == -magnitude * gauge[v] else h[v] == 0
  }

  /** The field step: shuffle the eligible nodes, keep the first `n / divisor`, and sign each kept node in ascending order. */
  method Fields(n: nat, chosen: seq<Tile>, divisor: nat, magnitude: int, gauge: seq<int>,
                order: nat -> seq<nat>, signs: nat -> nat)
    returns (code: nat, h: seq<int>, ghost eligible: seq<nat>, ghost kept: seq<nat>)
    requires Positions(n, chosen) && divisor > 0 && |gauge| == n
    requires forall k :: IsPermutation(order(k), k)
    ensures Elements(eligible) == EligibleNodes(n, chosen) && Increasing(eligible)
    ensures code == if |EligibleNodes(n, chosen)| < n / divisor then CODE_NO_INSTANCE else 0
    ensures code == 0 ==> KeptFirst(eligible, order(|eligible|), n / divisor, kept)
    ensures code == 0 ==> |h| == n && FieldOn(h, Elements(kept), magnitude, gauge)
    ensures code == 0 ==> forall k :: 0 <= k < |kept| ==> kept[k] < n && h[kept[k]] == SignOf(signs(k)) * magnitude * gauge[kept[k]]
  {
    var list := Eligible(n, chosen);
    eligible := list;
    DistinctCard(list);
    var count := n / divisor;
    h, kept := [], [];
    if |list| < count {
      return CODE_NO_INSTANCE, h, eligible, kept;
    }
    var selected := KeepFirst(list, order(|list|), count);
    assert forall k :: 0 <= k < |selected| ==> selected[k] in Elements(selected);
    h := SignFields(n, selected, magnitude, gauge, signs);
    kept := selected;
    code := 0;
  }

  method SignFields(n: nat, selected: seq<nat>, magnitude: int, gauge: seq<int>, signs: nat -> nat) returns (h: seq<int>)
    requires |gauge| == n && Distinct(selected) && forall k :: 0 <= k < |selected| ==> selected[k] < n
    ensures |h| == n && FieldOn(h, Elements(selected), magnitude, gauge)
    ensures forall k :: 0 <= k < |selected| ==> h[selected[k]] == SignOf(signs(k)) * magnitude * gauge[selected[k]]
  {
    h := seq(n, _ => 0);
    for k := 0 to |selected|
      invariant |h| == n
      invariant forall v :: 0 <= v < n && v !in selected[..k] ==> h[v] == 0
      invariant forall i :: 0 <= i < k ==> h[selected[i]] == SignOf(signs(i)) * magnitude * gauge[selected[i]]
    {
      PrefixGrows(selected, k);
      h := h[selected[k] := SignOf(signs(k)) * magnitude * gauge[selected[k]]];
    }
    assert selected[..|selected|] == selected;
    SignsAreFields(h, selected, magnitude, gauge, signs);
  }

  lemma SignsAreFields(h: seq<int>, selected: seq<nat>, magnitude: int, gauge: seq<int>, signs: nat -> nat)
    requires |h| == |gauge| && forall k :: 0 <= k < |selected| ==> selected[k] < |h|
    requires forall v :: 0 <= v < |h| && v !in selected ==> h[v] == 0
    requires forall k :: 0 <= k < |selected| ==> h[selected[k]] == SignOf(signs(k)) * magnitude * gauge[selected[k]]
    ensures FieldOn(h, Elements(selected), magnitude, gauge)
  {
    forall v | 0 <= v < |h| && v in selected
      ensures h[v] == magnitude * gauge[v] || h[v] == -magnitude * gauge[v]
    {
      var k :| 0 <= k < |selected| && selected[k] == v;
      assert SignOf(signs(k)) == 1 || SignOf(signs(k)) == -1;
    }
  }

  predicate Smaller(x: nat, y: nat) {
    x < y
  }

  /** `kept` lists, ascending, exactly the first `count` entries of the shuffled list. */
  ghost predicate KeptFirst(list: seq<nat>, order: seq<nat>, count: nat, kept: seq<nat>) {
    && |kept| == count <= |order| && Increasing(kept) && Elements(kept) <= Elements(list)
    && forall i: nat :: i < count ==> order[i] < |list| && list[order[i]] in kept
  }

  /** The first `count` entries of a shuffled list, ascending. */
  method KeepFirst(list: seq<nat>, order: seq<nat>, count: nat) returns (kept: seq<nat>)
    requires Distinct(list) && IsPermutation(order, |list|) && count <= |list|
    ensures KeptFirst(list, order, count, kept) && Distinct(kept)
  {
    assert |order| == |list| by {
      DistinctCard(order);
      assert Elements(order) == Below(|list|);
    }
    var shuffled := seq(|list|, i requires 0 <= i < |list| => assert order[i] in order; list[order[i]]);
    assert Distinct(shuffled) by {
      forall i, j | 0 <= i < j < |shuffled| ensures shuffled[i] != shuffled[j] {
        assert order[i] in order && order[j] in order && order[i] != order[j];
      }
    }
    var first := shuffled[..count];
    SortAscending(first, Smaller);
    kept := SortDistinct(first, Smaller);
    assert Elements(kept) == Elements(first);
    DistinctCard(first);
    DistinctCard(kept);
    forall x | x in first ensures x in list {
      var i :| 0 <= i < |first| && first[i] == x;
      assert order[i] in order;
      assert shuffled[i] == list[order[i]];
    }
    forall i: nat | i < count ensures order[i] < |list| && list[order[i]] in kept {
      assert order[i] in order;
      assert shuffled[i] == first[i] && first[i] in first;
    }
  }

  lemma SameSizeSubset<T>(a: set<T>, b: set<T>)
    requires a <= b && |b| <= |a|
    ensures a == b
  {
    assert |b - a| == |b| - |a|;
  }

  /** The entries named by the first `count` places of the order are the kept ones. */
  lemma FirstAreKept(list: seq<nat>, order: seq<nat>, count: nat, kept: seq<nat>)
    requires Distinct(list) && IsPermutation(order, |list|) && KeptFirst(list, order, count, kept)
    ensures forall x :: x in kept <==> exists i: nat :: i < count && order[i] < |list| && list[order[i]] == x
  {
    var first := set i: nat | i < count && order[i] < |list| :: list[order[i]];
    assert Distinct(kept);
    DistinctCard(kept);
    forall i: nat, j: nat | i < count && j < count && list[order[i]] == list[order[j]] ensures i == j {
    }
    InjectionBound(Below(count), first, (i: nat) requires i < count && order[i] < |list| => list[order[i]]);
    SameSizeSubset(first, Elements(kept));
    assert forall x :: x in kept <==> x in first;
  }

  /** The order determines the kept entries. */
  lemma KeptUnique(list: seq<nat>, order: seq<nat>, count: nat, kept: seq<nat>, also: seq<nat>)
    requires Distinct(list) && IsPermutation(order, |list|)
    requires KeptFirst(list, order, count, kept) && KeptFirst(list, order, count, also)
    ensures kept == also
  {
    FirstAreKept(list, order, count, kept);
    FirstAreKept(list, order, count, also);
    assert forall x :: x in Elements(kept) <==> x in Elements(also);
    IncreasingUnique(kept, also);
  }

  lemma IncreasingUnique(list: seq<nat>, also: seq<nat>)
    requires Increasing(list) && Increasing(also) && Elements(list) == Elements(also)
    ensures list == also
  {
    forall x ensures x in list <==> x in also {
      assert x in Elements(list) <==> x in Elements(also);
    }
    AscendingUnique(list, also, Smaller);
  }

  /** A node in two selected tiles has two slots. */
  lemma EligibleHaveTwoSlots(n: nat, tiles: seq<Tile>, spines: seq<Option<Spine>>, chosen: seq<Tile>)
    requires TilesWithSpines(tiles, spines) && Selects(tiles, spines, chosen)
    requires forall v :: 0 <= v < n ==> Slots(tiles, spines, v) <= 2
    ensures |EligibleNodes(n, chosen)| <= |TwoSlotNodes(n, tiles, spines)|
  {
    forall v | v in EligibleNodes(n, chosen) ensures v in TwoSlotNodes(n, tiles, spines) {
      MembershipBound(tiles, spines, chosen, v);
    }
    SubsetCard(EligibleNodes(n, chosen), TwoSlotNodes(n, tiles, spines));
  }

  /** Code 12 is the answer to the one verdict of the topology. */
  lemma RefusedForSlots(m: nat, t: nat, divisor: nat, nodes: seq<nat>, edges: seq<NativeEdge>, found: Result<Structure, StructureError>)
    requires Registered(nodes, edges) && divisor > 0 && !HasLoop(edges) && IsVerdict(m, t, nodes, edges, found)
    requires IsAdmission(m, t, divisor, nodes, edges, Some(CODE_TOPOLOGY_INCOMPATIBLE))
    ensures Admits(divisor, nodes, edges, found, Some(CODE_TOPOLOGY_INCOMPATIBLE))
  {
    var other :| IsVerdict(m, t, nodes, edges, other) && Admits(divisor, nodes, edges, other, Some(CODE_TOPOLOGY_INCOMPATIBLE));
    VerdictUnique(m, t, nodes, edges, found, other);
  }

  lemma TooFewForAnySelection(m: nat, n: nat, es: set<Edge>, coords: seq<Zephyr.Coord>, tiles: seq<Tile>, spines: seq<Option<Spine>>,
                              divisor: nat, chosen: seq<Tile>)
    requires Carries(m, n, es, coords, tiles, spines) && divisor > 0 && TooFewTwoSlots(n, divisor, tiles, spines)
    requires Selects(tiles, spines, chosen)
    ensures |EligibleNodes(n, chosen)| < n / divisor
  {
    EligibleHaveTwoSlots(n, tiles, spines, chosen);
  }

  /** A request refused with code 12 on a sound structure would fall short for every nonce: whatever
      selection the orders give, its eligible nodes are too few. */
  lemma RefusalIsFinal(m: nat, t: nat, divisor: nat, nodes: seq<nat>, edges: seq<NativeEdge>, found: Structure, chosen: seq<Tile>)
    requires Registered(nodes, edges) && divisor > 0 && !HasLoop(edges) && IsVerdict(m, t, nodes, edges, Ok(found))
    requires IsAdmission(m, t, divisor, nodes, edges, Some(CODE_TOPOLOGY_INCOMPATIBLE))
    requires |found.0| == |found.1| && Selects(found.0, found.1, chosen)
    ensures |EligibleNodes(|nodes|, chosen)| < |nodes| / divisor
  {
    RefusedForSlots(m, t, divisor, nodes, edges, Ok(found));
    var coords := AcceptedCarries(m, t, nodes, edges, Ok(found));
    TooFewForAnySelection(m, |nodes|, EdgeSet(Dense(nodes, edges)), coords, found.0, found.1, divisor, chosen);
  }
}

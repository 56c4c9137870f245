/** The greedy dimer walk: node-disjoint edges outside the tiles, taken in a shuffled order. */
module Dimers {
  import opened Common
  import opened IceTypes
  import opened Sorting

  const PAIR_MILLI: int := -1000

  ghost predicate Meet(e: Edge, f: Edge) {
    e.u == f.u || e.u == f.v || e.v == f.u || e.v == f.v
  }

  /** Positions of edges that pairwise share no node. */
  ghost predicate NodeDisjoint(edges: seq<Edge>, picks: set<nat>) {
    && (forall at :: at in picks ==> at < |edges|)
    && forall a, b :: a in picks && b in picks && a != b ==> !Meet(edges[a], edges[b])
  }

  ghost predicate UsedNodes(edges: seq<Edge>, taken: seq<nat>, used: set<nat>) {
    && (forall at :: at in taken ==> at < |edges| && edges[at].u in used && edges[at].v in used)
    && forall v :: v in used ==> exists at :: at in taken && at < |edges| && (v == edges[at].u || v == edges[at].v)
  }

  /** The free edge at `at` was refused or taken: it meets a taken edge. */
  ghost predicate Blocked(edges: seq<Edge>, used: set<nat>, at: nat) {
    at < |edges| && (edges[at].u in used || edges[at].v in used)
  }

  ghost function BlockedBy(edges: seq<Edge>, used: set<nat>, at: nat): (v: nat)
    requires Blocked(edges, used, at)
    ensures v in used && (v == edges[at].u || v == edges[at].v)
  {
    if edges[at].u in used then edges[at].u else edges[at].v
  }

  /** Where every edge of a list is blocked, no node-disjoint choice from it is more than twice as large. */
  lemma BlockedBound(edges: seq<Edge>, free: seq<nat>, used: set<nat>, picks: set<nat>)
    requires forall at :: at in free ==> Blocked(edges, used, at)
    requires NodeDisjoint(edges, picks) && forall at :: at in picks ==> at in free
    ensures |picks| <= |used|
  {
    InjectionBound(picks, used, (at: nat) requires Blocked(edges, used, at) => BlockedBy(edges, used, at));
  }

  /** Everything kept while the walk goes down the list. */
  ghost predicate Walking(edges: seq<Edge>, seen: seq<nat>, taken: seq<nat>, used: set<nat>) {
    && Distinct(taken) && (forall at :: at in taken ==> at in seen)
    && NodeDisjoint(edges, Elements(taken))
    && UsedNodes(edges, taken, used) && |used| == 2 * |taken|
    && forall at :: at in seen ==> Blocked(edges, used, at)
  }

  lemma UsedGrow(edges: seq<Edge>, taken: seq<nat>, used: set<nat>, at: nat)
    requires UsedNodes(edges, taken, used) && at < |edges|
    ensures UsedNodes(edges, taken + [at], used + {edges[at].u, edges[at].v})
  {
    var more, nodes := taken + [at], used + {edges[at].u, edges[at].v};
    assert forall x :: x in more <==> x in taken || x == at;
    forall v | v in nodes ensures exists x :: x in more && x < |edges| && (v == edges[x].u || v == edges[x].v) {
      if v in used {
        var x :| x in taken && x < |edges| && (v == edges[x].u || v == edges[x].v);
        assert x in more;
      } else {
        assert at in more;
      }
    }
  }

  lemma DisjointGrows(edges: seq<Edge>, taken: seq<nat>, used: set<nat>, at: nat)
    requires NodeDisjoint(edges, Elements(taken)) && UsedNodes(edges, taken, used) && at < |edges|
    requires edges[at].u !in used && edges[at].v !in used
    ensures at !in taken && NodeDisjoint(edges, Elements(taken + [at]))
  {
    assert forall x :: x in taken + [at] <==> x in taken || x == at;
    forall x | x in taken ensures !Meet(edges[x], edges[at]) && !Meet(edges[at], edges[x]) {
    }
  }

  lemma TwoMore(used: set<nat>, u: nat, v: nat)
    requires u !in used && v !in used && u != v
    ensures |used + {u, v}| == |used| + 2
  {
    assert used + {u, v} == used + {u} + {v};
  }

  lemma TakeEdge(edges: seq<Edge>, seen: seq<nat>, taken: seq<nat>, used: set<nat>, at: nat)
    requires Walking(edges, seen, taken, used) && at < |edges| && edges[at].u != edges[at].v
    requires edges[at].u !in used && edges[at].v !in used
    ensures Walking(edges, seen + [at], taken + [at], used + {edges[at].u, edges[at].v})
  {
    UsedGrow(edges, taken, used, at);
    DisjointGrows(edges, taken, used, at);
    TwoMore(used, edges[at].u, edges[at].v);
  }

  // ---- which edges the walk takes ----

  /** The picks among the first `i` edges of the list. */
  ghost function Earlier(list: seq<nat>, picks: set<nat>, i: nat): (s: set<nat>)
    requires i <= |list|
    decreases i, list
  {
    if i == 0 then {} else Earlier(list, picks, i - 1) + if list[i - 1] in picks then {list[i - 1]} else {}
  }

  lemma {:induction false} EarlierHolds(list: seq<nat>, picks: set<nat>, i: nat)
    requires i <= |list|
    ensures forall at :: at in Earlier(list, picks, i) <==> at in list[..i] && at in picks
  {
    if i > 0 {
      EarlierHolds(list, picks, i - 1);
      PrefixGrows(list, i - 1);
    }
  }

  /** Fewer than `want` were taken before place `i`, and the edge there meets none of them. */
  ghost predicate Admitted(edges: seq<Edge>, list: seq<nat>, want: nat, picks: set<nat>, i: nat) {
    && i < |list| && list[i] < |edges| && |Earlier(list, picks, i)| < want
    && forall at :: at in Earlier(list, picks, i) ==> at < |edges| && !Meet(edges[at], edges[list[i]])
  }

  /** At every place of the list, the edge is picked exactly when the edges before it admit it. */
  ghost predicate TakenInOrder(edges: seq<Edge>, list: seq<nat>, want: nat, picks: set<nat>) {
    && (forall at :: at in picks ==> at in list)
    && forall i {:trigger Admitted(edges, list, want, picks, i)} :: 0 <= i < |list| ==>
         (list[i] in picks <==> Admitted(edges, list, want, picks, i))
  }

  lemma SameHere(edges: seq<Edge>, list: seq<nat>, want: nat, picks: set<nat>, also: set<nat>, i: nat)
    requires TakenInOrder(edges, list, want, picks) && TakenInOrder(edges, list, want, also) && i < |list|
    requires Earlier(list, picks, i) == Earlier(list, also, i)
    ensures list[i] in picks <==> list[i] in also
  {
    assert Admitted(edges, list, want, picks, i) == Admitted(edges, list, want, also, i);
  }

  lemma {:induction false} EarlierUnique(edges: seq<Edge>, list: seq<nat>, want: nat, picks: set<nat>, also: set<nat>, i: nat)
    requires TakenInOrder(edges, list, want, picks) == true && TakenInOrder(edges, list, want, also) == true && i <= |list|
    ensures Earlier(list, picks, i) == Earlier(list, also, i)
  {
    if i > 0 {
      EarlierUnique(edges, list, want, picks, also, i - 1);
      SameHere(edges, list, want, picks, also, i - 1);
    }
  }

  /** The order of the list determines the picks. */
  lemma PicksUnique(edges: seq<Edge>, list: seq<nat>, want: nat, picks: set<nat>, also: set<nat>)
    requires TakenInOrder(edges, list, want, picks) && TakenInOrder(edges, list, want, also)
    ensures picks == also
  {
    EarlierUnique(edges, list, want, picks, also, |list|);
    EarlierHolds(list, picks, |list|);
    EarlierHolds(list, also, |list|);
    assert list[..|list|] == list;
    assert picks == Earlier(list, picks, |list|) && also == Earlier(list, also, |list|);
  }

  /** The rule over the first `i` places. */
  ghost predicate TakenSoFar(edges: seq<Edge>, list: seq<nat>, want: nat, taken: seq<nat>, i: nat) {
    && i <= |list| && |taken| <= want && (forall at :: at in taken ==> at in list[..i])
    && forall k {:trigger Admitted(edges, list, want, Elements(taken), k)} :: 0 <= k < i ==>
         (list[k] in taken <==> Admitted(edges, list, want, Elements(taken), k))
  }

  lemma EarlierIsTaken(list: seq<nat>, taken: seq<nat>, i: nat)
    requires i <= |list| && Distinct(taken) && forall at :: at in taken ==> at in list[..i]
    ensures Earlier(list, Elements(taken), i) == Elements(taken) && |Elements(taken)| == |taken|
  {
    DistinctCard(taken);
    EarlierHolds(list, Elements(taken), i);
  }

  lemma EarlierSame(list: seq<nat>, picks: set<nat>, also: set<nat>, i: nat)
    requires i <= |list| && forall at :: at in list[..i] ==> (at in picks <==> at in also)
    ensures Earlier(list, picks, i) == Earlier(list, also, i)
  {
    EarlierHolds(list, picks, i);
    EarlierHolds(list, also, i);
  }

  lemma EarlierKept(edges: seq<Edge>, list: seq<nat>, want: nat, taken: seq<nat>, more: seq<nat>, i: nat)
    requires Distinct(list) && TakenSoFar(edges, list, want, taken, i) && i < |list| && (more == taken || more == taken + [list[i]])
    ensures forall k {:trigger Admitted(edges, list, want, Elements(more), k)} :: 0 <= k < i ==>
              (list[k] in more <==> Admitted(edges, list, want, Elements(more), k))
  {
    forall k | 0 <= k < i ensures list[k] in more <==> Admitted(edges, list, want, Elements(more), k) {
      assert list[i] !in list[..k] && list[k] != list[i];
      EarlierSame(list, Elements(taken), Elements(more), k);
      assert Admitted(edges, list, want, Elements(taken), k) == Admitted(edges, list, want, Elements(more), k);
    }
  }

  /** The used nodes tell which edge meets a taken one. */
  lemma BlockedMeets(edges: seq<Edge>, taken: seq<nat>, used: set<nat>, at: nat)
    requires UsedNodes(edges, taken, used) && at < |edges|
    ensures Blocked(edges, used, at) <==> exists x :: x in taken && x < |edges| && Meet(edges[x], edges[at])
  {
    if Blocked(edges, used, at) {
      var v := BlockedBy(edges, used, at);
      var x :| x in taken && x < |edges| && (v == edges[x].u || v == edges[x].v);
      assert Meet(edges[x], edges[at]);
    }
  }

  lemma AdmittedIsUnblocked(edges: seq<Edge>, list: seq<nat>, want: nat, picks: set<nat>, taken: seq<nat>, used: set<nat>, i: nat)
    requires UsedNodes(edges, taken, used) && i < |list| && list[i] < |edges| && Distinct(taken)
    requires Earlier(list, picks, i) == Elements(taken)
    ensures Admitted(edges, list, want, picks, i) <==> |taken| < want && !Blocked(edges, used, list[i])
  {
    DistinctCard(taken);
    BlockedMeets(edges, taken, used, list[i]);
    assert forall at :: at in Elements(taken) <==> at in taken;
  }

  lemma OneMorePlace(edges: seq<Edge>, list: seq<nat>, want: nat, more: seq<nat>, i: nat)
    requires i < |list| && |more| <= want && forall at :: at in more ==> at in list[..i] || at == list[i]
    requires forall k {:trigger Admitted(edges, list, want, Elements(more), k)} :: 0 <= k < i ==>
               (list[k] in more <==> Admitted(edges, list, want, Elements(more), k))
    requires list[i] in more <==> Admitted(edges, list, want, Elements(more), i)
    ensures TakenSoFar(edges, list, want, more, i + 1) == true
  {
    PrefixGrows(list, i);
  }

  lemma SkipOne(edges: seq<Edge>, list: seq<nat>, want: nat, taken: seq<nat>, used: set<nat>, i: nat)
    requires Distinct(list) && TakenSoFar(edges, list, want, taken, i) == true && i < |list| && list[i] < |edges|
    requires Distinct(taken) && UsedNodes(edges, taken, used) == true && Blocked(edges, used, list[i])
    ensures TakenSoFar(edges, list, want, taken, i + 1) == true
  {
    EarlierKept(edges, list, want, taken, taken, i);
    EarlierIsTaken(list, taken, i);
    AdmittedIsUnblocked(edges, list, want, Elements(taken), taken, used, i);
    assert list[i] !in list[..i];
    OneMorePlace(edges, list, want, taken, i);
  }

  lemma TakeOne(edges: seq<Edge>, list: seq<nat>, want: nat, taken: seq<nat>, used: set<nat>, i: nat)
    requires Distinct(list) && TakenSoFar(edges, list, want, taken, i) == true && i < |list| && list[i] < |edges| && |taken| < want
    requires Distinct(taken) && UsedNodes(edges, taken, used) == true && !Blocked(edges, used, list[i])
    ensures TakenSoFar(edges, list, want, taken + [list[i]], i + 1) == true
  {
    var more := taken + [list[i]];
    EarlierKept(edges, list, want, taken, more, i);
    EarlierIsTaken(list, taken, i);
    assert list[i] !in list[..i];
    EarlierSame(list, Elements(taken), Elements(more), i);
    AdmittedIsUnblocked(edges, list, want, Elements(more), taken, used, i);
    OneMorePlace(edges, list, want, more, i);
  }

  /** Once enough edges are taken, no later place admits its edge. */
  lemma RestRefused(edges: seq<Edge>, list: seq<nat>, want: nat, taken: seq<nat>, i: nat)
    requires Distinct(list) && TakenSoFar(edges, list, want, taken, i) && Distinct(taken) && (|taken| == want || i == |list|)
    ensures TakenInOrder(edges, list, want, Elements(taken))
  {
    EarlierIsTaken(list, taken, i);
    forall k | i <= k < |list| ensures list[k] !in taken && !Admitted(edges, list, want, Elements(taken), k) {
      assert list[k] !in list[..i];
      assert forall at :: at in list[..i] ==> at in list[..k];
      EarlierIsTaken(list, taken, k);
    }
    assert forall at :: at in list[..i] ==> at in list;
  }

  method GreedyPairs(edges: seq<Edge>, free: seq<nat>, want: nat) returns (taken: seq<nat>)
    requires forall e :: e in edges ==> e.u != e.v
    requires Distinct(free) && forall at :: at in free ==> at < |edges|
    ensures |taken| <= want && Distinct(taken) && TakenInOrder(edges, free, want, Elements(taken))
    ensures NodeDisjoint(edges, Elements(taken))
    ensures |taken| < want ==> forall picks :: NodeDisjoint(edges, picks) && (forall at :: at in picks ==> at in free) ==>
      |picks| <= 2 * |taken|
  {
    taken := [];
    var used: set<nat> := {};
    for i := 0 to |free|
      invariant Walking(edges, free[..i], taken, used) && TakenSoFar(edges, free, want, taken, i) == true
    {
      if |taken| >= want {
        RestRefused(edges, free, want, taken, i);
        return;
      }
      PrefixGrows(free, i);
      assert free[..i + 1] == free[..i] + [free[i]];
      var e := edges[free[i]];
      assert e in edges;
      if e.u in used || e.v in used {
        SkipOne(edges, free, want, taken, used, i);
        continue;
      }
      TakeEdge(edges, free[..i], taken, used, free[i]);
      TakeOne(edges, free, want, taken, used, i);
      used := used + {e.u, e.v};
      taken := taken + [free[i]];
    }
    assert free[..|free|] == free;
    RestRefused(edges, free, want, taken, |free|);
    forall picks | NodeDisjoint(edges, picks) && (forall at :: at in picks ==> at in free)
      ensures |picks| <= 2 * |taken|
    {
      BlockedBound(edges, free, used, picks);
    }
  }

  // ---- the pair step of an instance ----

  /** Positions of the edges outside the tiles, ascending. */
  function FreePositions(edges: seq<Edge>, strong: set<Edge>): (free: seq<nat>)
    ensures forall at: nat :: at in free <==> at < |edges| && edges[at] !in strong
    ensures Increasing(free)
  {
    if edges == [] then []
    else
      var last := |edges| - 1;
      var rest := FreePositions(edges[..last], strong);
      assert forall i :: 0 <= i < |rest| ==> rest[i] < last by {
        assert forall i :: 0 <= i < |rest| ==> rest[i] in rest;
        assert forall at: nat :: at in rest ==> at < last;
      }
      if edges[last] in strong then rest else rest + [last]
  }

  /** The list in the given order: place `i` holds the element the order names there. */
  function Shuffled(list: seq<nat>, order: seq<nat>): (r: seq<nat>)
    requires |order| == |list| && forall x :: x in order ==> x < |list|
    ensures |r| == |list| && forall i :: 0 <= i < |r| ==> order[i] in order && r[i] == list[order[i]]
  {
    seq(|list|, i requires 0 <= i < |list| => assert order[i] in order; list[order[i]])
  }

  lemma ShuffledElements(list: seq<nat>, order: seq<nat>)
    requires |order| == |list| && IsPermutation(order, |list|)
    ensures forall x: nat :: x in Shuffled(list, order) <==> x in list
    ensures Distinct(list) ==> Distinct(Shuffled(list, order))
  {
    forall x: nat
      ensures x in Shuffled(list, order) <==> x in list
    {
      ShuffledElement(list, order, x);
    }
  }

  lemma ShuffledElement(list: seq<nat>, order: seq<nat>, x: nat)
    requires |order| == |list| && IsPermutation(order, |list|)
    ensures x in Shuffled(list, order) <==> x in list
  {
    var r := Shuffled(list, order);
    if x in list {
      var i :| 0 <= i < |list| && list[i] == x;
      assert i in order;
      var k :| 0 <= k < |order| && order[k] == i;
      assert r[k] == x;
    }
    if x in r {
      var k :| 0 <= k < |r| && r[k] == x;
      assert order[k] in order;
      assert x == list[order[k]];
    }
  }

  /** Node-disjoint sets of edges outside the tiles. */
  ghost predicate FreeDimers(edges: seq<Edge>, strong: set<Edge>, picks: set<nat>) {
    NodeDisjoint(edges, picks) && forall at :: at in picks ==> at < |edges| && edges[at] !in strong
  }

  /** The pair couplings replace the old ones, and nothing else changes. */
  ghost predicate PairsSet(j: seq<int>, couplings: seq<int>, picks: set<nat>) {
    |couplings| == |j| && forall at: nat :: at < |j| ==> couplings[at] == if at in picks then PAIR_MILLI else j[at]
  }

  /** The free edges in the shuffled order. */
  function Walk(edges: seq<Edge>, strong: set<Edge>, order: seq<nat>): (list: seq<nat>)
    requires IsPermutation(order, |FreePositions(edges, strong)|)
    ensures Distinct(list) && forall at: nat :: at in list <==> at < |edges| && edges[at] !in strong
  {
    var free := FreePositions(edges, strong);
    PermutationLength(order, |free|);
    ShuffledElements(free, order);
    Shuffled(free, order)
  }

  /** Take `want` pairs and set their couplings, or report code 14 on a shortfall. */
  method PairStep(edges: seq<Edge>, strong: set<Edge>, j: seq<int>, want: nat, order: seq<nat>)
    returns (code: nat, couplings: seq<int>, pairs: seq<Edge>, ghost picks: set<nat>)
    requires |j| == |edges| && Distinct(edges) && forall e :: e in edges ==> e.u < e.v
    requires IsPermutation(order, |FreePositions(edges, strong)|)
    ensures TakenInOrder(edges, Walk(edges, strong, order), want, picks) && FreeDimers(edges, strong, picks) && |picks| <= want
    ensures code == if |picks| == want then 0 else CODE_NO_INSTANCE
    ensures code == 0 ==> PairsSet(j, couplings, picks)
    ensures code == 0 ==> Ascending(pairs, EdgeLess) && forall e :: e in pairs <==> exists at :: at in picks && at < |edges| && edges[at] == e
    ensures code == CODE_NO_INSTANCE ==> want > 0 && forall rival :: FreeDimers(edges, strong, rival) ==> |rival| <= 2 * (want - 1)
  {
    var list := Walk(edges, strong, order);
    var taken := GreedyPairs(edges, list, want);
    picks := Elements(taken);
    DistinctCard(taken);
    assert forall at :: at in taken ==> at in picks && at in list;
    couplings, pairs := j, [];
    if |taken| < want {
      return CODE_NO_INSTANCE, couplings, pairs, picks;
    }
    couplings := SetPairs(j, taken);
    pairs := SortDistinct(EdgesAt(edges, taken), EdgeLess);
    EdgeOrder();
    SortAscending(EdgesAt(edges, taken), EdgeLess);
    EdgesAtElements(edges, taken);
    code := 0;
  }

  method SetPairs(j: seq<int>, taken: seq<nat>) returns (r: seq<int>)
    requires forall at :: at in taken ==> at < |j|
    ensures PairsSet(j, r, Elements(taken))
  {
    r := j;
    for k := 0 to |taken|
      invariant |r| == |j| && forall at: nat :: at < |j| ==> r[at] == if at in taken[..k] then PAIR_MILLI else j[at]
    {
      PrefixGrows(taken, k);
      r := r[taken[k] := PAIR_MILLI];
    }
    assert taken[..|taken|] == taken;
  }

  function EdgesAt(edges: seq<Edge>, taken: seq<nat>): seq<Edge>
    requires forall at :: at in taken ==> at < |edges|
  {
    seq(|taken|, i requires 0 <= i < |taken| => assert taken[i] in taken; edges[taken[i]])
  }

  lemma EdgesAtElements(edges: seq<Edge>, taken: seq<nat>)
    requires forall at :: at in taken ==> at < |edges|
    ensures forall e :: e in EdgesAt(edges, taken) <==> exists at :: at in Elements(taken) && at < |edges| && edges[at] == e
  {
    var r := EdgesAt(edges, taken);
    forall at | at in taken ensures edges[at] in r {
      var i :| 0 <= i < |taken| && taken[i] == at;
      assert r[i] == edges[at];
    }
    forall e | e in r ensures exists at :: at in Elements(taken) && at < |edges| && edges[at] == e {
      var i :| 0 <= i < |r| && r[i] == e;
      assert taken[i] in taken;
      assert taken[i] in Elements(taken);
    }
  }
}

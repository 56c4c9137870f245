/** Bipartite matching by recursive augmentation, as `select` runs it. */
module Matching {
  import opened AlternatingPaths
  import opened Common

  ghost predicate OwnersAdjacent(adj: seq<seq<nat>>, own: Owner) {
    forall r :: 0 <= r < |own| && own[r].Some? ==> own[r].value < |adj| && r in adj[own[r].value]
  }

  ghost predicate Injective(own: Owner) {
    forall r, q :: 0 <= r < q < |own| && own[r].Some? ==> own[r] != own[q]
  }

  ghost predicate ValidMatching(adj: seq<seq<nat>>, own: Owner) {
    OwnersAdjacent(adj, own) && Injective(own)
  }

  ghost predicate RowsInRange(adj: seq<seq<nat>>, rights: nat) {
    forall l, r :: 0 <= l < |adj| && r in adj[l] ==> r < rights
  }

  /** Left vertices that own a right vertex. */
  ghost function MatchedLeft(own: Owner): set<nat> {
    set r | 0 <= r < |own| && own[r].Some? :: own[r].value
  }

  ghost function MatchedRight(own: Owner): set<nat> {
    set r | 0 <= r < |own| && own[r].Some?
  }

  /** Every vertex of `dead` is matched, and its owner reaches nothing outside `dead`. */
  ghost predicate Closed(adj: seq<seq<nat>>, own: Owner, dead: set<nat>) {
    forall r :: r in dead ==>
      r < |own| && own[r].Some? && own[r].value < |adj| && forall q :: q in adj[own[r].value] ==> q in dead
  }

  ghost function Unvisited(visited: seq<bool>): set<nat> {
    set r | 0 <= r < |visited| && !visited[r]
  }

  ghost predicate Grows(before: seq<bool>, after: seq<bool>) {
    |before| == |after| && forall r :: 0 <= r < |before| && before[r] ==> after[r]
  }

  lemma GrowsOn(before: seq<bool>, start: seq<bool>, marked: seq<bool>, after: seq<bool>)
    requires Grows(before, start) == true && Grows(start, marked) == true && Grows(marked, after) == true
    ensures Grows(before, after) == true && Grows(start, after) == true
    ensures Unvisited(after) <= Unvisited(marked)
  {
  }

  ghost predicate RowVisited(adj: seq<seq<nat>>, visited: seq<bool>, l: nat) {
    l < |adj| && forall r :: r in adj[l] ==> r < |visited| && visited[r]
  }

  lemma NothingSpent(adj: seq<seq<nat>>, own: Owner, visited: seq<bool>)
    requires |visited| == |own| && forall r :: 0 <= r < |visited| ==> !visited[r]
    ensures Ready(adj, own, {}, visited) == true
  {
  }

  /** The vertices whose owners are being tried have been visited, and whatever else has been is spent. */
  ghost predicate Ready(adj: seq<seq<nat>>, own: Owner, stack: set<nat>, visited: seq<bool>) {
    Spent(adj, own, stack, visited) && forall r :: r in stack ==> r < |visited| && visited[r]
  }

  /** A vertex goes on the stack before the owner of it is tried. */
  lemma OntoStack(adj: seq<seq<nat>>, own: Owner, stack: set<nat>, start: seq<bool>, visited: seq<bool>, r: nat)
    requires Ready(adj, own, stack, start) == true && r < |start| && !start[r] && visited == start[r := true]
    ensures Ready(adj, own, stack + {r}, visited) == true && r !in stack
    ensures Grows(start, visited) == true && Unvisited(visited) < Unvisited(start)
  {
    assert r in Unvisited(start);
  }

  /** A vertex tried in vain leaves the stack as spent. */
  lemma OffStack(adj: seq<seq<nat>>, own: Owner, stack: set<nat>, visited: seq<bool>, r: nat)
    requires Ready(adj, own, stack + {r}, visited) == true && r < |own| && own[r].Some? && own[r].value < |adj|
    requires RowVisited(adj, visited, own[r].value) == true
    ensures Ready(adj, own, stack, visited) == true
  {
  }

  /** With a whole row visited, it reaches a free vertex nowhere outside the stack. */
  lemma RowIsUseless(adj: seq<seq<nat>>, own: Owner, stack: set<nat>, visited: seq<bool>, l: nat)
    requires Ready(adj, own, stack, visited) && RowVisited(adj, visited, l)
    ensures RowReaches(adj, own, stack, l) == false
  {
    forall r | r in adj[l] ensures !Reaches(adj, own, stack, r) {
      SpentNeverReaches(adj, own, stack, visited, r);
    }
  }

  ghost predicate PartVisited(adj: seq<seq<nat>>, visited: seq<bool>, l: nat, i: nat) {
    l < |adj| && i <= |adj[l]| && forall k :: 0 <= k < i ==> adj[l][k] < |visited| && visited[adj[l][k]]
  }

  lemma WholeRow(adj: seq<seq<nat>>, visited: seq<bool>, l: nat)
    requires l < |adj| && PartVisited(adj, visited, l, |adj[l]|)
    ensures RowVisited(adj, visited, l) == true
  {
  }

  lemma PartGrows(adj: seq<seq<nat>>, start: seq<bool>, visited: seq<bool>, l: nat, i: nat)
    requires PartVisited(adj, start, l, i) == true && Grows(start, visited) == true
    requires i < |adj[l]| && adj[l][i] < |visited| && visited[adj[l][i]]
    ensures PartVisited(adj, visited, l, i + 1) == true
  {
  }

  /** The vertices of the row before position `i` have been visited, so they are not first. */
  lemma EarlierAreUseless(adj: seq<seq<nat>>, own: Owner, stack: set<nat>, visited: seq<bool>, l: nat, i: nat)
    requires Ready(adj, own, stack, visited) && PartVisited(adj, visited, l, i)
    ensures NoneBefore(adj, own, stack, l, i) == true
  {
    forall k | 0 <= k < i ensures !Reaches(adj, own, stack, adj[l][k]) {
      SpentNeverReaches(adj, own, stack, visited, adj[l][k]);
    }
  }

  /** A set of adjacent pairs with left vertices from a list that uses every vertex at most once. */
  ghost predicate MatchingOf(adj: seq<seq<nat>>, lefts: seq<nat>, pairs: set<(nat, nat)>) {
    && (forall p :: p in pairs ==> p.0 in lefts && p.0 < |adj| && p.1 in adj[p.0])
    && (forall p, q :: p in pairs && q in pairs && (p.0 == q.0 || p.1 == q.1) ==> p == q)
  }

  /** The same with any left vertices. */
  ghost predicate IsMatching(adj: seq<seq<nat>>, pairs: set<(nat, nat)>) {
    && (forall p :: p in pairs ==> p.0 < |adj| && p.1 in adj[p.0])
    && (forall p, q :: p in pairs && q in pairs && (p.0 == q.0 || p.1 == q.1) ==> p == q)
  }

  /** What the attempts leave: every matched left vertex has been tried, and every other one tried reaches only `dead`. */
  ghost predicate Tried(adj: seq<seq<nat>>, own: Owner, dead: set<nat>, tried: seq<nat>) {
    && Closed(adj, own, dead)
    && (forall l :: l in MatchedLeft(own) ==> l in tried)
    && forall l, r :: l in tried && l !in MatchedLeft(own) && l < |adj| && r in adj[l] ==> r in dead
  }

  /** The matched right vertex that pays for one pair of a rival matching. */
  ghost function Payer(adj: seq<seq<nat>>, own: Owner, dead: set<nat>, tried: seq<nat>, p: (nat, nat)): (r: nat)
    requires Tried(adj, own, dead, tried) && p.0 in tried && p.0 < |adj| && p.1 in adj[p.0]
    ensures r in MatchedRight(own)
    ensures p.1 in dead ==> r == p.1
    ensures p.1 !in dead ==> r !in dead && own[r] == Some(p.0)
  {
    if p.1 in dead then p.1
    else
      assert p.0 in MatchedLeft(own);
      var r :| 0 <= r < |own| && own[r] == Some(p.0);
      r
  }

  /** No matching of the vertices tried so far is larger than the one found. */
  lemma CertifiedIsMaximum(adj: seq<seq<nat>>, own: Owner, dead: set<nat>, tried: seq<nat>, pairs: set<(nat, nat)>)
    requires Tried(adj, own, dead, tried) && MatchingOf(adj, tried, pairs)
    ensures |pairs| <= |MatchedRight(own)|
  {
    InjectionBound(pairs, MatchedRight(own),
      (p: (nat, nat)) requires p.0 in tried && p.0 < |adj| && p.1 in adj[p.0] => Payer(adj, own, dead, tried, p));
  }

  /** The pairs that a matching consists of. */
  ghost function PairsOf(own: Owner): set<(nat, nat)> {
    set r | 0 <= r < |own| && own[r].Some? :: (own[r].value, r)
  }

  lemma PairsAreMatching(adj: seq<seq<nat>>, own: Owner, tried: seq<nat>)
    requires ValidMatching(adj, own) && forall l :: l in MatchedLeft(own) ==> l in tried
    ensures MatchingOf(adj, tried, PairsOf(own)) && |PairsOf(own)| == |MatchedRight(own)|
  {
    var pairs := PairsOf(own);
    forall p | p in pairs ensures p.0 in tried && p.0 < |adj| && p.1 in adj[p.0] {
      assert p.0 in MatchedLeft(own);
    }
    InjectionBound(pairs, MatchedRight(own), (p: (nat, nat)) requires p in pairs => p.1);
    InjectionBound(MatchedRight(own), pairs, (r: nat) requires r < |own| && own[r].Some? => (own[r].value, r));
  }

  // ---- which left vertices end matched ----

  /** Vertex `l` lets more vertices be matched than the vertices tried before it. */
  ghost predicate Gains(adj: seq<seq<nat>>, before: seq<nat>, l: nat) {
    exists more :: MatchingOf(adj, before + [l], more) && forall pairs :: MatchingOf(adj, before, pairs) ==> |pairs| < |more|
  }

  /** Of the first `k` vertices tried, exactly those that gain are matched. */
  ghost predicate MatchesGains(adj: seq<seq<nat>>, own: Owner, order: seq<nat>, k: nat)
    requires k <= |order|
  {
    forall i :: 0 <= i < k ==> (order[i] in MatchedLeft(own) <==> Gains(adj, order[..i], order[i]))
  }

  ghost function VisitedSet(visited: seq<bool>): set<nat> {
    set r: nat | r < |visited| && visited[r]
  }

  // ---- what taking a path does to a matching ----

  lemma {:induction false} PathIsSimple(adj: seq<seq<nat>>, own: Owner, avoid: set<nat>, l: nat, p: seq<nat>)
    requires FirstPath(adj, own, avoid, l, p)
    ensures Distinct(p) && forall i :: 0 <= i < |p| ==> p[i] !in avoid
    decreases |p|
  {
    if |p| > 1 {
      PathIsSimple(adj, own, avoid + {p[0]}, own[p[0]].value, p[1..]);
      assert p == [p[0]] + p[1..];
    }
  }

  /** The path enters nothing that earlier attempts exhausted. */
  lemma {:induction false} PathAvoidsDead(adj: seq<seq<nat>>, own: Owner, avoid: set<nat>, p: seq<nat>, dead: set<nat>, i: nat)
    requires Leads(adj, own, avoid, p) && Closed(adj, own, dead) && i < |p|
    ensures p[i] !in dead
    decreases |p| - i
  {
    if i + 1 < |p| {
      PathAvoidsDead(adj, own, avoid, p, dead, i + 1);
    }
  }

  /** Where the owner of `r` came from: `l` itself, the vertex before it on the path, or no change. */
  lemma CameFrom(was: Owner, now: Owner, l: nat, p: seq<nat>, r: nat) returns (i: nat)
    requires Moved(was, now, l, p) && r < |now|
    ensures r in p ==> i < |p| && p[i] == r
    ensures r in p && i == 0 ==> now[r] == Some(l)
    ensures r in p && i > 0 ==> now[r] == was[p[i - 1]]
    ensures r !in p ==> now[r] == was[r]
  {
    i := 0;
    if r in p {
      i :| 0 <= i < |p| && p[i] == r;
    }
  }

  lemma MovedAdjacent(adj: seq<seq<nat>>, was: Owner, now: Owner, l: nat, p: seq<nat>)
    requires OwnersAdjacent(adj, was) && Takes(adj, was, {}, l, p, now)
    ensures OwnersAdjacent(adj, now)
  {
    forall r | 0 <= r < |now| && now[r].Some? ensures now[r].value < |adj| && r in adj[now[r].value] {
      var i := CameFrom(was, now, l, p, r);
    }
  }

  lemma MovedInjective(adj: seq<seq<nat>>, was: Owner, now: Owner, l: nat, p: seq<nat>, r: nat, q: nat)
    requires Injective(was) && l !in MatchedLeft(was) && Distinct(p) && Leads(adj, was, {}, p) && Moved(was, now, l, p)
    requires r < |now| && q < |now| && now[r].Some? && now[r] == now[q]
    ensures r == q
  {
    var i := CameFrom(was, now, l, p, r);
    var j := CameFrom(was, now, l, p, q);
    assert forall k :: 0 <= k < |p| ==> p[k] in p;
    if r in p && q in p && i > 0 && j > 0 {
      assert p[i - 1] == p[j - 1];
    }
  }

  /** Taking a path matches `l` and leaves every matched left vertex matched. */
  lemma MovedLeft(adj: seq<seq<nat>>, was: Owner, now: Owner, l: nat, p: seq<nat>)
    requires Distinct(p) && Leads(adj, was, {}, p) && Moved(was, now, l, p)
    ensures MatchedLeft(now) == MatchedLeft(was) + {l}
  {
    forall x: nat ensures x in MatchedLeft(now) <==> x in MatchedLeft(was) + {l} {
      if x in MatchedLeft(now) {
        var r :| 0 <= r < |now| && now[r] == Some(x);
        var i := CameFrom(was, now, l, p, r);
      }
      if x in MatchedLeft(was) {
        var r :| 0 <= r < |was| && was[r] == Some(x);
        if r in p {
          var i :| 0 <= i < |p| && p[i] == r;
          assert now[p[i + 1]] == was[p[i + 1 - 1]];
        }
      }
      if x == l {
        assert now[p[0]] == Some(x);
      }
    }
  }

  lemma DeadUntouched(adj: seq<seq<nat>>, was: Owner, now: Owner, l: nat, p: seq<nat>, dead: set<nat>)
    requires Closed(adj, was, dead) && Leads(adj, was, {}, p) && Moved(was, now, l, p)
    ensures forall r :: r in dead ==> r < |now| && now[r] == was[r]
  {
    forall i | 0 <= i < |p| ensures p[i] !in dead {
      PathAvoidsDead(adj, was, {}, p, dead, i);
    }
  }

  lemma Succeeds(adj: seq<seq<nat>>, was: Owner, now: Owner, dead: set<nat>, tried: seq<nat>, l: nat, p: seq<nat>)
    requires ValidMatching(adj, was) && Tried(adj, was, dead, tried) && l !in tried && Takes(adj, was, {}, l, p, now)
    ensures ValidMatching(adj, now) && Tried(adj, now, dead, tried + [l]) && MatchedLeft(now) == MatchedLeft(was) + {l}
  {
    PathIsSimple(adj, was, {}, l, p);
    MovedAdjacent(adj, was, now, l, p);
    forall r, q | 0 <= r < q < |now| && now[r].Some? ensures now[r] != now[q] {
      if now[r] == now[q] {
        MovedInjective(adj, was, now, l, p, r, q);
      }
    }
    MovedLeft(adj, was, now, l, p);
    DeadUntouched(adj, was, now, l, p, dead);
  }

  lemma Fails(adj: seq<seq<nat>>, own: Owner, dead: set<nat>, tried: seq<nat>, l: nat, after: seq<bool>)
    requires Tried(adj, own, dead, tried) && Ready(adj, own, {}, after) && RowVisited(adj, after, l)
    ensures Tried(adj, own, dead + VisitedSet(after), tried + [l])
  {
  }

  lemma RightsAreLefts(own: Owner)
    requires Injective(own)
    ensures |MatchedRight(own)| == |MatchedLeft(own)|
  {
    var holder := map l | l in MatchedLeft(own) :: RightOf(own, l);
    InjectionBound(MatchedLeft(own), MatchedRight(own), (l: nat) requires l in holder => holder[l]);
    InjectionBound(MatchedRight(own), MatchedLeft(own), (r: nat) requires r < |own| && own[r].Some? => own[r].value);
  }

  ghost function RightOf(own: Owner, l: nat): (r: nat)
    requires l in MatchedLeft(own)
    ensures r < |own| && own[r] == Some(l)
  {
    var r :| 0 <= r < |own| && own[r] == Some(l);
    r
  }

  lemma SuccessGains(adj: seq<seq<nat>>, was: Owner, now: Owner, dead: set<nat>, order: seq<nat>, k: nat)
    requires Distinct(order) && k < |order| && MatchesGains(adj, was, order, k) && ValidMatching(adj, was) && ValidMatching(adj, now)
    requires Tried(adj, was, dead, order[..k]) && MatchedLeft(now) == MatchedLeft(was) + {order[k]}
    ensures MatchesGains(adj, now, order, k + 1)
  {
    var tried, l := order[..k], order[k];
    RightsAreLefts(was);
    RightsAreLefts(now);
    assert l !in tried && forall x :: x in MatchedLeft(now) ==> x in tried + [l];
    PairsAreMatching(adj, now, tried + [l]);
    forall pairs | MatchingOf(adj, tried, pairs) ensures |pairs| < |PairsOf(now)| {
      CertifiedIsMaximum(adj, was, dead, tried, pairs);
    }
    assert Gains(adj, tried, l);
  }

  lemma FailureGainsNothing(adj: seq<seq<nat>>, own: Owner, dead: set<nat>, order: seq<nat>, k: nat)
    requires Distinct(order) && k < |order| && MatchesGains(adj, own, order, k) && ValidMatching(adj, own)
    requires (forall l :: l in MatchedLeft(own) ==> l in order[..k]) && Tried(adj, own, dead, order[..k] + [order[k]])
    ensures MatchesGains(adj, own, order, k + 1)
  {
    var tried, l := order[..k], order[k];
    assert l !in tried;
    PairsAreMatching(adj, own, tried);
    forall more | MatchingOf(adj, tried + [l], more) ensures |more| <= |PairsOf(own)| {
      CertifiedIsMaximum(adj, own, dead, tried + [l], more);
    }
    assert !Gains(adj, tried, l);
  }

  ghost predicate Maximum(adj: seq<seq<nat>>, own: Owner) {
    ValidMatching(adj, own) && forall pairs :: IsMatching(adj, pairs) ==> |pairs| <= |MatchedRight(own)|
  }

  /** Everything kept over the attempts: what failed is certified, what gained is matched, and the path of each was the first. */
  ghost predicate Progress(adj: seq<seq<nat>>, order: seq<nat>, i: nat, own: Owner, dead: set<nat>, states: seq<Owner>)
    requires i <= |order|
  {
    && ValidMatching(adj, own) && Tried(adj, own, dead, order[..i]) && MatchesGains(adj, own, order, i)
    && Trace(adj, |own|, order[..i], states) && |states| == i + 1 && states[i] == own
  }

  lemma ProgressStarts(adj: seq<seq<nat>>, order: seq<nat>, own: Owner)
    requires ValidMatching(adj, own) && forall r :: 0 <= r < |own| ==> own[r].None?
    ensures Progress(adj, order, 0, own, {}, [own]) == true
  {
    assert own == seq(|own|, _ => None);
  }

  lemma ProgressSucceeds(adj: seq<seq<nat>>, order: seq<nat>, i: nat, was: Owner, dead: set<nat>, states: seq<Owner>, now: Owner, p: seq<nat>)
    returns (more: seq<Owner>)
    requires Distinct(order) && i < |order| && order[i] < |adj| && Progress(adj, order, i, was, dead, states) == true
    requires Takes(adj, was, {}, order[i], p, now) == true
    ensures Progress(adj, order, i + 1, now, dead, more) == true
  {
    assert order[i] !in order[..i];
    PrefixGrows(order, i);
    Succeeds(adj, was, now, dead, order[..i], order[i], p);
    SuccessGains(adj, was, now, dead, order, i);
    more := TraceGrows(adj, |was|, order, i, states, now, true, p);
  }

  lemma ProgressFails(adj: seq<seq<nat>>, order: seq<nat>, i: nat, own: Owner, dead: set<nat>, states: seq<Owner>, after: seq<bool>)
    returns (more: seq<Owner>)
    requires Distinct(order) && i < |order| && order[i] < |adj| && Progress(adj, order, i, own, dead, states) == true
    requires Ready(adj, own, {}, after) == true && RowReaches(adj, own, {}, order[i]) == false
    requires RowVisited(adj, after, order[i]) == true
    ensures Progress(adj, order, i + 1, own, dead + VisitedSet(after), more) == true
  {
    PrefixGrows(order, i);
    Fails(adj, own, dead, order[..i], order[i], after);
    FailureGainsNothing(adj, own, dead + VisitedSet(after), order, i);
    more := TraceGrows(adj, |own|, order, i, states, own, false, []);
  }

  lemma ProgressEnds(adj: seq<seq<nat>>, order: seq<nat>, own: Owner, dead: set<nat>, states: seq<Owner>)
    requires IsPermutation(order, |adj|) && Progress(adj, order, |order|, own, dead, states) == true
    ensures Maximum(adj, own) && MatchesGains(adj, own, order, |order|) && Runs(adj, |own|, order, own)
  {
    assert order[..|order|] == order;
    forall pairs | IsMatching(adj, pairs) ensures |pairs| <= |MatchedRight(own)| {
      CertifiedIsMaximum(adj, own, dead, order, pairs);
    }
  }

  class Matcher {
    /** Rows of right vertices, in the order they are tried. */
    const adj: seq<seq<nat>>
    /** The program's `match` list. */
    const owner: array<Option<nat>>

    ghost predicate Valid()
      reads owner
    {
      RowsInRange(adj, owner.Length) && ValidMatching(adj, owner[..])
    }

    constructor (adj: seq<seq<nat>>, rights: nat)
      requires RowsInRange(adj, rights)
      ensures this.adj == adj && owner.Length == rights && fresh(owner)
      ensures Valid() && forall r :: 0 <= r < rights ==> owner[r].None?
    {
      this.adj := adj;
      owner := new Option<nat>[rights](_ => None);
    }

    /** `stack` holds the vertices whose owners are being tried. */
    method Attempt(l: nat, visited: array<bool>, ghost stack: set<nat>) returns (found: bool, ghost path: seq<nat>)
      requires Valid() && l < |adj| && visited.Length == owner.Length
      requires Ready(adj, owner[..], stack, visited[..]) == true
      modifies owner, visited
      ensures found ==> Takes(adj, old(owner[..]), stack, l, path, owner[..]) == true
      ensures !found ==> owner[..] == old(owner[..]) && RowReaches(adj, owner[..], stack, l) == false
      ensures !found ==> Ready(adj, owner[..], stack, visited[..]) == true && RowVisited(adj, visited[..], l) == true
      ensures Grows(old(visited[..]), visited[..]) == true
      decreases Unvisited(visited[..])
    {
      ghost var was, before := owner[..], visited[..];
      for i := 0 to |adj[l]|
        invariant owner[..] == was && Ready(adj, was, stack, visited[..]) == true
        invariant Grows(before, visited[..]) == true && Unvisited(visited[..]) <= Unvisited(before)
        invariant PartVisited(adj, visited[..], l, i) == true
      {
        var r := adj[l][i];
        assert r in adj[l];
        ghost var start := visited[..];
        if !visited[r] {
          EarlierAreUseless(adj, was, stack, start, l, i);
          visited[r] := true;
          OntoStack(adj, was, stack, start, visited[..], r);
          var held := owner[r];
          if held.None? {
            owner[r] := Some(l);
            FreeEndsPath(adj, was, stack, l, i, r, owner[..]);
            return true, [r];
          }
          ghost var marked := visited[..];
          found, path := Attempt(held.value, visited, stack + {r});
          GrowsOn(before, start, marked, visited[..]);
          if found {
            ghost var mid := owner[..];
            owner[r] := Some(l);
            OwnerExtendsPath(adj, was, stack, l, i, r, path, mid, owner[..]);
            path := [r] + path;
            return;
          }
          OffStack(adj, was, stack, visited[..], r);
        }
        PartGrows(adj, start, visited[..], l, i);
      }
      WholeRow(adj, visited[..], l);
      RowIsUseless(adj, was, stack, visited[..], l);
      return false, [];
    }

    /** Attempt every left vertex once, each with nothing visited. */
    method Run(order: seq<nat>)
      requires Valid() && IsPermutation(order, |adj|)
      requires forall r :: 0 <= r < owner.Length ==> owner[r].None?
      modifies owner
      ensures Valid() && Maximum(adj, owner[..])
      ensures MatchesGains(adj, owner[..], order, |order|)
      ensures Runs(adj, owner.Length, order, owner[..])
    {
      ghost var dead: set<nat> := {};
      ghost var states := [owner[..]];
      ProgressStarts(adj, order, owner[..]);
      for i := 0 to |order|
        invariant Valid() && Progress(adj, order, i, owner[..], dead, states) == true
      {
        var l := order[i];
        assert l in order;
        var visited := new bool[owner.Length](_ => false);
        ghost var was := owner[..];
        NothingSpent(adj, was, visited[..]);
        var found, path := Attempt(l, visited, {});
        if found {
          states := ProgressSucceeds(adj, order, i, was, dead, states, owner[..], path);
        } else {
          states := ProgressFails(adj, order, i, was, dead, states, visited[..]);
          dead := dead + VisitedSet(visited[..]);
        }
      }
      ProgressEnds(adj, order, owner[..], dead, states);
    }
  }
}

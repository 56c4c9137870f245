/** What the order of the vertices and of their rows decides: the path each attempt takes, and so the whole matching. */
module AlternatingPaths {
  import opened Common

  /** `own[r]` is the left vertex matched to right vertex `r`. */
  type Owner = seq<Option<nat>>

  // ---- reaching a free vertex ----

  /** Right vertices outside `avoid`, each in the row of the owner of the one before it, the last one free. */
  ghost predicate Leads(adj: seq<seq<nat>>, own: Owner, avoid: set<nat>, p: seq<nat>) {
    && p != []
    && (forall i :: 0 <= i < |p| ==> p[i] < |own| && p[i] !in avoid)
    && (forall i :: 0 <= i < |p| - 1 ==> own[p[i]].Some? && own[p[i]].value < |adj| && p[i + 1] in adj[own[p[i]].value])
    && own[p[|p| - 1]].None?
  }

  ghost predicate Reaches(adj: seq<seq<nat>>, own: Owner, avoid: set<nat>, r: nat) {
    exists p :: Leads(adj, own, avoid, p) && p[0] == r
  }

  /** Some vertex of the row is outside `avoid` and reaches a free vertex. */
  ghost predicate RowReaches(adj: seq<seq<nat>>, own: Owner, avoid: set<nat>, l: nat)
    requires l < |adj|
  {
    exists r :: r in adj[l] && Reaches(adj, own, avoid, r)
  }

  /** A matched vertex reaches a free one exactly through the row of its owner. */
  lemma ReachesThrough(adj: seq<seq<nat>>, own: Owner, avoid: set<nat>, r: nat, p: seq<nat>)
    requires r < |own| && own[r].Some? && own[r].value < |adj| && r !in avoid
    requires Leads(adj, own, avoid + {r}, p) && p[0] in adj[own[r].value]
    ensures Leads(adj, own, avoid, [r] + p) && Reaches(adj, own, avoid, r)
  {
    var q := [r] + p;
    assert q[0] == r;
  }

  /** The visited vertices outside the stack are matched and lead to visited vertices only. */
  ghost predicate Spent(adj: seq<seq<nat>>, own: Owner, stack: set<nat>, visited: seq<bool>) {
    |visited| == |own| &&
    forall r :: 0 <= r < |own| && visited[r] && r !in stack ==>
      own[r].Some? && own[r].value < |adj| && forall q :: q in adj[own[r].value] ==> q < |visited| && visited[q]
  }

  /** Nothing spent reaches a free vertex around the stack. */
  lemma {:induction false} SpentIsUseless(adj: seq<seq<nat>>, own: Owner, stack: set<nat>, visited: seq<bool>, p: seq<nat>)
    requires Spent(adj, own, stack, visited) && Leads(adj, own, stack, p) && visited[p[0]]
    ensures false
    decreases |p|
  {
    if |p| > 1 {
      SpentIsUseless(adj, own, stack, visited, p[1..]);
    }
  }

  lemma SpentNeverReaches(adj: seq<seq<nat>>, own: Owner, stack: set<nat>, visited: seq<bool>, r: nat)
    requires Spent(adj, own, stack, visited) && r < |visited| && visited[r]
    ensures !Reaches(adj, own, stack, r)
  {
    if p :| Leads(adj, own, stack, p) && p[0] == r {
      SpentIsUseless(adj, own, stack, visited, p);
    }
  }

  // ---- the path of one attempt ----

  /** None of the first `i` vertices of the row reaches a free vertex outside `avoid`. */
  ghost predicate NoneBefore(adj: seq<seq<nat>>, own: Owner, avoid: set<nat>, l: nat, i: nat) {
    l < |adj| && i <= |adj[l]| && forall k :: 0 <= k < i ==> !Reaches(adj, own, avoid, adj[l][k])
  }

  /** `r` is the first vertex of the row that reaches a free vertex outside `avoid`. */
  ghost predicate FirstReaching(adj: seq<seq<nat>>, own: Owner, avoid: set<nat>, l: nat, r: nat) {
    && l < |adj| && r < |own| && Reaches(adj, own, avoid, r)
    && exists i :: 0 <= i < |adj[l]| && adj[l][i] == r && NoneBefore(adj, own, avoid, l, i)
  }

  /** The path that takes the first such vertex at every step, without returning to itself. */
  ghost predicate FirstPath(adj: seq<seq<nat>>, own: Owner, avoid: set<nat>, l: nat, p: seq<nat>)
    decreases |p|
  {
    && p != [] && FirstReaching(adj, own, avoid, l, p[0])
    && if own[p[0]].None? then |p| == 1 else FirstPath(adj, own, avoid + {p[0]}, own[p[0]].value, p[1..])
  }

  /** Along the path every vertex goes to the owner of the one before it, and the first to `l`. */
  ghost predicate Moved(was: Owner, now: Owner, l: nat, p: seq<nat>) {
    && |now| == |was|
    && (forall i :: 0 <= i < |p| ==> p[i] < |was|)
    && (p != [] ==> now[p[0]] == Some(l))
    && (forall i :: 0 < i < |p| ==> now[p[i]] == was[p[i - 1]])
    && forall r: nat :: r < |was| && r !in p ==> now[r] == was[r]
  }

  /** An attempt for `l` takes the first path. */
  ghost predicate Takes(adj: seq<seq<nat>>, was: Owner, avoid: set<nat>, l: nat, p: seq<nat>, now: Owner) {
    l < |adj| && RowReaches(adj, was, avoid, l) && Leads(adj, was, avoid, p) && FirstPath(adj, was, avoid, l, p) && Moved(was, now, l, p)
  }

  /** One attempt: the first path if there is one, and nothing otherwise. */
  ghost predicate Turn(adj: seq<seq<nat>>, was: Owner, l: nat, now: Owner) {
    && l < |adj|
    && if RowReaches(adj, was, {}, l) then exists p :: Takes(adj, was, {}, l, p, now) else now == was
  }

  /** The matchings before and after each attempt, from the empty one. */
  ghost predicate Trace(adj: seq<seq<nat>>, rights: nat, order: seq<nat>, states: seq<Owner>) {
    && |states| == |order| + 1 && states[0] == seq(rights, _ => None)
    && forall i :: 0 <= i < |order| ==> Turn(adj, states[i], order[i], states[i + 1])
  }

  /** The matching after all attempts in order. */
  ghost predicate Runs(adj: seq<seq<nat>>, rights: nat, order: seq<nat>, own: Owner) {
    exists states :: Trace(adj, rights, order, states) && states[|order|] == own
  }

  // ---- the orders determine the matching ----

  lemma FirstReachingUnique(adj: seq<seq<nat>>, own: Owner, avoid: set<nat>, l: nat, r: nat, q: nat)
    requires FirstReaching(adj, own, avoid, l, r) && FirstReaching(adj, own, avoid, l, q)
    ensures r == q
  {
  }

  lemma {:induction false} FirstPathUnique(adj: seq<seq<nat>>, own: Owner, avoid: set<nat>, l: nat, p: seq<nat>, q: seq<nat>)
    requires FirstPath(adj, own, avoid, l, p) && FirstPath(adj, own, avoid, l, q)
    ensures p == q
    decreases |p|
  {
    FirstReachingUnique(adj, own, avoid, l, p[0], q[0]);
    if own[p[0]].Some? {
      FirstPathUnique(adj, own, avoid + {p[0]}, own[p[0]].value, p[1..], q[1..]);
    }
    assert p == [p[0]] + p[1..] && q == [q[0]] + q[1..];
  }

  lemma MovedUnique(was: Owner, now: Owner, also: Owner, l: nat, p: seq<nat>)
    requires Moved(was, now, l, p) && Moved(was, also, l, p)
    ensures now == also
  {
    forall r: nat | r < |was| ensures now[r] == also[r] {
      if r in p {
        var i :| 0 <= i < |p| && p[i] == r;
        assert i > 0 ==> now[p[i]] == was[p[i - 1]] && also[p[i]] == was[p[i - 1]];
      }
    }
  }

  lemma TurnUnique(adj: seq<seq<nat>>, was: Owner, l: nat, now: Owner, also: Owner)
    requires Turn(adj, was, l, now) && Turn(adj, was, l, also)
    ensures now == also
  {
    if RowReaches(adj, was, {}, l) {
      var p :| Takes(adj, was, {}, l, p, now);
      var q :| Takes(adj, was, {}, l, q, also);
      FirstPathUnique(adj, was, {}, l, p, q);
      MovedUnique(was, now, also, l, p);
    }
  }

  lemma {:induction false} TraceUnique(adj: seq<seq<nat>>, rights: nat, order: seq<nat>, states: seq<Owner>, also: seq<Owner>, k: nat)
    requires Trace(adj, rights, order, states) && Trace(adj, rights, order, also) && k <= |order|
    ensures states[k] == also[k]
  {
    if k > 0 {
      TraceUnique(adj, rights, order, states, also, k - 1);
      assert Turn(adj, states[k - 1], order[k - 1], states[k - 1 + 1]) && Turn(adj, also[k - 1], order[k - 1], also[k - 1 + 1]);
      TurnUnique(adj, states[k - 1], order[k - 1], states[k], also[k]);
    }
  }

  /** The rows and the order of the attempts determine the matching. */
  lemma RunsUnique(adj: seq<seq<nat>>, rights: nat, order: seq<nat>, own: Owner, also: Owner)
    requires Runs(adj, rights, order, own) && Runs(adj, rights, order, also)
    ensures own == also
  {
    var states :| Trace(adj, rights, order, states) && states[|order|] == own;
    var others :| Trace(adj, rights, order, others) && others[|order|] == also;
    TraceUnique(adj, rights, order, states, others, |order|);
  }

  // ---- the path is the first of all simple paths ----

  /** `x` stands in the row before any `y`. */
  ghost predicate StandsBefore(row: seq<nat>, x: nat, y: nat) {
    exists k :: 0 <= k < |row| && row[k] == x && y !in row[..k + 1]
  }

  /** The two paths are equal, or `p` takes the earlier vertex of the row where they part. */
  ghost predicate NoLater(adj: seq<seq<nat>>, own: Owner, l: nat, p: seq<nat>, q: seq<nat>)
    decreases |p|
  {
    || p == q
    || (p != [] && q != [] && l < |adj|
        && if p[0] != q[0] then StandsBefore(adj[l], p[0], q[0])
           else p[0] < |own| && own[p[0]].Some? && NoLater(adj, own, own[p[0]].value, p[1..], q[1..]))
  }

  lemma PartsEarlier(adj: seq<seq<nat>>, own: Owner, avoid: set<nat>, l: nat, x: nat, q: seq<nat>)
    requires FirstReaching(adj, own, avoid, l, x) && Leads(adj, own, avoid, q) && q[0] != x
    ensures StandsBefore(adj[l], x, q[0])
  {
    var i :| 0 <= i < |adj[l]| && adj[l][i] == x && NoneBefore(adj, own, avoid, l, i);
    assert Reaches(adj, own, avoid, q[0]);
    PrefixGrows(adj[l], i);
    assert q[0] !in adj[l][..i];
  }

  lemma RestLeads(adj: seq<seq<nat>>, own: Owner, avoid: set<nat>, q: seq<nat>)
    requires Leads(adj, own, avoid, q) && Distinct(q) && |q| > 1
    ensures own[q[0]].Some? && own[q[0]].value < |adj| && q[1..][0] in adj[own[q[0]].value]
    ensures Leads(adj, own, avoid + {q[0]}, q[1..]) && Distinct(q[1..])
  {
  }

  /** Among all simple paths from `l` to a free vertex, the one taken is the first in the order of the rows. */
  lemma {:induction false} FirstPathIsLeast(adj: seq<seq<nat>>, own: Owner, avoid: set<nat>, l: nat, p: seq<nat>, q: seq<nat>)
    requires FirstPath(adj, own, avoid, l, p)
    requires Leads(adj, own, avoid, q) && Distinct(q) && l < |adj| && q[0] in adj[l]
    ensures NoLater(adj, own, l, p, q)
    decreases |p|
  {
    if p[0] != q[0] {
      PartsEarlier(adj, own, avoid, l, p[0], q);
    } else if own[p[0]].None? {
      assert q == [q[0]] && p == [p[0]];
    } else {
      RestLeads(adj, own, avoid, q);
      FirstPathIsLeast(adj, own, avoid + {p[0]}, own[p[0]].value, p[1..], q[1..]);
    }
  }

  // ---- steps of an attempt ----

  lemma FreeEndsPath(adj: seq<seq<nat>>, own: Owner, avoid: set<nat>, l: nat, i: nat, r: nat, now: Owner)
    requires l < |adj| && i < |adj[l]| && adj[l][i] == r && r < |own| && r !in avoid && own[r].None?
    requires NoneBefore(adj, own, avoid, l, i) == true
    requires now == own[r := Some(l)]
    ensures Takes(adj, own, avoid, l, [r], now) == true
  {
    assert Leads(adj, own, avoid, [r]) && [r][0] == r;
    assert r in adj[l];
  }

  lemma OwnerExtendsPath(adj: seq<seq<nat>>, own: Owner, avoid: set<nat>, l: nat, i: nat, r: nat, p: seq<nat>, mid: Owner, now: Owner)
    requires l < |adj| && i < |adj[l]| && adj[l][i] == r && r < |own| && r !in avoid
    requires own[r].Some? && own[r].value < |adj|
    requires NoneBefore(adj, own, avoid, l, i) == true
    requires Takes(adj, own, avoid + {r}, own[r].value, p, mid) == true && r < |mid| && now == mid[r := Some(l)]
    ensures Takes(adj, own, avoid, l, [r] + p, now) == true
  {
    var q := [r] + p;
    assert q[1..] == p;
    assert r in adj[l];
    ReachesThrough(adj, own, avoid, r, p);
    assert FirstPath(adj, own, avoid, l, q);
    ShiftsOn(own, mid, l, r, p);
  }

  lemma ShiftsOn(was: Owner, mid: Owner, l: nat, r: nat, p: seq<nat>)
    requires r < |was| && was[r].Some? && p != [] && r !in p && Moved(was, mid, was[r].value, p)
    ensures Moved(was, mid[r := Some(l)], l, [r] + p)
  {
    var q, now := [r] + p, mid[r := Some(l)];
    forall i | 0 < i < |q| ensures now[q[i]] == was[q[i - 1]] {
      assert q[i] == p[i - 1] && p[i - 1] in p;
      assert i > 1 ==> q[i - 1] == p[i - 2];
    }
    forall x: nat | x < |was| && x !in q ensures now[x] == was[x] {
      assert x !in p;
    }
  }

  lemma TraceGrows(adj: seq<seq<nat>>, rights: nat, order: seq<nat>, k: nat, states: seq<Owner>, now: Owner, found: bool, path: seq<nat>)
    returns (more: seq<Owner>)
    requires k < |order| && order[k] < |adj| && Trace(adj, rights, order[..k], states) == true && |states| == k + 1
    requires found ==> Takes(adj, states[k], {}, order[k], path, now) == true
    requires !found ==> RowReaches(adj, states[k], {}, order[k]) == false && now == states[k]
    ensures Trace(adj, rights, order[..k + 1], more) == true && |more| == k + 2 && more[k + 1] == now
  {
    more := states + [now];
    forall i | 0 <= i < k + 1 ensures Turn(adj, more[i], order[..k + 1][i], more[i + 1]) {
      if i < k {
        assert Turn(adj, states[i], order[..k][i], states[i + 1]);
      } else {
        assert found ==> Takes(adj, more[i], {}, order[k], path, more[i + 1]);
      }
    }
  }
}

/** What the order of the breadth-first walks decides: one potential for every tile. */
module WalkOrder {
  import opened GaugeLinks
  import opened Sorting

  /** A linked tile and the relation of the link. */
  datatype Neighbour = Neighbour(tile: nat, relation: int)

  predicate NeighbourLess(p: Neighbour, q: Neighbour) {
    p.tile < q.tile || (p.tile == q.tile && p.relation < q.relation)
  }

  lemma NeighbourOrder()
    ensures StrictOrder(NeighbourLess)
  {
  }

  ghost predicate LinkJoins(l: Link, x: nat, y: nat, r: int) {
    l.relation == r && ((l.a == x && l.b == y) || (l.a == y && l.b == x))
  }

  /** Some link joins `x` and `y` with relation `r`. */
  ghost predicate Joined(links: seq<Link>, x: nat, y: nat, r: int) {
    exists k :: 0 <= k < |links| && LinkJoins(links[k], x, y, r)
  }

  // ---- one walk ----

  /** The potentials so far and the queue of tiles to scan. */
  datatype Front = Front(pot: seq<int>, queue: seq<nat>)

  /** Going down a row of neighbours of `x`: each tile without a potential gets one and joins the queue. */
  ghost function Visit(f: Front, x: nat, row: seq<Neighbour>): Front
    decreases |row|, f, x
  {
    if row == [] then f
    else
      var g, p := Visit(f, x, row[..|row| - 1]), row[|row| - 1];
      if x < |g.pot| && p.tile < |g.pot| && g.pot[p.tile] == 0
      then Front(g.pot[p.tile := g.pot[x] * p.relation], g.queue + [p.tile]) else g
  }

  /** The neighbours of `x`, by tile and then by relation. */
  ghost predicate NeighboursOf(links: seq<Link>, x: nat, row: seq<Neighbour>) {
    && (forall y: nat, r: int :: Neighbour(y, r) in row <==> Joined(links, x, y, r))
    && forall a, b :: 0 <= a < b < |row| ==>
         row[a].tile < row[b].tile || (row[a].tile == row[b].tile && row[a].relation < row[b].relation)
  }

  /** One turn: the first tile of the queue is scanned. */
  ghost predicate Turns(links: seq<Link>, f: Front, g: Front) {
    f.queue != [] && exists row :: NeighboursOf(links, f.queue[0], row) && g == Visit(Front(f.pot, f.queue[1..]), f.queue[0], row)
  }

  /** A walk from `start` until the queue is empty. */
  ghost predicate Walks(links: seq<Link>, start: nat, was: seq<int>, fronts: seq<Front>) {
    && start < |was| && fronts != [] && fronts[0] == Front(was[start := 1], [start])
    && (forall i :: 0 <= i < |fronts| - 1 ==> Turns(links, fronts[i], fronts[i + 1]))
    && fronts[|fronts| - 1].queue == []
  }

  ghost predicate WalksTo(links: seq<Link>, start: nat, was: seq<int>, pot: seq<int>) {
    exists fronts: seq<Front> :: Walks(links, start, was, fronts) && fronts[|fronts| - 1].pot == pot
  }

  // ---- all walks ----

  /** From every tile in ascending order that has no potential yet. */
  ghost predicate AllWalks(links: seq<Link>, n: nat, pots: seq<seq<int>>, k: nat) {
    && k <= n && |pots| == k + 1 && pots[0] == seq(n, _ => 0)
    && forall s :: 0 <= s < k ==> StartsAt(links, n, s, pots[s], pots[s + 1])
  }

  ghost predicate StartsAt(links: seq<Link>, n: nat, s: nat, was: seq<int>, pot: seq<int>) {
    s < n == |was| && if was[s] != 0 then pot == was else WalksTo(links, s, was, pot)
  }

  /** The potentials that the walks give the `n` tiles. */
  ghost predicate BreadthFirst(links: seq<Link>, n: nat, pot: seq<int>) {
    exists pots :: AllWalks(links, n, pots, n) && pots[n] == pot
  }

  // ---- the links determine the potentials ----

  lemma RowUnique(links: seq<Link>, x: nat, row: seq<Neighbour>, also: seq<Neighbour>)
    requires NeighboursOf(links, x, row) && NeighboursOf(links, x, also)
    ensures row == also
  {
    NeighbourOrder();
    forall p ensures p in row <==> p in also {
      assert p == Neighbour(p.tile, p.relation);
    }
    AscendingUnique(row, also, NeighbourLess);
  }

  lemma TurnUnique(links: seq<Link>, f: Front, g: Front, also: Front)
    requires Turns(links, f, g) && Turns(links, f, also)
    ensures g == also
  {
    var row :| NeighboursOf(links, f.queue[0], row) && g == Visit(Front(f.pot, f.queue[1..]), f.queue[0], row);
    var other :| NeighboursOf(links, f.queue[0], other) && also == Visit(Front(f.pot, f.queue[1..]), f.queue[0], other);
    RowUnique(links, f.queue[0], row, other);
  }

  lemma {:induction false} FrontUnique(links: seq<Link>, start: nat, was: seq<int>, fronts: seq<Front>, also: seq<Front>, i: nat)
    requires Walks(links, start, was, fronts) && Walks(links, start, was, also) && i < |fronts|
    ensures i < |also| && fronts[i] == also[i]
  {
    if i > 0 {
      FrontUnique(links, start, was, fronts, also, i - 1);
      assert Turns(links, fronts[i - 1], fronts[i - 1 + 1]);
      assert i < |also|;
      assert Turns(links, also[i - 1], also[i - 1 + 1]);
      TurnUnique(links, fronts[i - 1], fronts[i], also[i]);
    }
  }

  lemma WalkUnique(links: seq<Link>, start: nat, was: seq<int>, pot: seq<int>, also: seq<int>)
    requires WalksTo(links, start, was, pot) && WalksTo(links, start, was, also)
    ensures pot == also
  {
    var fronts: seq<Front> :| Walks(links, start, was, fronts) && fronts[|fronts| - 1].pot == pot;
    var others: seq<Front> :| Walks(links, start, was, others) && others[|others| - 1].pot == also;
    FrontUnique(links, start, was, fronts, others, |fronts| - 1);
    FrontUnique(links, start, was, others, fronts, |others| - 1);
  }

  lemma {:induction false} PotsUnique(links: seq<Link>, n: nat, pots: seq<seq<int>>, also: seq<seq<int>>, s: nat)
    requires AllWalks(links, n, pots, n) && AllWalks(links, n, also, n) && s <= n
    ensures pots[s] == also[s]
  {
    if s > 0 {
      PotsUnique(links, n, pots, also, s - 1);
      assert StartsAt(links, n, s - 1, pots[s - 1], pots[s - 1 + 1]) && StartsAt(links, n, s - 1, also[s - 1], also[s - 1 + 1]);
      if pots[s - 1][s - 1] == 0 {
        WalkUnique(links, s - 1, pots[s - 1], pots[s], also[s]);
      }
    }
  }

  /** The links determine the potentials. */
  lemma BreadthFirstUnique(links: seq<Link>, n: nat, pot: seq<int>, also: seq<int>)
    requires BreadthFirst(links, n, pot) && BreadthFirst(links, n, also)
    ensures pot == also
  {
    var pots :| AllWalks(links, n, pots, n) && pots[n] == pot;
    var others :| AllWalks(links, n, others, n) && others[n] == also;
    PotsUnique(links, n, pots, others, n);
  }

  // ---- steps of the walks ----

  lemma VisitNext(f: Front, x: nat, row: seq<Neighbour>, i: nat, pot: seq<int>, queue: seq<nat>)
    requires i < |row| && Front(pot, queue) == Visit(f, x, row[..i]) && x < |pot| && row[i].tile < |pot|
    ensures Visit(f, x, row[..i + 1]) ==
            if pot[row[i].tile] == 0 then Front(pot[row[i].tile := pot[x] * row[i].relation], queue + [row[i].tile]) else Front(pot, queue)
  {
    assert row[..i + 1][..i] == row[..i];
  }

  /** A walk that is under way. */
  ghost predicate Walking(links: seq<Link>, start: nat, was: seq<int>, fronts: seq<Front>, pot: seq<int>, queue: seq<nat>) {
    && start < |was| && fronts != [] && fronts[0] == Front(was[start := 1], [start])
    && (forall i :: 0 <= i < |fronts| - 1 ==> Turns(links, fronts[i], fronts[i + 1]))
    && fronts[|fronts| - 1] == Front(pot, queue)
  }

  lemma WalkOn(links: seq<Link>, start: nat, was: seq<int>, fronts: seq<Front>, pot: seq<int>, queue: seq<nat>, row: seq<Neighbour>, g: Front)
    returns (more: seq<Front>)
    requires Walking(links, start, was, fronts, pot, queue) && queue != []
    requires NeighboursOf(links, queue[0], row) && g == Visit(Front(pot, queue[1..]), queue[0], row)
    ensures Walking(links, start, was, more, g.pot, g.queue)
  {
    more := fronts + [g];
    assert Turns(links, fronts[|fronts| - 1], g);
    forall i | 0 <= i < |more| - 1 ensures Turns(links, more[i], more[i + 1]) {
      if i < |fronts| - 1 {
        assert Turns(links, fronts[i], fronts[i + 1]);
      }
    }
  }

  lemma AllWalksOn(links: seq<Link>, n: nat, pots: seq<seq<int>>, s: nat, pot: seq<int>) returns (more: seq<seq<int>>)
    requires s < n && AllWalks(links, n, pots, s) && StartsAt(links, n, s, pots[s], pot)
    ensures AllWalks(links, n, more, s + 1) == true && |more| == s + 2 && more[s + 1] == pot
  {
    more := pots + [pot];
    forall i | 0 <= i < s + 1 ensures StartsAt(links, n, i, more[i], more[i + 1]) {
      if i < s {
        assert StartsAt(links, n, i, pots[i], pots[i + 1]);
      }
    }
  }
}

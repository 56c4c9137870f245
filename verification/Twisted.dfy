/** Twisted dimer diagnostics: whether the local gauges of the tiles come from one node gauge. */
module Twisted {
  import opened Common
  import opened Connectivity
  import opened GaugeLinks
  import opened GaugeWalk
  import opened WalkOrder

  datatype Report = Report(components: nat, cycleRank: int, frustratedCycles: nat, gaugeEquivalent: bool)

  /** Tiles `i` and `j` meet: two different slots of theirs lie on one node. */
  ghost predicate ShareNode(tiles: seq<seq<int>>, gauges: seq<seq<int>>, i: nat, j: nat) {
    exists k: nat, l: nat :: SlotOf(tiles, gauges, i, k) && SlotOf(tiles, gauges, j, l) && (i, k) != (j, l) && tiles[i][k] == tiles[j][l]
  }

  ghost function TileArcs(tiles: seq<seq<int>>, gauges: seq<seq<int>>): Arcs {
    set i: nat, j: nat | i < |tiles| && j < |tiles| && ShareNode(tiles, gauges, i, j) :: (i, j)
  }

  lemma EntryIndex(tiles: seq<seq<int>>, gauges: seq<seq<int>>, n: nat, entries: seq<Entry>, i: nat, k: nat) returns (x: nat)
    requires EntriesOf(tiles, gauges, n, entries) && SlotOf(tiles, gauges, i, k)
    ensures x < |entries| && tiles[i][k] >= 0 && entries[x] == Entry(tiles[i][k], i, k, gauges[i][k])
  {
    assert SlotListed(tiles, gauges, n, entries, i, k);
    x :| 0 <= x < |entries| && entries[x] == Entry(tiles[i][k], i, k, gauges[i][k]);
  }

  lemma LinkSharesNode(tiles: seq<seq<int>>, gauges: seq<seq<int>>, n: nat, entries: seq<Entry>, links: seq<Link>, l: Link)
    requires EntriesOf(tiles, gauges, n, entries) && LinksOf(entries, n, links) && l in links
    ensures ShareNode(tiles, gauges, l.a, l.b) && ShareNode(tiles, gauges, l.b, l.a)
    ensures l.a < |tiles| && l.b < |tiles| && IsSign(l.relation)
  {
    var x: nat, y: nat :| LinkFrom(entries, x, y, l);
    var e, f := entries[x], entries[y];
    assert e in entries && f in entries && e != f;
    assert EntryFits(tiles, gauges, n, e) && EntryFits(tiles, gauges, n, f);
    assert SlotOf(tiles, gauges, e.tile, e.slot) && SlotOf(tiles, gauges, f.tile, f.slot);
    assert (e.tile, e.slot) != (f.tile, f.slot);
    SignTimesSign(e.sign, f.sign);
  }

  lemma SharedNodeIsLinked(tiles: seq<seq<int>>, gauges: seq<seq<int>>, n: nat, entries: seq<Entry>, links: seq<Link>, i: nat, j: nat)
    requires EntriesOf(tiles, gauges, n, entries) && LinksOf(entries, n, links) && ShareNode(tiles, gauges, i, j)
    ensures (i, j) in LinkArcs(links)
  {
    var k: nat, l: nat :| SlotOf(tiles, gauges, i, k) && SlotOf(tiles, gauges, j, l) && (i, k) != (j, l) && tiles[i][k] == tiles[j][l];
    var x := EntryIndex(tiles, gauges, n, entries, i, k);
    var y := EntryIndex(tiles, gauges, n, entries, j, l);
    assert entries[x] in entries && EntryFits(tiles, gauges, n, entries[x]);
    if x < y {
      assert SameNode(entries, x, y);
      assert LinkOf(entries[x], entries[y]) in links;
    } else {
      assert SameNode(entries, y, x);
      assert LinkOf(entries[y], entries[x]) in links;
    }
  }

  /** The links join exactly the tiles that meet. */
  lemma LinksAreSharing(tiles: seq<seq<int>>, gauges: seq<seq<int>>, n: nat, entries: seq<Entry>, links: seq<Link>)
    requires EntriesOf(tiles, gauges, n, entries) && LinksOf(entries, n, links)
    ensures LinkArcs(links) == TileArcs(tiles, gauges) && LinksFit(links, |tiles|)
  {
    forall l | l in links
      ensures ShareNode(tiles, gauges, l.a, l.b) && ShareNode(tiles, gauges, l.b, l.a) && l.a < |tiles| && l.b < |tiles| && IsSign(l.relation)
    {
      LinkSharesNode(tiles, gauges, n, entries, links, l);
    }
    forall i: nat, j: nat | ShareNode(tiles, gauges, i, j) ensures (i, j) in LinkArcs(links) {
      SharedNodeIsLinked(tiles, gauges, n, entries, links, i, j);
    }
    assert forall k :: 0 <= k < |links| ==> links[k] in links;
  }

  // ---- components ----

  /** The least tile of its component. */
  ghost predicate Leads(arcs: Arcs, x: nat) {
    forall y: nat :: y < x ==> !Connected(arcs, y, x)
  }

  /** One tile per component. */
  ghost function Leaders(arcs: Arcs, n: nat): set<nat> {
    set x | x in Below(n) && Leads(arcs, x)
  }

  ghost function VisitedLeaders(arcs: Arcs, pot: seq<int>): set<nat> {
    set x | x in Visited(pot) && Leads(arcs, x)
  }

  ghost predicate Sealed(arcs: Arcs, pot: seq<int>) {
    ClosedUnder(arcs, Visited(pot))
  }

  lemma ClosedIsSealed(rows: seq<Row>, links: seq<Link>, pot: seq<int>)
    requires RowsOf(rows, links) && Closed(rows, pot)
    ensures Sealed(LinkArcs(links), pot)
  {
    forall a | a in LinkArcs(links) && a.0 in Visited(pot) ensures a.1 in Visited(pot) {
      JoinedArcs(links, a.0, a.1);
      var r :| Joined(links, a.0, a.1, r);
      assert Scanned(rows, a.0, pot);
      assert Neighbour(a.1, r) in rows[a.0];
    }
  }

  /** A walk adds one component: its start leads, and everything else it reaches does not. */
  lemma OneMoreLeader(links: seq<Link>, arcs: Arcs, start: nat, was: seq<int>, pot: seq<int>)
    requires |was| == |pot| && start < |was| && was[start] == 0 && pot[start] == 1
    requires forall x :: 0 <= x < start ==> was[x] != 0
    requires forall x :: 0 <= x < |was| && was[x] != 0 ==> pot[x] == was[x]
    requires Sealed(arcs, was) && AllForced(links, arcs, start, was, pot)
    ensures |VisitedLeaders(arcs, pot)| == |VisitedLeaders(arcs, was)| + 1
  {
    forall y: nat | y < start ensures !Connected(arcs, y, start) {
      if Connected(arcs, y, start) {
        StaysInside(arcs, Visited(was), y, start);
      }
    }
    forall x | x in Visited(pot) && x !in Visited(was) && x != start ensures !Leads(arcs, x) {
      assert Forced(links, arcs, start, x, pot[x], |pot|);
    }
    assert VisitedLeaders(arcs, pot) == VisitedLeaders(arcs, was) + {start};
  }

  // ---- agreement ----

  /** Where some consistent choice of signs exists, every link between visited tiles holds. */
  ghost predicate Agreed(links: seq<Link>, pot: seq<int>) {
    forall c :: Consistent(c, links) && |c| == |pot| ==>
      forall k :: 0 <= k < |links| && links[k].a < |pot| && links[k].b < |pot| && pot[links[k].a] != 0 && pot[links[k].b] != 0 ==>
        pot[links[k].a] * pot[links[k].b] == links[k].relation
  }

  lemma SignCancel(x: int, y: int, root: int, r: int, p: int, q: int)
    requires IsSign(x) && IsSign(y) && IsSign(root) && x * y == r && x * root == p && y * root == q
    ensures p * q == r
  {
  }

  lemma NewLinkHolds(links: seq<Link>, arcs: Arcs, start: nat, was: seq<int>, pot: seq<int>, c: seq<int>, k: nat)
    requires |was| == |pot| == |c| && arcs == LinkArcs(links) && LinksFit(links, |pot|) && Consistent(c, links) && k < |links|
    requires Agreed(links, was) && Sealed(arcs, was) && AllForced(links, arcs, start, was, pot)
    requires forall x :: 0 <= x < |was| && was[x] != 0 ==> pot[x] == was[x]
    requires pot[links[k].a] != 0 && pot[links[k].b] != 0
    ensures pot[links[k].a] * pot[links[k].b] == links[k].relation
  {
    var a, b := links[k].a, links[k].b;
    assert links[k] in links;
    assert (a, b) in arcs && (b, a) in arcs;
    if was[a] != 0 {
      assert a in Visited(was) && b in Visited(was);
    } else {
      assert a !in Visited(was) && b !in Visited(was);
      assert Forced(links, arcs, start, a, pot[a], |pot|) && Forced(links, arcs, start, b, pot[b], |pot|);
      SignCancel(c[a], c[b], c[start], links[k].relation, pot[a], pot[b]);
    }
  }

  lemma AgreementGrows(links: seq<Link>, arcs: Arcs, start: nat, was: seq<int>, pot: seq<int>)
    requires |was| == |pot| && arcs == LinkArcs(links) && LinksFit(links, |pot|)
    requires Agreed(links, was) && Sealed(arcs, was) && AllForced(links, arcs, start, was, pot)
    requires forall x :: 0 <= x < |was| && was[x] != 0 ==> pot[x] == was[x]
    ensures Agreed(links, pot)
  {
    forall c, k | Consistent(c, links) && |c| == |pot| && 0 <= k < |links| && pot[links[k].a] != 0 && pot[links[k].b] != 0
      ensures pot[links[k].a] * pot[links[k].b] == links[k].relation
    {
      NewLinkHolds(links, arcs, start, was, pot, c, k);
    }
  }

  // ---- the diagnostic ----

  ghost function FrustratedLinks(links: seq<Link>, pot: seq<int>, top: nat): set<nat>
    requires top <= |links| && LinksFit(links, |pot|)
  {
    set k | k in Below(top) && pot[links[k].a] * pot[links[k].b] != links[k].relation
  }

  lemma FrustratedStep(links: seq<Link>, pot: seq<int>, k: nat)
    requires k < |links| && LinksFit(links, |pot|)
    ensures |FrustratedLinks(links, pot, k + 1)| ==
      |FrustratedLinks(links, pot, k)| + if pot[links[k].a] * pot[links[k].b] != links[k].relation then 1 else 0
  {
    if pot[links[k].a] * pot[links[k].b] != links[k].relation {
      assert FrustratedLinks(links, pot, k + 1) == FrustratedLinks(links, pot, k) + {k};
    } else {
      assert FrustratedLinks(links, pot, k + 1) == FrustratedLinks(links, pot, k);
    }
  }

  method CountFrustrated(links: seq<Link>, pot: seq<int>) returns (c: nat)
    requires LinksFit(links, |pot|)
    ensures c == |FrustratedLinks(links, pot, |links|)|
  {
    c := 0;
    for k := 0 to |links|
      invariant c == |FrustratedLinks(links, pot, k)|
    {
      FrustratedStep(links, pot, k);
      if pot[links[k].a] * pot[links[k].b] != links[k].relation {
        c := c + 1;
      }
    }
  }

  /** What holds before the walk that would start at tile `start`. */
  ghost predicate Covered(links: seq<Link>, rows: seq<Row>, start: nat, pot: seq<int>, components: nat, tree: set<nat>) {
    && start <= |pot| && IsPotential(pot) && Closed(rows, pot) && Agreed(links, pot)
    && (forall x :: 0 <= x < start ==> pot[x] != 0)
    && TreeOf(links, pot, tree, components) && components == |VisitedLeaders(LinkArcs(links), pot)|
  }

  lemma CoveredStarts(links: seq<Link>, rows: seq<Row>)
    ensures Covered(links, rows, 0, seq(|rows|, _ => 0), 0, {}) == true
  {
    var pot := seq(|rows|, _ => 0);
    assert Visited(pot) == {} && VisitedLeaders(LinkArcs(links), pot) == {};
  }

  lemma CoveredGrows(links: seq<Link>, rows: seq<Row>, start: nat, was: seq<int>, pot: seq<int>, components: nat, tree: set<nat>, grown: set<nat>)
    requires LinksFit(links, |was|) && RowsOf(rows, links) && Covered(links, rows, start, was, components, tree) == true
    requires start < |was| == |pot| && was[start] == 0 && pot[start] == 1 && IsPotential(pot) && Closed(rows, pot)
    requires forall x :: 0 <= x < |was| && was[x] != 0 ==> pot[x] == was[x]
    requires AllForced(links, LinkArcs(links), start, was, pot) && TreeOf(links, pot, grown, components + 1)
    ensures Covered(links, rows, start + 1, pot, components + 1, grown) == true
  {
    ClosedIsSealed(rows, links, was);
    OneMoreLeader(links, LinkArcs(links), start, was, pot);
    AgreementGrows(links, LinkArcs(links), start, was, pot);
  }

  lemma CoveredEnds(links: seq<Link>, rows: seq<Row>, pot: seq<int>, components: nat, tree: set<nat>)
    requires Covered(links, rows, |pot|, pot, components, tree)
    ensures IsSigns(pot) && Agreed(links, pot) && TreeOf(links, pot, tree, components)
    ensures components == |Leaders(LinkArcs(links), |pot|)|
  {
    assert Visited(pot) == Below(|pot|);
    assert VisitedLeaders(LinkArcs(links), pot) == Leaders(LinkArcs(links), |pot|);
  }

  /** Walks from every unvisited tile in ascending order. */
  method Potentials(n: nat, ghost links: seq<Link>, rows: seq<Row>) returns (pot: seq<int>, components: nat, ghost tree: set<nat>)
    requires LinksFit(links, n) && |rows| == n && RowsOf(rows, links)
    ensures |pot| == n && IsSigns(pot) && Agreed(links, pot)
    ensures TreeOf(links, pot, tree, components)
    ensures components == |Leaders(LinkArcs(links), n)|
    ensures BreadthFirst(links, n, pot)
  {
    pot, components, tree := seq(n, _ => 0), 0, {};
    ghost var pots := [pot];
    CoveredStarts(links, rows);
    RowsReach(rows, links);
    for start := 0 to n
      invariant |pot| == n && Covered(links, rows, start, pot, components, tree) == true
      invariant AllWalks(links, n, pots, start) == true && |pots| == start + 1 && pots[start] == pot
    {
      ghost var was, before := pot, tree;
      if pot[start] == 0 {
        pot, tree := WalkFrom(links, LinkArcs(links), rows, start, pot, tree, components);
        CoveredGrows(links, rows, start, was, pot, components, before, tree);
        components := components + 1;
      }
      assert StartsAt(links, n, start, was, pot);
      pots := AllWalksOn(links, n, pots, start, pot);
    }
    CoveredEnds(links, rows, pot, components, tree);
  }

  lemma RowsReach(rows: seq<Row>, links: seq<Link>)
    requires RowsOf(rows, links) && LinksFit(links, |rows|)
    ensures RowsFit(rows, links, LinkArcs(links))
  {
    forall x, p | 0 <= x < |rows| && p in rows[x]
      ensures p.tile < |rows| && Joined(links, x, p.tile, p.relation) && (x, p.tile) in LinkArcs(links)
    {
      assert p == Neighbour(p.tile, p.relation);
      JoinedArcs(links, x, p.tile);
      var k :| 0 <= k < |links| && LinkJoins(links[k], x, p.tile, p.relation);
    }
  }

  /** Links outside the tree bound the frustrated ones. */
  lemma FrustratedWithinRank(links: seq<Link>, pot: seq<int>, tree: set<nat>, components: nat)
    requires LinksFit(links, |pot|) && IsSigns(pot) && TreeOf(links, pot, tree, components)
    ensures |FrustratedLinks(links, pot, |links|)| <= |links| - |pot| + components
  {
    assert Visited(pot) == Below(|pot|);
    var frustrated := FrustratedLinks(links, pot, |links|);
    assert frustrated !! tree;
    SubsetCard(frustrated + tree, Below(|links|));
  }

  /** With full potentials, no link is frustrated exactly when some choice of signs is consistent. */
  lemma BalancedExactly(links: seq<Link>, pot: seq<int>)
    requires LinksFit(links, |pot|) && IsSigns(pot) && Agreed(links, pot)
    ensures |FrustratedLinks(links, pot, |links|)| == 0 <==> exists c :: Consistent(c, links) && |c| == |pot|
  {
    var frustrated := FrustratedLinks(links, pot, |links|);
    if |frustrated| == 0 {
      forall l | l in links ensures l.a < |pot| && l.b < |pot| && pot[l.a] * pot[l.b] == l.relation {
        var k :| 0 <= k < |links| && links[k] == l;
        assert k !in frustrated;
      }
      assert Consistent(pot, links);
    }
    if c :| Consistent(c, links) && |c| == |pot| {
      assert frustrated == {};
    }
  }

  /** What the report counts: components, independent cycles, and links that the potentials of a spanning forest leave unsatisfied. */
  ghost predicate IsReport(report: Report, tiles: seq<seq<int>>, gauges: seq<seq<int>>, links: seq<Link>, pot: seq<int>, tree: set<nat>) {
    && |pot| == |tiles| && LinksFit(links, |pot|) && IsSigns(pot) && Agreed(links, pot)
    && TreeOf(links, pot, tree, report.components) && BreadthFirst(links, |tiles|, pot)
    && report.components == |Leaders(TileArcs(tiles, gauges), |tiles|)|
    && report.cycleRank == |links| - |tiles| + report.components
    && report.frustratedCycles == |FrustratedLinks(links, pot, |links|)|
    && (report.gaugeEquivalent <==> report.frustratedCycles == 0)
  }

  lemma FirstAboveUnique(entries: seq<Entry>, p: nat, q: nat)
    requires FirstAbove(entries, p) && FirstAbove(entries, q)
    ensures p == q
  {
  }

  lemma CrowdExcludes(entries: seq<Entry>, n: nat, p: nat)
    requires p < n && FirstAbove(entries, p)
    ensures Uncrowded(entries, n) == false
  {
  }

  /** The answer that the entries of a well-formed input lead to. */
  ghost predicate AnswersFor(tiles: seq<seq<int>>, gauges: seq<seq<int>>, n: nat, entries: seq<Entry>, r: Result<Report, GaugeError>) {
    match r
    case Err(Overflow) => false
    case Err(AboveTwo(p)) => p < n && FirstAbove(entries, p) == true
    case Ok(report) => Uncrowded(entries, n) == true && IsReportOf(report, tiles, gauges, LinkList(entries, n)) == true
  }

  /** The one answer for an input: the first fault, or the report of its links and walks. */
  ghost predicate IsAnswer(tiles: seq<seq<int>>, gauges: seq<seq<int>>, n: nat, r: Result<Report, GaugeError>) {
    if WellFormed(tiles, gauges, n)
    then exists entries :: EntriesOf(tiles, gauges, n, entries) && AnswersFor(tiles, gauges, n, entries, r)
    else r == Err(Overflow)
  }

  ghost predicate IsReportOf(report: Report, tiles: seq<seq<int>>, gauges: seq<seq<int>>, links: seq<Link>) {
    exists pot, tree :: IsReport(report, tiles, gauges, links, pot, tree)
  }

  lemma ReportUnique(tiles: seq<seq<int>>, gauges: seq<seq<int>>, links: seq<Link>, r: Report, q: Report)
    requires IsReportOf(r, tiles, gauges, links) && IsReportOf(q, tiles, gauges, links)
    ensures r == q
  {
    var pot, tree :| IsReport(r, tiles, gauges, links, pot, tree);
    var also, other :| IsReport(q, tiles, gauges, links, also, other);
    BreadthFirstUnique(links, |tiles|, pot, also);
  }

  lemma CrowdDecides(tiles: seq<seq<int>>, gauges: seq<seq<int>>, n: nat, entries: seq<Entry>, r: Result<Report, GaugeError>)
    requires AnswersFor(tiles, gauges, n, entries, r)
    ensures r.Ok? <==> Uncrowded(entries, n) == true
    ensures r.Err? ==> r.error.AboveTwo? && FirstAbove(entries, r.error.position) == true
  {
    if r.Err? {
      CrowdExcludes(entries, n, r.error.position);
    }
  }

  lemma AnswersAgree(tiles: seq<seq<int>>, gauges: seq<seq<int>>, n: nat, entries: seq<Entry>,
                     r: Result<Report, GaugeError>, q: Result<Report, GaugeError>)
    requires AnswersFor(tiles, gauges, n, entries, r) == true && AnswersFor(tiles, gauges, n, entries, q) == true
    ensures r == q
  {
    CrowdDecides(tiles, gauges, n, entries, r);
    CrowdDecides(tiles, gauges, n, entries, q);
    if r.Ok? {
      ReportUnique(tiles, gauges, LinkList(entries, n), r.value, q.value);
    } else {
      FirstAboveUnique(entries, r.error.position, q.error.position);
    }
  }

  /** An input has one answer. */
  lemma AnswerUnique(tiles: seq<seq<int>>, gauges: seq<seq<int>>, n: nat, r: Result<Report, GaugeError>, q: Result<Report, GaugeError>)
    requires IsAnswer(tiles, gauges, n, r) && IsAnswer(tiles, gauges, n, q)
    ensures r == q
  {
    if WellFormed(tiles, gauges, n) {
      var entries :| EntriesOf(tiles, gauges, n, entries) && AnswersFor(tiles, gauges, n, entries, r) == true;
      var others :| EntriesOf(tiles, gauges, n, others) && AnswersFor(tiles, gauges, n, others, q) == true;
      EntriesUnique(tiles, gauges, n, entries, others);
      AnswersAgree(tiles, gauges, n, entries, r, q);
    }
  }

  /** The report of the links, with the walks behind it. */
  method MakeReport(tiles: seq<seq<int>>, gauges: seq<seq<int>>, n: nat, ghost entries: seq<Entry>, links: seq<Link>)
    returns (report: Report, ghost pot: seq<int>, ghost tree: set<nat>)
    requires |tiles| == |gauges| && EntriesOf(tiles, gauges, n, entries) && LinksOf(entries, n, links)
    requires Uncrowded(entries, n)
    ensures IsReport(report, tiles, gauges, links, pot, tree) == true
    ensures report.frustratedCycles <= report.cycleRank
    ensures report.gaugeEquivalent <==>
      exists tileSigns, nodeSigns :: CommonGauge(tiles, gauges, n, tileSigns, nodeSigns)
  {
    LinksAreSharing(tiles, gauges, n, entries, links);
    var rows := BuildRows(|tiles|, links);
    var potential, components;
    potential, components, tree := Potentials(|tiles|, links, rows);
    var frustrated := CountFrustrated(links, potential);
    FrustratedWithinRank(links, potential, tree, components);
    BalancedExactly(links, potential);
    EquivalentExactly(tiles, gauges, n, entries, links);
    pot := potential;
    report := Report(components, |links| - |tiles| + components, frustrated, frustrated == 0);
  }

  method GaugeObstructions(tiles: seq<seq<int>>, gauges: seq<seq<int>>, n: nat)
    returns (r: Result<Report, GaugeError>, ghost entries: seq<Entry>, ghost links: seq<Link>, ghost pot: seq<int>, ghost tree: set<nat>)
    ensures IsAnswer(tiles, gauges, n, r) == true
    ensures r == Err(Overflow) <==> !WellFormed(tiles, gauges, n)
    ensures r.Err? && r.error.AboveTwo? ==> EntriesOf(tiles, gauges, n, entries) && FirstAbove(entries, r.error.position)
    ensures r.Ok? ==> EntriesOf(tiles, gauges, n, entries) && Uncrowded(entries, n)
    ensures r.Ok? ==> LinksOf(entries, n, links) && IsReport(r.value, tiles, gauges, links, pot, tree) == true
    ensures r.Ok? ==> r.value.frustratedCycles <= r.value.cycleRank
    ensures r.Ok? ==> (r.value.gaugeEquivalent <==>
      exists tileSigns, nodeSigns :: CommonGauge(tiles, gauges, n, tileSigns, nodeSigns))
  {
    entries, links, pot, tree := [], [], [], {};
    if |tiles| != |gauges| {
      return Err(Overflow), entries, links, pot, tree;
    }
    var membership;
    membership, entries := BuildMembership(tiles, gauges, n);
    if membership.None? {
      return Err(Overflow), entries, links, pot, tree;
    }
    var linked := BuildLinks(n, entries, membership.value);
    if linked.Err? {
      assert AnswersFor(tiles, gauges, n, entries, Err(linked.error)) == true;
      return Err(linked.error), entries, links, pot, tree;
    }
    links := linked.value;
    var report;
    report, pot, tree := MakeReport(tiles, gauges, n, entries, linked.value);
    r := Ok(report);
    assert AnswersFor(tiles, gauges, n, entries, r) == true by {
      assert IsReportOf(report, tiles, gauges, LinkList(entries, n)) == true;
      assert Uncrowded(entries, n);
    }
  }

  /** A common gauge exists exactly when tile signs can agree with every link. */
  lemma EquivalentExactly(tiles: seq<seq<int>>, gauges: seq<seq<int>>, n: nat, entries: seq<Entry>, links: seq<Link>)
    requires |tiles| == |gauges| && EntriesOf(tiles, gauges, n, entries) && LinksOf(entries, n, links)
    ensures (exists c :: Consistent(c, links) && |c| == |tiles|) <==>
            (exists tileSigns, nodeSigns :: CommonGauge(tiles, gauges, n, tileSigns, nodeSigns))
  {
    if c :| Consistent(c, links) && |c| == |tiles| {
      var nodeSigns := ConsistentIsCommonGauge(tiles, gauges, n, entries, links, c);
      assert CommonGauge(tiles, gauges, n, c, nodeSigns);
    }
    if tileSigns, nodeSigns :| CommonGauge(tiles, gauges, n, tileSigns, nodeSigns) {
      CommonGaugeIsConsistent(tiles, gauges, n, entries, links, tileSigns, nodeSigns);
    }
  }
}

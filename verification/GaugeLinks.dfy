/** Links between tiles that share a node, and what a common node gauge means for them. */
module GaugeLinks {
  import opened Common
  import opened Sorting

  datatype GaugeError = Overflow | AboveTwo(position: nat)

  /** One signed membership: slot `slot` of tile `tile` lies on node `position`. */
  datatype Entry = Entry(position: nat, tile: nat, slot: nat, sign: int)

  datatype Link = Link(a: nat, b: nat, relation: int)

  predicate IsSigns(s: seq<int>) {
    forall i :: 0 <= i < |s| ==> IsSign(s[i])
  }

  /** Positions and signs are paired up to the shorter list. */
  function Width(positions: seq<int>, signs: seq<int>): nat {
    if |positions| <= |signs| then |positions| else |signs|
  }

  ghost predicate SlotOf(tiles: seq<seq<int>>, gauges: seq<seq<int>>, i: nat, k: nat) {
    i < |tiles| && i < |gauges| && k < Width(tiles[i], gauges[i])
  }

  ghost predicate WellFormed(tiles: seq<seq<int>>, gauges: seq<seq<int>>, n: nat) {
    |tiles| == |gauges| && forall i: nat, k: nat :: SlotOf(tiles, gauges, i, k) ==> IsSign(gauges[i][k]) && 0 <= tiles[i][k] < n
  }

  /** One sign per tile and one per node whose product is every local gauge. */
  ghost predicate CommonGauge(tiles: seq<seq<int>>, gauges: seq<seq<int>>, n: nat, tileSigns: seq<int>, nodeSigns: seq<int>) {
    && |tileSigns| == |tiles| && |nodeSigns| == n && IsSigns(tileSigns) && IsSigns(nodeSigns)
    && forall i: nat, k: nat :: SlotOf(tiles, gauges, i, k) && 0 <= tiles[i][k] < n ==>
         tileSigns[i] * nodeSigns[tiles[i][k]] == gauges[i][k]
  }

  /** `entries` lists every slot once, in the order the tiles are read. */
  ghost predicate EntriesOf(tiles: seq<seq<int>>, gauges: seq<seq<int>>, n: nat, entries: seq<Entry>) {
    && Ascending(entries, EntryBefore)
    && (forall e :: e in entries ==> EntryFits(tiles, gauges, n, e))
    && forall i: nat, k: nat :: SlotOf(tiles, gauges, i, k) ==> SlotListed(tiles, gauges, n, entries, i, k)
  }

  /** The order in which the slots are read. */
  predicate EntryBefore(e: Entry, f: Entry) {
    Before(e.tile, e.slot, f.tile, f.slot)
  }

  /** The input determines the entries. */
  lemma EntriesUnique(tiles: seq<seq<int>>, gauges: seq<seq<int>>, n: nat, entries: seq<Entry>, also: seq<Entry>)
    requires EntriesOf(tiles, gauges, n, entries) && EntriesOf(tiles, gauges, n, also)
    ensures entries == also
  {
    forall e ensures e in entries <==> e in also {
      if e in entries {
        assert EntryFits(tiles, gauges, n, e) && SlotListed(tiles, gauges, n, also, e.tile, e.slot);
      }
      if e in also {
        assert EntryFits(tiles, gauges, n, e) && SlotListed(tiles, gauges, n, entries, e.tile, e.slot);
      }
    }
    var less := (e: Entry, f: Entry) => EntryBefore(e, f) || (!EntryBefore(f, e) && (e.position < f.position || (e.position == f.position && e.sign < f.sign)));
    AscendingUnique(entries, also, less);
  }

  ghost predicate EntryFits(tiles: seq<seq<int>>, gauges: seq<seq<int>>, n: nat, e: Entry) {
    && IsSign(e.sign) && e.position < n
    && SlotOf(tiles, gauges, e.tile, e.slot)
    && tiles[e.tile][e.slot] == e.position && gauges[e.tile][e.slot] == e.sign
  }

  ghost predicate SlotListed(tiles: seq<seq<int>>, gauges: seq<seq<int>>, n: nat, entries: seq<Entry>, i: nat, k: nat)
    requires SlotOf(tiles, gauges, i, k)
  {
    IsSign(gauges[i][k]) && 0 <= tiles[i][k] < n && Entry(tiles[i][k], i, k, gauges[i][k]) in entries
  }

  /** The memberships of node `p`: their places in the entry list. */
  ghost function Group(entries: seq<Entry>, p: nat): (g: seq<nat>)
    ensures forall j: nat :: j in g <==> j < |entries| && entries[j].position == p
    ensures forall x, y :: 0 <= x < y < |g| ==> g[x] < g[y]
  {
    if entries == [] then []
    else
      var last := |entries| - 1;
      var rest := Group(entries[..last], p);
      assert forall x :: 0 <= x < |rest| ==> rest[x] in rest;
      if entries[last].position == p then rest + [last] else rest
  }

  lemma GroupPush(entries: seq<Entry>, e: Entry, p: nat)
    ensures Group(entries + [e], p) == if e.position == p then Group(entries, p) + [|entries|] else Group(entries, p)
  {
    assert (entries + [e])[..|entries|] == entries;
  }

  /** The program's dictionary from a node to its list of (tile, sign) pairs. */
  ghost predicate MembershipOf(entries: seq<Entry>, membership: map<nat, seq<(nat, int)>>) {
    && (forall p :: p in membership <==> Group(entries, p) != [])
    && forall p :: p in membership ==> ListsGroup(entries, Group(entries, p), membership[p])
  }

  ghost predicate ListsGroup(entries: seq<Entry>, g: seq<nat>, list: seq<(nat, int)>) {
    |list| == |g| && forall x :: 0 <= x < |g| ==> g[x] < |entries| && list[x] == (entries[g[x]].tile, entries[g[x]].sign)
  }

  lemma ListsGroupPush(entries: seq<Entry>, e: Entry, g: seq<nat>, list: seq<(nat, int)>)
    requires ListsGroup(entries, g, list)
    ensures ListsGroup(entries + [e], g, list)
    ensures ListsGroup(entries + [e], g + [|entries|], list + [(e.tile, e.sign)])
  {
  }

  function AddMember(membership: map<nat, seq<(nat, int)>>, e: Entry): map<nat, seq<(nat, int)>> {
    membership[e.position := (if e.position in membership then membership[e.position] else []) + [(e.tile, e.sign)]]
  }

  lemma MembershipPush(entries: seq<Entry>, membership: map<nat, seq<(nat, int)>>, e: Entry)
    requires MembershipOf(entries, membership)
    ensures MembershipOf(entries + [e], AddMember(membership, e))
  {
    var more := AddMember(membership, e);
    forall p ensures p in more <==> Group(entries + [e], p) != [] {
      GroupPush(entries, e, p);
    }
    forall p | p in more ensures ListsGroup(entries + [e], Group(entries + [e], p), more[p]) {
      GroupPush(entries, e, p);
      var was := if p in membership then membership[p] else [];
      assert ListsGroup(entries, Group(entries, p), was);
      ListsGroupPush(entries, e, Group(entries, p), was);
    }
  }

  predicate Before(h: nat, j: nat, i: nat, k: nat) {
    h < i || (h == i && j < k)
  }

  /** The slots before slot `k` of tile `i` have been read, and are well formed. */
  ghost predicate ReadUpTo(tiles: seq<seq<int>>, gauges: seq<seq<int>>, n: nat, entries: seq<Entry>, i: nat, k: nat) {
    && Ascending(entries, EntryBefore)
    && (forall e :: e in entries ==> EntryFits(tiles, gauges, n, e) && Before(e.tile, e.slot, i, k))
    && forall h: nat, j: nat :: Before(h, j, i, k) && SlotOf(tiles, gauges, h, j) ==> SlotListed(tiles, gauges, n, entries, h, j)
  }

  lemma ReadOne(tiles: seq<seq<int>>, gauges: seq<seq<int>>, n: nat, entries: seq<Entry>, i: nat, k: nat)
    requires ReadUpTo(tiles, gauges, n, entries, i, k)
    requires SlotOf(tiles, gauges, i, k) && IsSign(gauges[i][k]) && 0 <= tiles[i][k] < n
    ensures ReadUpTo(tiles, gauges, n, entries + [Entry(tiles[i][k], i, k, gauges[i][k])], i, k + 1)
  {
    var e := Entry(tiles[i][k], i, k, gauges[i][k]);
    var more := entries + [e];
    assert e !in entries;
    forall f ensures f in more <==> f in entries || f == e {
    }
    forall h: nat, j: nat | Before(h, j, i, k + 1) && SlotOf(tiles, gauges, h, j) ensures SlotListed(tiles, gauges, n, more, h, j) {
      if Before(h, j, i, k) {
        assert SlotListed(tiles, gauges, n, entries, h, j);
      }
    }
  }

  lemma NextTile(tiles: seq<seq<int>>, gauges: seq<seq<int>>, n: nat, entries: seq<Entry>, i: nat)
    requires i < |tiles| && i < |gauges| && ReadUpTo(tiles, gauges, n, entries, i, Width(tiles[i], gauges[i]))
    ensures ReadUpTo(tiles, gauges, n, entries, i + 1, 0)
  {
    forall h: nat, j: nat | Before(h, j, i + 1, 0) && SlotOf(tiles, gauges, h, j)
      ensures SlotListed(tiles, gauges, n, entries, h, j)
    {
      assert Before(h, j, i, Width(tiles[i], gauges[i]));
    }
  }

  lemma ReadAll(tiles: seq<seq<int>>, gauges: seq<seq<int>>, n: nat, entries: seq<Entry>)
    requires |tiles| == |gauges| && ReadUpTo(tiles, gauges, n, entries, |tiles|, 0)
    ensures EntriesOf(tiles, gauges, n, entries) && WellFormed(tiles, gauges, n)
  {
    forall i: nat, k: nat | SlotOf(tiles, gauges, i, k) ensures SlotListed(tiles, gauges, n, entries, i, k) {
      assert Before(i, k, |tiles|, 0);
    }
  }

  method BuildMembership(tiles: seq<seq<int>>, gauges: seq<seq<int>>, n: nat)
    returns (r: Option<map<nat, seq<(nat, int)>>>, ghost entries: seq<Entry>)
    requires |tiles| == |gauges|
    ensures r.Some? <==> WellFormed(tiles, gauges, n)
    ensures r.Some? ==> EntriesOf(tiles, gauges, n, entries) && MembershipOf(entries, r.value)
  {
    var membership: map<nat, seq<(nat, int)>> := map[];
    entries := [];
    for i := 0 to |tiles|
      invariant MembershipOf(entries, membership) && ReadUpTo(tiles, gauges, n, entries, i, 0)
    {
      for k := 0 to Width(tiles[i], gauges[i])
        invariant MembershipOf(entries, membership) && ReadUpTo(tiles, gauges, n, entries, i, k)
      {
        assert SlotOf(tiles, gauges, i, k);
        if !IsSign(gauges[i][k]) || !(0 <= tiles[i][k] < n) {
          return None, entries;
        }
        var e := Entry(tiles[i][k], i, k, gauges[i][k]);
        MembershipPush(entries, membership, e);
        ReadOne(tiles, gauges, n, entries, i, k);
        membership := AddMember(membership, e);
        entries := entries + [e];
      }
      NextTile(tiles, gauges, n, entries, i);
    }
    ReadAll(tiles, gauges, n, entries);
    return Some(membership), entries;
  }

  // ---- links ----

  /** Entries `x` and `y` are two memberships of one node. */
  ghost predicate SameNode(entries: seq<Entry>, x: nat, y: nat) {
    x < y < |entries| && entries[x].position == entries[y].position
  }

  ghost function LinkOf(e: Entry, f: Entry): Link {
    Link(e.tile, f.tile, e.sign * f.sign)
  }

  ghost predicate LinkFrom(entries: seq<Entry>, x: nat, y: nat, l: Link) {
    SameNode(entries, x, y) && l == LinkOf(entries[x], entries[y])
  }

  /** The links in node order: one for every node below `top` with two memberships. */
  ghost function LinkList(entries: seq<Entry>, top: nat): seq<Link> {
    if top == 0 then []
    else
      var g := Group(entries, top - 1);
      LinkList(entries, top - 1) + if |g| == 2 then assert g[0] in g && g[1] in g; [LinkOf(entries[g[0]], entries[g[1]])] else []
  }

  /** Those links, which come from two memberships each and leave out none below `top`. */
  ghost predicate LinksOf(entries: seq<Entry>, top: nat, links: seq<Link>) {
    && links == LinkList(entries, top)
    && (forall l :: l in links ==> exists x: nat, y: nat :: LinkFrom(entries, x, y, l))
    && forall x: nat, y: nat :: SameNode(entries, x, y) && entries[x].position < top ==> LinkOf(entries[x], entries[y]) in links
  }

  lemma GroupOfTwo(entries: seq<Entry>, p: nat, x: nat, y: nat)
    requires SameNode(entries, x, y) && entries[x].position == p && |Group(entries, p)| <= 2
    ensures Group(entries, p) == [x, y]
  {
    var g := Group(entries, p);
    assert x in g && y in g;
  }

  lemma TwoAtNode(entries: seq<Entry>, x: nat, y: nat)
    requires SameNode(entries, x, y)
    ensures |Group(entries, entries[x].position)| >= 2
  {
    var g := Group(entries, entries[x].position);
    assert x in g && y in g;
  }

  lemma NoLink(entries: seq<Entry>, p: nat, links: seq<Link>)
    requires LinksOf(entries, p, links) && |Group(entries, p)| < 2
    ensures LinksOf(entries, p + 1, links)
  {
    assert LinkList(entries, p + 1) == links + [];
    forall x: nat, y: nat | SameNode(entries, x, y) ensures entries[x].position != p {
      TwoAtNode(entries, x, y);
    }
  }

  lemma OneLink(entries: seq<Entry>, p: nat, links: seq<Link>, x: nat, y: nat)
    requires LinksOf(entries, p, links) && Group(entries, p) == [x, y]
    ensures x < |entries| && y < |entries| && LinksOf(entries, p + 1, links + [LinkOf(entries[x], entries[y])])
  {
    var g := Group(entries, p);
    assert x in g && y in g && g[0] < g[1];
    var more := links + [LinkOf(entries[x], entries[y])];
    assert LinkList(entries, p + 1) == more;
    forall u: nat, v: nat | SameNode(entries, u, v) && entries[u].position < p + 1 ensures LinkOf(entries[u], entries[v]) in more {
      if entries[u].position == p {
        GroupOfTwo(entries, p, u, v);
      }
    }
    forall l | l in more ensures exists u: nat, v: nat :: LinkFrom(entries, u, v, l) {
      if l == LinkOf(entries[x], entries[y]) {
        assert LinkFrom(entries, x, y, l);
      }
    }
  }

  lemma LinkStep(entries: seq<Entry>, p: nat, links: seq<Link>, group: seq<(nat, int)>)
    requires LinksOf(entries, p, links) && ListsGroup(entries, Group(entries, p), group) && |group| <= 2
    ensures LinksOf(entries, p + 1,
      if |group| == 2 then links + [Link(group[0].0, group[1].0, group[0].1 * group[1].1)] else links)
  {
    var g := Group(entries, p);
    if |group| == 2 {
      assert g == [g[0], g[1]];
      OneLink(entries, p, links, g[0], g[1]);
    } else {
      NoLink(entries, p, links);
    }
  }

  /** The first node in more than two tiles. */
  ghost predicate FirstAbove(entries: seq<Entry>, p: nat) {
    |Group(entries, p)| > 2 && forall q :: 0 <= q < p ==> |Group(entries, q)| <= 2
  }

  /** No node below `top` lies in more than two tiles. */
  ghost predicate Uncrowded(entries: seq<Entry>, top: nat) {
    forall p :: 0 <= p < top ==> |Group(entries, p)| <= 2
  }

  lemma UncrowdedGrows(entries: seq<Entry>, p: nat)
    requires Uncrowded(entries, p)
    ensures (|Group(entries, p)| <= 2) ==> Uncrowded(entries, p + 1) == true
    ensures |Group(entries, p)| > 2 ==> FirstAbove(entries, p) == true && forall n: nat :: p < n ==> Uncrowded(entries, n) == false
  {
  }

  function GroupAt(membership: map<nat, seq<(nat, int)>>, p: nat): seq<(nat, int)> {
    if p in membership then membership[p] else []
  }

  function WithLink(links: seq<Link>, group: seq<(nat, int)>): seq<Link> {
    if |group| == 2 then links + [Link(group[0].0, group[1].0, group[0].1 * group[1].1)] else links
  }

  /** One node: too many memberships, or at most one more link. */
  lemma LinkTurn(entries: seq<Entry>, membership: map<nat, seq<(nat, int)>>, p: nat, n: nat, links: seq<Link>)
    requires MembershipOf(entries, membership) && p < n && LinksOf(entries, p, links) == true && Uncrowded(entries, p) == true
    ensures var group := GroupAt(membership, p);
            if |group| > 2 then FirstAbove(entries, p) == true && Uncrowded(entries, n) == false
            else Uncrowded(entries, p + 1) == true && LinksOf(entries, p + 1, WithLink(links, group)) == true
  {
    var group := GroupAt(membership, p);
    assert ListsGroup(entries, Group(entries, p), group);
    UncrowdedGrows(entries, p);
    if |group| <= 2 {
      LinkStep(entries, p, links, group);
    }
  }

  method BuildLinks(n: nat, ghost entries: seq<Entry>, membership: map<nat, seq<(nat, int)>>)
    returns (r: Result<seq<Link>, GaugeError>)
    requires MembershipOf(entries, membership) && forall e :: e in entries ==> e.position < n
    ensures r.Ok? ==> LinksOf(entries, n, r.value) == true
    ensures r.Ok? <==> Uncrowded(entries, n) == true
    ensures r.Err? ==> r.error.AboveTwo? && r.error.position < n && FirstAbove(entries, r.error.position) == true
  {
    var links: seq<Link> := [];
    for p := 0 to n
      invariant LinksOf(entries, p, links) == true && Uncrowded(entries, p) == true
    {
      var group := GroupAt(membership, p);
      LinkTurn(entries, membership, p, n, links);
      if |group| > 2 {
        return Err(AboveTwo(p));
      }
      links := WithLink(links, group);
    }
    return Ok(links);
  }

  /** Tile signs that agree with every link. */
  ghost predicate Consistent(tileSigns: seq<int>, links: seq<Link>) {
    && IsSigns(tileSigns)
    && forall l :: l in links ==> l.a < |tileSigns| && l.b < |tileSigns| && tileSigns[l.a] * tileSigns[l.b] == l.relation
  }

  lemma SignAlgebra(a: int, b: int, v: int, x: int, y: int)
    requires IsSign(a) && IsSign(b) && IsSign(v) && a * v == x && b * v == y
    ensures a * b == x * y
  {
  }

  lemma SharedSign(a: int, b: int, x: int, y: int)
    requires IsSign(a) && IsSign(b) && IsSign(x) && IsSign(y) && a * b == x * y
    ensures a * x == b * y
  {
  }

  /** A common gauge makes its tile signs agree with every link. */
  lemma CommonGaugeIsConsistent(tiles: seq<seq<int>>, gauges: seq<seq<int>>, n: nat, entries: seq<Entry>, links: seq<Link>,
                                tileSigns: seq<int>, nodeSigns: seq<int>)
    requires EntriesOf(tiles, gauges, n, entries) && LinksOf(entries, n, links)
    requires CommonGauge(tiles, gauges, n, tileSigns, nodeSigns)
    ensures Consistent(tileSigns, links)
  {
    forall l | l in links ensures l.a < |tileSigns| && l.b < |tileSigns| && tileSigns[l.a] * tileSigns[l.b] == l.relation {
      var x: nat, y: nat :| LinkFrom(entries, x, y, l);
      var e, f := entries[x], entries[y];
      assert e in entries && f in entries;
      SignAlgebra(tileSigns[e.tile], tileSigns[f.tile], nodeSigns[e.position], e.sign, f.sign);
    }
  }

  /** The node sign that the first membership of a node asks for. */
  ghost function NodeSign(entries: seq<Entry>, tileSigns: seq<int>, p: nat): int
    requires forall e :: e in entries ==> e.tile < |tileSigns|
  {
    var g := Group(entries, p);
    if g == [] then 1 else assert g[0] in g; tileSigns[entries[g[0]].tile] * entries[g[0]].sign
  }

  lemma SignTimesSign(a: int, b: int)
    requires IsSign(a) && IsSign(b)
    ensures IsSign(a * b) && a * (a * b) == b
  {
  }

  /** Two memberships of a node ask for the same node sign. */
  lemma NodeSignFits(entries: seq<Entry>, n: nat, links: seq<Link>, tileSigns: seq<int>, x: nat)
    requires LinksOf(entries, n, links) && Consistent(tileSigns, links)
    requires forall e :: e in entries ==> e.tile < |tileSigns| && IsSign(e.sign) && e.position < n
    requires x < |entries|
    ensures NodeSign(entries, tileSigns, entries[x].position) == tileSigns[entries[x].tile] * entries[x].sign
  {
    var g := Group(entries, entries[x].position);
    assert x in g && g[0] in g;
    var y := g[0];
    assert entries[x] in entries && entries[y] in entries;
    if y != x {
      var k :| 0 <= k < |g| && g[k] == x;
      assert SameNode(entries, y, x);
      var l := LinkOf(entries[y], entries[x]);
      assert l in links;
      SharedSign(tileSigns[l.a], tileSigns[l.b], entries[y].sign, entries[x].sign);
    }
  }

  /** Tile signs that agree with every link extend to a common gauge. */
  lemma ConsistentIsCommonGauge(tiles: seq<seq<int>>, gauges: seq<seq<int>>, n: nat, entries: seq<Entry>, links: seq<Link>,
                                tileSigns: seq<int>) returns (nodeSigns: seq<int>)
    requires |tiles| == |gauges| == |tileSigns| && EntriesOf(tiles, gauges, n, entries) && LinksOf(entries, n, links)
    requires Consistent(tileSigns, links)
    ensures CommonGauge(tiles, gauges, n, tileSigns, nodeSigns)
  {
    nodeSigns := seq(n, p requires 0 <= p < n => NodeSign(entries, tileSigns, p));
    forall p | 0 <= p < n ensures IsSign(nodeSigns[p]) {
      var g := Group(entries, p);
      if g != [] {
        assert g[0] in g && entries[g[0]] in entries;
        SignTimesSign(tileSigns[entries[g[0]].tile], entries[g[0]].sign);
      }
    }
    forall i: nat, k: nat | SlotOf(tiles, gauges, i, k) && 0 <= tiles[i][k] < n
      ensures tileSigns[i] * nodeSigns[tiles[i][k]] == gauges[i][k]
    {
      var e := Entry(tiles[i][k], i, k, gauges[i][k]);
      var x :| 0 <= x < |entries| && entries[x] == e;
      NodeSignFits(entries, n, links, tileSigns, x);
      SignTimesSign(tileSigns[i], gauges[i][k]);
    }
  }
}

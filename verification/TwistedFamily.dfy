/** The twisted-dimer family end to end: gauged tiles, weak couplings, dimers, and the gauge report of the result. */
module TwistedFamily {
  import opened ChargedIce
  import opened ChargedIceFamily
  import opened Common
  import opened Dimers
  import opened GaugeLinks
  import opened IceCandidates
  import opened IceFamily
  import opened IceSelect
  import opened IceSides
  import opened IceSlots
  import opened IceTopology
  import opened IceTypes
  import opened Sorting
  import opened Twisted

  datatype TwistedInstance = TwistedInstance(edges: seq<Edge>, j: seq<int>, tiles: seq<Tile>, gauges: seq<Gauge>, pairs: seq<Edge>)

  datatype Outcome = BadTopology(error: StructureError) | NoInstance | Drawn(inst: TwistedInstance)

  /** What the substreams of one nonce supply. */
  datatype TwistedStreams = TwistedStreams(
    leftOrder: nat -> seq<nat>, rightOrder: nat -> seq<nat>, gauge: (nat, nat) -> nat, weak: seq<nat>, dimer: nat -> seq<nat>)

  // ---- couplings of the tiles ----

  /** No tile is charged. */
  function Uncharged(k: nat): (q: seq<int>)
    ensures |q| == k && forall i :: 0 <= i < k ==> IsCharge(q[i])
  {
    seq(k, _ => 0)
  }

  /** The strong couplings of all tiles: the product of the two local signs, scaled. */
  ghost function Strong(n: nat, tiles: seq<Tile>, gauges: seq<Gauge>): map<Edge, int>
    requires TilesReady(n, tiles, gauges, Uncharged(|tiles|))
  {
    StrongAfter(n, tiles, gauges, Uncharged(|tiles|), STRONG_MILLI, |tiles|)
  }

  method BuildStrong(n: nat, edges: seq<Edge>, tiles: seq<Tile>, gauges: seq<Gauge>) returns (strong: Option<map<Edge, int>>)
    requires TilesReady(n, tiles, gauges, Uncharged(|tiles|))
    ensures strong.Some? <==> forall i :: 0 <= i < |tiles| ==> TileEdgeSet(tiles[i]) <= Elements(edges)
    ensures strong.Some? ==> strong.value == Strong(n, tiles, gauges)
  {
    var all: map<Edge, int> := map[];
    for k := 0 to |tiles|
      invariant forall i :: 0 <= i < k ==> TileEdgeSet(tiles[i]) <= Elements(edges)
      invariant all == StrongAfter(n, tiles, gauges, Uncharged(|tiles|), STRONG_MILLI, k)
    {
      var ok := OnGraph(edges, tiles[k]);
      if !ok {
        return None;
      }
      all := Store(all, TileEdges(tiles[k]), PairCouplings(gauges[k], STRONG_MILLI));
    }
    return Some(all);
  }

  // ---- the instance ----

  /** The couplings before the pairs are set, with the pairs then set on `picks`. */
  ghost predicate CoupledBy(inst: TwistedInstance, n: nat, weak: int, draws: seq<nat>, before: seq<int>, picks: set<nat>)
    requires TilesReady(n, inst.tiles, inst.gauges, Uncharged(|inst.tiles|)) && |inst.edges| <= |draws|
  {
    && CouplingsOf(inst.edges, Strong(n, inst.tiles, inst.gauges), weak, draws, before)
    && PairsSet(before, inst.j, picks)
    && Ascending(inst.pairs, EdgeLess)
    && forall e :: e in inst.pairs <==> exists at :: at in picks && at < |inst.edges| && inst.edges[at] == e
  }

  /** The dimers: the free edges that the shuffled walk takes, pairwise without a common node. */
  ghost predicate DimersOf(n: nat, edges: seq<Edge>, tiles: seq<Tile>, gauges: seq<Gauge>, want: nat, dimer: nat -> seq<nat>,
                           picks: set<nat>)
    requires TilesReady(n, tiles, gauges, Uncharged(|tiles|)) && Shuffles(dimer)
  {
    var strong := Strong(n, tiles, gauges).Keys;
    TakenInOrder(edges, Walk(edges, strong, dimer(|FreePositions(edges, strong)|)), want, picks) && FreeDimers(edges, strong, picks)
  }

  /** A drawn instance: the `want` pairs that the walk takes outside the tiles of a largest selection. */
  ghost predicate IsTwisted(inst: TwistedInstance, n: nat, weak: int, want: nat, streams: TwistedStreams)
    requires Shuffles(streams.dimer)
  {
    && inst.gauges == Gauges(streams.gauge, |inst.tiles|)
    && TilesReady(n, inst.tiles, inst.gauges, Uncharged(|inst.tiles|)) && |inst.edges| <= |streams.weak|
    && exists before, picks ::
         && CoupledBy(inst, n, weak, streams.weak, before, picks) && |picks| == want
         && DimersOf(n, inst.edges, inst.tiles, inst.gauges, want, streams.dimer, picks)
  }

  lemma WeakBound(edges: seq<Edge>, strong: map<Edge, int>, weak: int, draws: seq<nat>, j: seq<int>)
    requires |edges| <= |draws| && AllNear(strong, STRONG_MILLI) && 1 <= weak <= 999 && CouplingsOf(edges, strong, weak, draws, j)
    ensures WithinBound(j)
  {
    forall k | 0 <= k < |j| ensures Near(j[k], COEFFICIENT_BOUND) {
      CouplingBound(edges, strong, STRONG_MILLI, weak, draws, k);
    }
  }

  /** Every coupling of a drawn instance is at most 1000 in magnitude. */
  lemma TwistedWithinBound(inst: TwistedInstance, n: nat, weak: int, want: nat, streams: TwistedStreams)
    requires Shuffles(streams.dimer) && IsTwisted(inst, n, weak, want, streams) && 1 <= weak <= 999
    ensures WithinBound(inst.j)
  {
    var before, picks :| CoupledBy(inst, n, weak, streams.weak, before, picks);
    StrongBound(n, inst.tiles, inst.gauges, Uncharged(|inst.tiles|), STRONG_MILLI, |inst.tiles|);
    WeakBound(inst.edges, Strong(n, inst.tiles, inst.gauges), weak, streams.weak, before);
  }

  lemma OutsideThePicks(edges: seq<Edge>, strong: set<Edge>, picks: set<nat>, at: nat)
    requires FreeDimers(edges, strong, picks) && at < |edges| && edges[at] in strong
    ensures at !in picks
  {
  }

  /** Couplings inside tile `i` are its gauged strong couplings: the pairs leave them alone. */
  lemma TileCouplingsStand(inst: TwistedInstance, n: nat, weak: int, want: nat, streams: TwistedStreams, i: nat, p: nat, at: nat)
    requires Shuffles(streams.dimer) && IsTwisted(inst, n, weak, want, streams) && EdgeDisjoint(inst.edges, inst.tiles)
    requires i < |inst.tiles| && p < 6 && at < |inst.edges| && inst.edges[at] == TileEdges(inst.tiles[i])[p]
    ensures at < |inst.j| && inst.j[at] == PairCouplings(inst.gauges[i], STRONG_MILLI)[p]
  {
    var before, picks :|
      && CoupledBy(inst, n, weak, streams.weak, before, picks) && |picks| == want
      && DimersOf(n, inst.edges, inst.tiles, inst.gauges, want, streams.dimer, picks);
    StrongAfterValues(inst.edges, n, inst.tiles, inst.gauges, Uncharged(|inst.tiles|), STRONG_MILLI, |inst.tiles|, i, p);
    var strong := Strong(n, inst.tiles, inst.gauges);
    assert inst.edges[at] in strong.Keys;
    OutsideThePicks(inst.edges, strong.Keys, picks, at);
    assert CouplingAt(inst.edges, strong, weak, streams.weak, at) == strong[inst.edges[at]];
  }

  // ---- generation ----

  /** The walk stops short of `want`, and no node-disjoint set of edges outside the tiles has more than twice one less. */
  ghost predicate TooFewDimers(n: nat, edges: seq<Edge>, tiles: seq<Tile>, gauges: seq<Gauge>, want: nat, dimer: nat -> seq<nat>)
    requires TilesReady(n, tiles, gauges, Uncharged(|tiles|)) && Shuffles(dimer)
  {
    && (exists picks :: DimersOf(n, edges, tiles, gauges, want, dimer, picks) && |picks| < want)
    && forall rival :: FreeDimers(edges, Strong(n, tiles, gauges).Keys, rival) ==> |rival| <= 2 * (want - 1)
  }

  lemma SelectionIsReady(n: nat, es: set<Edge>, found: Structure, edges: seq<Edge>, chosen: seq<Tile>, gauge: (nat, nat) -> nat)
    requires SelectedOn(n, es, found, edges, chosen)
    ensures TilesReady(n, chosen, Gauges(gauge, |chosen|), Uncharged(|chosen|))
  {
  }

  /** Draws an instance over a selection, or reports a shortfall. */
  method DrawTwisted(n: nat, ghost es: set<Edge>, ghost found: Structure, edges: seq<Edge>, chosen: seq<Tile>, weak: int, want: nat,
                     streams: TwistedStreams) returns (inst: Option<TwistedInstance>)
    requires SelectedOn(n, es, found, edges, chosen) && |edges| <= |streams.weak| && Shuffles(streams.dimer)
    ensures TilesReady(n, chosen, Gauges(streams.gauge, |chosen|), Uncharged(|chosen|))
    ensures inst.None? ==> TooFewDimers(n, edges, chosen, Gauges(streams.gauge, |chosen|), want, streams.dimer)
    ensures inst.Some? ==> inst.value.edges == edges && inst.value.tiles == chosen && IsTwisted(inst.value, n, weak, want, streams)
  {
    SelectionIsReady(n, es, found, edges, chosen, streams.gauge);
    var gauges := Gauges(streams.gauge, |chosen|);
    var strong := BuildStrong(n, edges, chosen, gauges);
    var before, signs := BuildCouplings(edges, strong.value, weak, streams.weak);
    var order := streams.dimer(|FreePositions(edges, strong.value.Keys)|);
    var code, j, pairs, picks := PairStep(edges, strong.value.Keys, before, want, order);
    if code == CODE_NO_INSTANCE {
      return None;
    }
    var result := TwistedInstance(edges, j, chosen, gauges, pairs);
    assert CoupledBy(result, n, weak, streams.weak, before, picks);
    assert DimersOf(n, edges, chosen, gauges, want, streams.dimer, picks);
    return Some(result);
  }

  /** What one nonce gives on a registered topology. */
  ghost predicate IsOutcome(m: nat, t: nat, weak: int, want: nat, nodes: seq<nat>, nativeEdges: seq<NativeEdge>,
                            streams: TwistedStreams, r: Outcome)
    requires Registered(nodes, nativeEdges) && Shuffles(streams.dimer)
  {
    match r
    case BadTopology(error) => IsVerdict(m, t, nodes, nativeEdges, Err(error))
    case NoInstance => exists edges, chosen ::
      && SelectionOf(m, t, nodes, nativeEdges, streams.leftOrder, streams.rightOrder, edges, chosen)
      && TilesReady(|nodes|, chosen, Gauges(streams.gauge, |chosen|), Uncharged(|chosen|))
      && TooFewDimers(|nodes|, edges, chosen, Gauges(streams.gauge, |chosen|), want, streams.dimer)
    case Drawn(inst) =>
      && IsTwisted(inst, |nodes|, weak, want, streams)
      && SelectionOf(m, t, nodes, nativeEdges, streams.leftOrder, streams.rightOrder, inst.edges, inst.tiles)
  }

  /** Every accepted topology gives an instance or a shortfall of dimers; nothing else can fail. */
  method Generate(m: nat, t: nat, weak: int, want: nat, nodes: seq<nat>, nativeEdges: seq<NativeEdge>, streams: TwistedStreams)
    returns (r: Outcome)
    requires Registered(nodes, nativeEdges) && 1 <= weak <= 999 && |nativeEdges| <= |streams.weak|
    requires Shuffles(streams.leftOrder) && Shuffles(streams.rightOrder) && Shuffles(streams.dimer)
    ensures IsOutcome(m, t, weak, want, nodes, nativeEdges, streams, r)
    ensures r.Drawn? ==> WithinBound(r.inst.j)
  {
    var ready, found := Prepare(m, t, nodes, nativeEdges, streams.leftOrder, streams.rightOrder);
    if ready.Err? {
      return BadTopology(ready.error);
    }
    var (edges, chosen) := ready.value;
    ghost var es := EdgeSet(Dense(nodes, nativeEdges));
    var inst := DrawTwisted(|nodes|, es, found, edges, chosen, weak, want, streams);
    if inst.None? {
      return NoInstance;
    }
    TwistedWithinBound(inst.value, |nodes|, weak, want, streams);
    return Drawn(inst.value);
  }

  // ---- one nonce gives one outcome ----

  lemma PairsAgree(edges: seq<Edge>, picks: set<nat>, pairs: seq<Edge>, also: seq<Edge>)
    requires Ascending(pairs, EdgeLess) && Ascending(also, EdgeLess)
    requires forall e :: e in pairs <==> exists at :: at in picks && at < |edges| && edges[at] == e
    requires forall e :: e in also <==> exists at :: at in picks && at < |edges| && edges[at] == e
    ensures pairs == also
  {
    EdgeOrder();
    AscendingUnique(pairs, also, EdgeLess);
  }

  lemma CoupledUnique(a: TwistedInstance, b: TwistedInstance, n: nat, weak: int, draws: seq<nat>, before: seq<int>, before': seq<int>,
                      picks: set<nat>)
    requires TilesReady(n, a.tiles, a.gauges, Uncharged(|a.tiles|)) && |a.edges| <= |draws|
    requires a.edges == b.edges && a.tiles == b.tiles && a.gauges == b.gauges
    requires CoupledBy(a, n, weak, draws, before, picks) && CoupledBy(b, n, weak, draws, before', picks)
    ensures a == b
  {
    assert before == before';
    assert a.j == b.j;
    PairsAgree(a.edges, picks, a.pairs, b.pairs);
  }

  lemma DimersUnique(n: nat, edges: seq<Edge>, tiles: seq<Tile>, gauges: seq<Gauge>, want: nat, dimer: nat -> seq<nat>,
                     picks: set<nat>, also: set<nat>)
    requires TilesReady(n, tiles, gauges, Uncharged(|tiles|)) && Shuffles(dimer)
    requires DimersOf(n, edges, tiles, gauges, want, dimer, picks) && DimersOf(n, edges, tiles, gauges, want, dimer, also)
    ensures picks == also
  {
    var strong := Strong(n, tiles, gauges).Keys;
    PicksUnique(edges, Walk(edges, strong, dimer(|FreePositions(edges, strong)|)), want, picks, also);
  }

  /** The streams and the selection determine the instance. */
  lemma TwistedUnique(a: TwistedInstance, b: TwistedInstance, n: nat, weak: int, want: nat, streams: TwistedStreams)
    requires Shuffles(streams.dimer) && IsTwisted(a, n, weak, want, streams) && IsTwisted(b, n, weak, want, streams)
    requires a.edges == b.edges && a.tiles == b.tiles
    ensures a == b
  {
    var before, picks :| CoupledBy(a, n, weak, streams.weak, before, picks)
      && DimersOf(n, a.edges, a.tiles, a.gauges, want, streams.dimer, picks);
    var before', picks' :| CoupledBy(b, n, weak, streams.weak, before', picks')
      && DimersOf(n, b.edges, b.tiles, b.gauges, want, streams.dimer, picks');
    DimersUnique(n, a.edges, a.tiles, a.gauges, want, streams.dimer, picks, picks');
    CoupledUnique(a, b, n, weak, streams.weak, before, before', picks);
  }

  /** A shortfall leaves no instance. */
  lemma ShortfallExcludes(inst: TwistedInstance, n: nat, weak: int, want: nat, streams: TwistedStreams)
    requires Shuffles(streams.dimer) && IsTwisted(inst, n, weak, want, streams)
    ensures !TooFewDimers(n, inst.edges, inst.tiles, inst.gauges, want, streams.dimer)
  {
    var before, picks :| CoupledBy(inst, n, weak, streams.weak, before, picks) && |picks| == want
      && DimersOf(n, inst.edges, inst.tiles, inst.gauges, want, streams.dimer, picks);
    forall other | DimersOf(n, inst.edges, inst.tiles, inst.gauges, want, streams.dimer, other) ensures other == picks {
      DimersUnique(n, inst.edges, inst.tiles, inst.gauges, want, streams.dimer, picks, other);
    }
  }

  lemma DrawnIsOnly(m: nat, t: nat, weak: int, want: nat, nodes: seq<nat>, nativeEdges: seq<NativeEdge>, streams: TwistedStreams,
                    inst: TwistedInstance, r: Outcome)
    requires Registered(nodes, nativeEdges) && Shuffles(streams.dimer) && Shuffles(streams.rightOrder) && !r.BadTopology?
    requires IsOutcome(m, t, weak, want, nodes, nativeEdges, streams, Drawn(inst))
    requires IsOutcome(m, t, weak, want, nodes, nativeEdges, streams, r)
    ensures r == Drawn(inst)
  {
    var left, right := streams.leftOrder, streams.rightOrder;
    if r.Drawn? {
      SelectionOfUnique(m, t, nodes, nativeEdges, left, right, inst.edges, inst.tiles, r.inst.edges, r.inst.tiles);
      TwistedUnique(inst, r.inst, |nodes|, weak, want, streams);
    } else {
      forall edges, chosen | SelectionOf(m, t, nodes, nativeEdges, left, right, edges, chosen)
        ensures edges == inst.edges && chosen == inst.tiles
      {
        SelectionOfUnique(m, t, nodes, nativeEdges, left, right, inst.edges, inst.tiles, edges, chosen);
      }
      ShortfallExcludes(inst, |nodes|, weak, want, streams);
    }
  }

  /** One topology, one set of parameters, and the streams of one nonce have one outcome. */
  lemma OutcomeUnique(m: nat, t: nat, weak: int, want: nat, nodes: seq<nat>, nativeEdges: seq<NativeEdge>, streams: TwistedStreams,
                      r: Outcome, q: Outcome)
    requires Registered(nodes, nativeEdges) && Shuffles(streams.dimer) && Shuffles(streams.rightOrder)
    requires IsOutcome(m, t, weak, want, nodes, nativeEdges, streams, r) && IsOutcome(m, t, weak, want, nodes, nativeEdges, streams, q)
    ensures r == q
  {
    var left, right := streams.leftOrder, streams.rightOrder;
    if r.BadTopology? || q.BadTopology? {
      var error := if r.BadTopology? then r.error else q.error;
      forall edges, chosen ensures !SelectionOf(m, t, nodes, nativeEdges, left, right, edges, chosen) {
        RejectedHasNoSelection(m, t, nodes, nativeEdges, left, right, error, edges, chosen);
      }
      assert r.BadTopology? && q.BadTopology?;
      VerdictUnique(m, t, nodes, nativeEdges, Err(r.error), Err(q.error));
    } else if r.Drawn? {
      DrawnIsOnly(m, t, weak, want, nodes, nativeEdges, streams, r.inst, q);
    } else if q.Drawn? {
      DrawnIsOnly(m, t, weak, want, nodes, nativeEdges, streams, q.inst, r);
    }
  }

  // ---- the gauge report of a drawn instance ----

  function PositionLists(tiles: seq<Tile>): (lists: seq<seq<int>>)
    ensures |lists| == |tiles|
  {
    seq(|tiles|, i requires 0 <= i < |tiles| => [tiles[i].a as int, tiles[i].b as int, tiles[i].c as int, tiles[i].d as int])
  }

  lemma ListsAreWellFormed(n: nat, tiles: seq<Tile>, gauges: seq<Gauge>)
    requires TilesReady(n, tiles, gauges, Uncharged(|tiles|))
    ensures WellFormed(PositionLists(tiles), gauges, n)
  {
  }

  /** A tile lists a node once, so a membership is known by its tile and node. */
  lemma MembershipOnce(n: nat, tiles: seq<Tile>, gauges: seq<Gauge>, entries: seq<Entry>, x: nat, y: nat)
    requires TilesReady(n, tiles, gauges, Uncharged(|tiles|)) && EntriesOf(PositionLists(tiles), gauges, n, entries)
    requires x < |entries| && y < |entries| && entries[x].position == entries[y].position && entries[x].tile == entries[y].tile
    ensures x == y
  {
    assert entries[x] in entries && entries[y] in entries;
    assert EntryFits(PositionLists(tiles), gauges, n, entries[x]) && EntryFits(PositionLists(tiles), gauges, n, entries[y]);
    assert entries[x] == entries[y];
  }

  lemma MembershipTile(n: nat, tiles: seq<Tile>, gauges: seq<Gauge>, entries: seq<Entry>, x: nat)
    requires TilesReady(n, tiles, gauges, Uncharged(|tiles|)) && EntriesOf(PositionLists(tiles), gauges, n, entries)
    requires x < |entries|
    ensures entries[x].tile < |tiles| && tiles[entries[x].tile] in TilesAt(tiles, entries[x].position)
  {
    assert entries[x] in entries;
    assert EntryFits(PositionLists(tiles), gauges, n, entries[x]);
  }

  /** No more memberships than selected tiles at a node. */
  lemma GroupWithinTiles(n: nat, tiles: seq<Tile>, gauges: seq<Gauge>, entries: seq<Entry>, p: nat)
    requires TilesReady(n, tiles, gauges, Uncharged(|tiles|)) && EntriesOf(PositionLists(tiles), gauges, n, entries) && Distinct(tiles)
    ensures |Group(entries, p)| <= |TilesAt(tiles, p)|
  {
    var g := Group(entries, p);
    assert Distinct(g);
    DistinctCard(g);
    forall x | x in g ensures x < |entries| && entries[x].tile < |tiles| && tiles[entries[x].tile] in TilesAt(tiles, p) {
      MembershipTile(n, tiles, gauges, entries, x);
    }
    forall x, y | x in g && y in g && tiles[entries[x].tile] == tiles[entries[y].tile] ensures x == y {
      MembershipOnce(n, tiles, gauges, entries, x, y);
    }
    InjectionBound<nat, Tile>(Elements(g), TilesAt(tiles, p),
      (x: nat) requires x < |entries| && entries[x].tile < |tiles| => tiles[entries[x].tile]);
  }

  /** The report on a drawn instance never fails: a selection puts no node into three tiles. */
  method Describe(n: nat, ghost es: set<Edge>, ghost found: Structure, ghost edges: seq<Edge>, tiles: seq<Tile>, gauges: seq<Gauge>)
    returns (r: Result<Report, GaugeError>)
    requires SelectedOn(n, es, found, edges, tiles) && TilesReady(n, tiles, gauges, Uncharged(|tiles|))
    ensures r.Ok? && r.value.frustratedCycles <= r.value.cycleRank
    ensures r.value.gaugeEquivalent <==>
              exists tileSigns, nodeSigns :: CommonGauge(PositionLists(tiles), gauges, n, tileSigns, nodeSigns)
  {
    ghost var entries, links, pot, tree;
    ListsAreWellFormed(n, tiles, gauges);
    r, entries, links, pot, tree := GaugeObstructions(PositionLists(tiles), gauges, n);
    if r.Err? {
      GroupWithinTiles(n, tiles, gauges, entries, r.error.position);
      assert false;
    }
  }
}

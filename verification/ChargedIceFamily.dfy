/** The charged-ice family end to end: topology, selection, instance, energy identity, and bounds. */
module ChargedIceFamily {
  import opened ChargedIce
  import opened Common
  import opened IceCandidates
  import opened IceFamily
  import opened IceSides
  import opened IceSlots
  import opened IceTopology
  import opened IceTypes

  // ---- bounds ----

  ghost function Change(t: Tile, g: Gauge, q: int, scale: int, v: nat): int
    requires |g| == 4
  {
    if v == t.a then -scale * q * g[0] else if v == t.b then -scale * q * g[1]
    else if v == t.c then -scale * q * g[2] else if v == t.d then -scale * q * g[3] else 0
  }

  lemma AddFieldsAt(h: seq<int>, t: Tile, g: Gauge, q: int, scale: int, v: nat)
    requires OrderedTile(t) && t.d < |h| && |g| == 4 && v < |h|
    ensures AddFields(h, t, g, q, scale)[v] == h[v] + Change(t, g, q, scale, v)
  {
  }

  predicate Near(x: int, limit: int) {
    -limit <= x <= limit
  }

  lemma SmallChange(scale: int, q: int, g: int)
    requires 0 <= scale && IsCharge(q) && IsSign(g)
    ensures Near(-scale * q * g, 2 * scale)
  {
  }

  /** Twice the scale for each of `c` tiles. */
  ghost function Limit(scale: int, c: nat): int {
    if c == 0 then 0 else Limit(scale, c - 1) + 2 * scale
  }

  lemma FieldStep(h: seq<int>, t: Tile, g: Gauge, q: int, scale: int, v: nat, c: nat, more: nat)
    requires OrderedTile(t) && t.d < |h| && IsGauge(g) && IsCharge(q) && 0 <= scale && v < |h|
    requires Near(h[v], Limit(scale, c)) && more == c + if v in TileNodes(t) then 1 else 0
    ensures Near(AddFields(h, t, g, q, scale)[v], Limit(scale, more))
  {
    AddFieldsAt(h, t, g, q, scale, v);
    ChangeBound(t, g, q, scale, v);
  }

  /** A field is at most twice the scale for every tile at the node. */
  lemma {:induction false} FieldBound(n: nat, tiles: seq<Tile>, gauges: seq<Gauge>, charges: seq<int>, scale: int, k: nat, v: nat)
    requires k <= |tiles| && TilesReady(n, tiles, gauges, charges) && Distinct(tiles) && v < n && 0 <= scale
    ensures Near(FieldsAfter(n, tiles, gauges, charges, scale, k)[v], Limit(scale, |TilesAt(tiles[..k], v)|))
  {
    if k == 0 {
      assert TilesAt(tiles[..0], v) == {};
    } else {
      var h := FieldsAfter(n, tiles, gauges, charges, scale, k - 1);
      var before, more := |TilesAt(tiles[..k - 1], v)|, |TilesAt(tiles[..k], v)|;
      FieldBound(n, tiles, gauges, charges, scale, k - 1, v);
      OneMoreTile(tiles, k, v);
      assert tiles[k - 1] in tiles;
      assert IsGauge(gauges[k - 1]) && IsCharge(charges[k - 1]);
      FieldStep(h, tiles[k - 1], gauges[k - 1], charges[k - 1], scale, v, before, more);
    }
  }

  lemma OneMoreTile(tiles: seq<Tile>, k: nat, v: nat)
    requires 0 < k <= |tiles| && Distinct(tiles)
    ensures |TilesAt(tiles[..k], v)| == |TilesAt(tiles[..k - 1], v)| + if v in TileNodes(tiles[k - 1]) then 1 else 0
  {
    TilesAtGrows(tiles, k - 1, v);
    assert tiles[..k - 1 + 1] == tiles[..k];
  }

  lemma ChangeBound(t: Tile, g: Gauge, q: int, scale: int, v: nat)
    requires 0 <= scale && IsGauge(g) && IsCharge(q)
    ensures Near(Change(t, g, q, scale, v), 2 * scale)
    ensures v !in TileNodes(t) ==> Change(t, g, q, scale, v) == 0
  {
    SmallChange(scale, q, g[0]);
    SmallChange(scale, q, g[1]);
    SmallChange(scale, q, g[2]);
    SmallChange(scale, q, g[3]);
  }

  lemma TwoTiles(scale: int, c: nat)
    requires 0 <= scale <= 250 && c <= 2
    ensures 0 <= Limit(scale, c) <= COEFFICIENT_BOUND
  {
    assert Limit(scale, 0) == 0;
    assert Limit(scale, 1) == 2 * scale;
    assert Limit(scale, 2) == 4 * scale;
  }

  lemma ScaledSigns(scale: int, x: int, y: int)
    requires 0 <= scale && IsSign(x) && IsSign(y)
    ensures Near(scale * x * y, scale)
  {
  }

  ghost predicate AllNear(strong: map<Edge, int>, top: int) {
    forall e :: e in strong ==> Near(strong[e], top)
  }

  lemma {:induction false} StoreBound(strong: map<Edge, int>, edges: seq<Edge>, values: seq<int>, top: int)
    requires |edges| == |values| && AllNear(strong, top)
    requires forall k :: 0 <= k < |values| ==> Near(values[k], top)
    ensures AllNear(Store(strong, edges, values), top)
  {
    if edges != [] {
      StoreBound(strong, edges[..|edges| - 1], values[..|values| - 1], top);
    }
  }

  lemma PairsBound(g: Gauge, scale: int)
    requires IsGauge(g) && 0 <= scale
    ensures forall k :: 0 <= k < 6 ==> Near(PairCouplings(g, scale)[k], scale)
  {
    ScaledSigns(scale, g[0], g[1]);
    ScaledSigns(scale, g[0], g[2]);
    ScaledSigns(scale, g[0], g[3]);
    ScaledSigns(scale, g[1], g[2]);
    ScaledSigns(scale, g[1], g[3]);
    ScaledSigns(scale, g[2], g[3]);
  }

  lemma {:induction false} StrongBound(n: nat, tiles: seq<Tile>, gauges: seq<Gauge>, charges: seq<int>, scale: int, k: nat)
    requires k <= |tiles| && TilesReady(n, tiles, gauges, charges) && 0 <= scale
    ensures AllNear(StrongAfter(n, tiles, gauges, charges, scale, k), scale)
  {
    if k > 0 {
      StrongBound(n, tiles, gauges, charges, scale, k - 1);
      PairsBound(gauges[k - 1], scale);
      StoreBound(StrongAfter(n, tiles, gauges, charges, scale, k - 1), TileEdges(tiles[k - 1]), PairCouplings(gauges[k - 1], scale), scale);
    }
  }

  lemma BackgroundBound(sign: int, background: int)
    requires IsSign(sign) && 0 <= background
    ensures Near(sign * background, background)
  {
  }

  lemma CouplingBound(edges: seq<Edge>, strong: map<Edge, int>, scale: int, background: int, draws: seq<nat>, k: nat)
    requires k < |edges| <= |draws| && AllNear(strong, scale) && 0 <= scale <= COEFFICIENT_BOUND && 0 <= background <= 999
    ensures Near(CouplingAt(edges, strong, background, draws, k), COEFFICIENT_BOUND)
  {
    if edges[k] !in strong {
      BackgroundBound(SignOf(draws[|BackgroundSigns(edges[..k], strong, draws)|]), background);
    }
  }

  ghost predicate WithinBound(values: seq<int>) {
    forall i :: 0 <= i < |values| ==> Near(values[i], COEFFICIENT_BOUND)
  }

  /** Under the schema bounds every field and coupling is at most 1000 in magnitude. */
  lemma CoefficientsWithinBound(inst: Instance, n: nat, draws: seq<nat>)
    requires Built(inst, n, draws) && Distinct(inst.tiles)
    requires 1 <= inst.scale <= 250 && 1 <= inst.background <= 999
    requires forall v :: 0 <= v < n ==> |TilesAt(inst.tiles, v)| <= 2
    ensures WithinBound(inst.h) && WithinBound(inst.j)
  {
    forall v | 0 <= v < n ensures Near(inst.h[v], COEFFICIENT_BOUND) {
      FieldBound(n, inst.tiles, inst.gauges, inst.charges, inst.scale, |inst.tiles|, v);
      assert inst.tiles[..|inst.tiles|] == inst.tiles;
      TwoTiles(inst.scale, |TilesAt(inst.tiles, v)|);
    }
    StrongBound(n, inst.tiles, inst.gauges, inst.charges, inst.scale, |inst.tiles|);
    forall k | 0 <= k < |inst.edges| ensures Near(inst.j[k], COEFFICIENT_BOUND) {
      CouplingBound(inst.edges, StrongOf(inst, n), inst.scale, inst.background, draws, k);
    }
  }

  // ---- the offset ----

  /** The memberships of the nodes below `m` in the first `k` tiles. */
  ghost function Memberships(tiles: seq<Tile>, k: nat, m: nat): nat
    requires k <= |tiles|
    decreases m
  {
    if m == 0 then 0 else Memberships(tiles, k, m - 1) + |TilesAt(tiles[..k], m - 1)|
  }

  ghost function NodesBelow(t: Tile, m: nat): nat {
    (if t.a < m then 1 else 0) + (if t.b < m then 1 else 0) + (if t.c < m then 1 else 0) + (if t.d < m then 1 else 0)
  }

  lemma {:induction false} MembershipsGrow(tiles: seq<Tile>, k: nat, m: nat)
    requires k < |tiles| && Distinct(tiles) && OrderedTile(tiles[k])
    ensures Memberships(tiles, k + 1, m) == Memberships(tiles, k, m) + NodesBelow(tiles[k], m)
    decreases m
  {
    if m > 0 {
      MembershipsGrow(tiles, k, m - 1);
      TilesAtGrows(tiles, k, m - 1);
      assert (m - 1) in TileNodes(tiles[k]) <==> NodesBelow(tiles[k], m) == NodesBelow(tiles[k], m - 1) + 1;
    }
  }

  /** Counting the memberships by tiles: four each. */
  lemma {:induction false} FourEach(tiles: seq<Tile>, k: nat, n: nat)
    requires k <= |tiles| && Distinct(tiles) && forall i :: 0 <= i < |tiles| ==> OrderedTile(tiles[i]) && tiles[i].d < n
    ensures Memberships(tiles, k, n) == 4 * k
    decreases k
  {
    if k > 0 {
      FourEach(tiles, k - 1, n);
      MembershipsGrow(tiles, k - 1, n);
    } else {
      NoMemberships(tiles, n);
    }
  }

  lemma {:induction false} NoMemberships(tiles: seq<Tile>, m: nat)
    ensures Memberships(tiles, 0, m) == 0
    decreases m
  {
    if m > 0 {
      NoMemberships(tiles, m - 1);
      assert TilesAt(tiles[..0], m - 1) == {};
    }
  }

  /** Counting them by nodes: at most two each. */
  lemma {:induction false} TwoEach(tiles: seq<Tile>, m: nat)
    requires forall v :: 0 <= v < m ==> |TilesAt(tiles, v)| <= 2
    ensures Memberships(tiles, |tiles|, m) <= 2 * m
    decreases m
  {
    if m > 0 {
      TwoEach(tiles, m - 1);
      assert tiles[..|tiles|] == tiles;
    }
  }

  lemma OffsetOfTile(q: int, scale: int)
    requires IsCharge(q) && 0 <= scale
    ensures 0 <= TileOffset(q, scale) <= 4 * scale
  {
    assert q * q == 0 || q * q == 4;
  }

  lemma {:induction false} OffsetBound(charges: seq<int>, scale: int, k: nat)
    requires k <= |charges| && 0 <= scale <= 250 && forall i :: 0 <= i < |charges| ==> IsCharge(charges[i])
    ensures 0 <= OffsetAfter(charges, scale, k) <= 1000 * k
    decreases k
  {
    if k > 0 {
      OffsetBound(charges, scale, k - 1);
      OffsetOfTile(charges[k - 1], scale);
    }
  }

  /** A tile adds at most 1000 to the offset, and there are at most half as many tiles as nodes. */
  lemma OffsetWithinBound(inst: Instance, n: nat, draws: seq<nat>)
    requires Built(inst, n, draws) && Distinct(inst.tiles) && 1 <= inst.scale <= 250
    requires forall v :: 0 <= v < n ==> |TilesAt(inst.tiles, v)| <= 2
    ensures 2 * |inst.tiles| <= n && 0 <= inst.offset <= 500 * n
  {
    FourEach(inst.tiles, |inst.tiles|, n);
    TwoEach(inst.tiles, n);
    OffsetBound(inst.charges, inst.scale, |inst.tiles|);
  }

  // ---- the family ----

  /** What the substreams of one nonce supply. */
  datatype Streams = Streams(
    leftOrder: nat -> seq<nat>, rightOrder: nat -> seq<nat>,
    charge: nat -> (nat, nat), gauge: (nat, nat) -> nat, background: seq<nat>)

  function ChargeAt(streams: Streams, chargedPer256: nat, k: nat): (q: int)
    ensures IsCharge(q)
  {
    ChargeOf(streams.charge(k).0, streams.charge(k).1, chargedPer256)
  }

  /** An instance drawn over a selection, and what the family promises of it. */
  ghost predicate Promised(inst: Instance, n: nat, draws: seq<nat>) {
    && Built(inst, n, draws)
    && (forall s :: IsSpins(s) && |s| == n ==> Fits(inst, s) && Encoded(inst, s) == Direct(inst, s))
    && WithinBound(inst.h) && WithinBound(inst.j) && 0 <= inst.offset <= 500 * n
  }

  function Charges(streams: Streams, chargedPer256: nat, n: nat): (q: seq<int>)
    ensures |q| == n && forall k :: 0 <= k < n ==> q[k] == ChargeOf(streams.charge(k).0, streams.charge(k).1, chargedPer256) && IsCharge(q[k])
  {
    seq(n, k requires 0 <= k < n => ChargeAt(streams, chargedPer256, k))
  }

  method Assemble(n: nat, ghost es: set<Edge>, ghost found: Structure, edges: seq<Edge>, chosen: seq<Tile>,
                  scale: int, background: int, chargedPer256: nat, streams: Streams) returns (inst: Instance)
    requires SelectedOn(n, es, found, edges, chosen) && |edges| <= |streams.background|
    requires 1 <= scale <= 250 && 1 <= background <= 999
    ensures Promised(inst, n, streams.background)
    ensures inst.edges == edges && inst.tiles == chosen && inst.scale == scale && inst.background == background
    ensures inst.gauges == Gauges(streams.gauge, |chosen|) && inst.charges == Charges(streams, chargedPer256, |chosen|)
  {
    assert TilesReady(n, chosen, Gauges(streams.gauge, |chosen|), Charges(streams, chargedPer256, |chosen|));
    var built := Build(n, edges, chosen, Gauges(streams.gauge, |chosen|), Charges(streams, chargedPer256, |chosen|),
                       scale, background, streams.background);
    inst := built.value;
    Promise(inst, n, streams.background);
  }

  lemma Promise(inst: Instance, n: nat, draws: seq<nat>)
    requires Built(inst, n, draws) && Distinct(inst.tiles) && 1 <= inst.scale <= 250 && 1 <= inst.background <= 999
    requires forall v :: 0 <= v < n ==> |TilesAt(inst.tiles, v)| <= 2
    ensures Promised(inst, n, draws)
  {
    forall s | IsSpins(s) && |s| == n ensures Fits(inst, s) && Encoded(inst, s) == Direct(inst, s) {
      EnergyIdentity(inst, draws, s);
    }
    CoefficientsWithinBound(inst, n, draws);
    OffsetWithinBound(inst, n, draws);
  }

  /** The instance has the drawn gauges and charges, and expands them with the given strengths. */
  ghost predicate IsCharged(inst: Instance, n: nat, scale: int, background: int, chargedPer256: nat, streams: Streams) {
    && inst.scale == scale && inst.background == background
    && inst.gauges == Gauges(streams.gauge, |inst.tiles|)
    && inst.charges == Charges(streams, chargedPer256, |inst.tiles|)
    && Expands(inst, n, streams.background)
  }

  /** What one nonce gives on a registered topology. */
  ghost predicate IsOutcome(m: nat, t: nat, scale: int, background: int, chargedPer256: nat, nodes: seq<nat>, nativeEdges: seq<NativeEdge>,
                            streams: Streams, r: Result<Instance, StructureError>)
    requires Registered(nodes, nativeEdges)
  {
    match r
    case Err(error) => IsVerdict(m, t, nodes, nativeEdges, Err(error))
    case Ok(inst) =>
      && IsCharged(inst, |nodes|, scale, background, chargedPer256, streams)
      && SelectionOf(m, t, nodes, nativeEdges, streams.leftOrder, streams.rightOrder, inst.edges, inst.tiles)
  }

  /** Every accepted topology gives an instance: no step after the structure checks can fail. */
  method Generate(m: nat, t: nat, scale: int, background: int, chargedPer256: nat,
                  nodes: seq<nat>, nativeEdges: seq<NativeEdge>, streams: Streams)
    returns (r: Result<Instance, StructureError>)
    requires Registered(nodes, nativeEdges)
    requires Shuffles(streams.leftOrder) && Shuffles(streams.rightOrder) && |nativeEdges| <= |streams.background|
    requires 1 <= scale <= 250 && 1 <= background <= 999
    ensures IsOutcome(m, t, scale, background, chargedPer256, nodes, nativeEdges, streams, r)
    ensures r.Ok? ==> Promised(r.value, |nodes|, streams.background)
  {
    var ready, found := Prepare(m, t, nodes, nativeEdges, streams.leftOrder, streams.rightOrder);
    if ready.Err? {
      return Err(ready.error);
    }
    var (edges, chosen) := ready.value;
    var inst := Assemble(|nodes|, EdgeSet(Dense(nodes, nativeEdges)), found, edges, chosen, scale, background, chargedPer256, streams);
    return Ok(inst);
  }

  // ---- one nonce gives one outcome ----

  /** The streams and the selection determine the instance. */
  lemma ChargedUnique(a: Instance, b: Instance, n: nat, scale: int, background: int, chargedPer256: nat, streams: Streams)
    requires a.edges == b.edges && a.tiles == b.tiles
    requires IsCharged(a, n, scale, background, chargedPer256, streams) && IsCharged(b, n, scale, background, chargedPer256, streams)
    ensures a == b
  {
    assert a.gauges == b.gauges && a.charges == b.charges;
    assert a.j == b.j;
  }

  /** One topology, one set of parameters, and the streams of one nonce have one outcome. */
  lemma OutcomeUnique(m: nat, t: nat, scale: int, background: int, chargedPer256: nat, nodes: seq<nat>, nativeEdges: seq<NativeEdge>,
                      streams: Streams, r: Result<Instance, StructureError>, q: Result<Instance, StructureError>)
    requires Registered(nodes, nativeEdges) && Shuffles(streams.rightOrder)
    requires IsOutcome(m, t, scale, background, chargedPer256, nodes, nativeEdges, streams, r)
    requires IsOutcome(m, t, scale, background, chargedPer256, nodes, nativeEdges, streams, q)
    ensures r == q
  {
    var left, right := streams.leftOrder, streams.rightOrder;
    if r.Err? || q.Err? {
      var error := if r.Err? then r.error else q.error;
      forall edges, chosen ensures !SelectionOf(m, t, nodes, nativeEdges, left, right, edges, chosen) {
        RejectedHasNoSelection(m, t, nodes, nativeEdges, left, right, error, edges, chosen);
      }
      assert r.Err? && q.Err?;
      VerdictUnique(m, t, nodes, nativeEdges, Err(r.error), Err(q.error));
    } else {
      SelectionOfUnique(m, t, nodes, nativeEdges, left, right, r.value.edges, r.value.tiles, q.value.edges, q.value.tiles);
      ChargedUnique(r.value, q.value, |nodes|, scale, background, chargedPer256, streams);
    }
  }
}

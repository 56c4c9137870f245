/** The ice-fields family end to end: selection, gauged glass couplings, and fields, or a shortfall of eligible nodes. */
module IceFieldsFamily {
  import opened ChargedIce
  import opened ChargedIceFamily
  import opened Common
  import opened IceCandidates
  import opened IceFamily
  import opened IceFields
  import opened IceSides
  import opened IceTopology
  import opened IceTypes
  import opened Sorting

  datatype FieldsInstance = FieldsInstance(edges: seq<Edge>, h: seq<int>, j: seq<int>, tiles: seq<Tile>, gauge: seq<int>)

  datatype Outcome = BadTopology(error: StructureError) | NoInstance | Drawn(inst: FieldsInstance)

  /** What the substreams of one nonce supply. */
  datatype FieldStreams = FieldStreams(
    leftOrder: nat -> seq<nat>, rightOrder: nat -> seq<nat>, glass: seq<nat>, gauge: nat -> nat,
    field: nat -> seq<nat>, fieldSign: nat -> nat)

  // ---- gauged couplings ----

  function TilePairs(tiles: seq<Tile>): set<Edge> {
    set t, e | t in tiles && e in TileEdges(t) :: e
  }

  /** The strong coupling on every pair of a tile. */
  function PairMap(tiles: seq<Tile>): map<Edge, int> {
    map e | e in TilePairs(tiles) :: STRONG_MILLI
  }

  function NodeGauge(draws: nat -> nat, n: nat): (g: seq<int>)
    ensures |g| == n && forall v :: 0 <= v < n ==> g[v] == SignOf(draws(v)) && IsSign(g[v])
  {
    if n == 0 then [] else NodeGauge(draws, n - 1) + [SignOf(draws(n - 1))]
  }

  /** Each coupling times the gauges of its two ends. */
  ghost predicate GaugedBy(edges: seq<Edge>, before: seq<int>, gauge: seq<int>, j: seq<int>)
    requires EdgesFit(edges, gauge) && |before| == |edges|
  {
    |j| == |edges| && forall k :: 0 <= k < |edges| ==> j[k] == before[k] * gauge[edges[k].u] * gauge[edges[k].v]
  }

  method ApplyGauge(edges: seq<Edge>, before: seq<int>, gauge: seq<int>) returns (j: seq<int>)
    requires EdgesFit(edges, gauge) && |before| == |edges|
    ensures GaugedBy(edges, before, gauge, j)
  {
    j := [];
    for k := 0 to |edges|
      invariant |j| == k && forall i :: 0 <= i < k ==> j[i] == before[i] * gauge[edges[i].u] * gauge[edges[i].v]
    {
      assert edges[k] in edges;
      j := j + [before[k] * gauge[edges[k].u] * gauge[edges[k].v]];
    }
  }

  function Turned(s: seq<int>, gauge: seq<int>): (r: seq<int>)
    requires |s| == |gauge|
    ensures |r| == |s|
  {
    seq(|s|, v requires 0 <= v < |s| => gauge[v] * s[v])
  }

  lemma GaugeMoves(c: int, x: int, y: int, s: int, t: int)
    ensures c * x * y * s * t == c * (x * s) * (y * t)
  {
    assert c * x * y * s * t == c * (x * y * s * t);
    assert x * y * s * t == (x * s) * (y * t);
  }

  /** The gauge hides the glass: the gauged couplings of a state are the plain couplings of the turned state. */
  lemma {:induction false} GaugeIsHidden(edges: seq<Edge>, before: seq<int>, gauge: seq<int>, j: seq<int>, s: seq<int>)
    requires |s| == |gauge| && EdgesFit(edges, s) && |before| == |edges| && GaugedBy(edges, before, gauge, j)
    ensures CouplingSum(edges, j, s) == CouplingSum(edges, before, Turned(s, gauge))
    decreases |edges|
  {
    if edges != [] {
      var k := |edges| - 1;
      assert edges[k] in edges;
      GaugeIsHidden(edges[..k], before[..k], gauge, j[..k], s);
      GaugeMoves(before[k], gauge[edges[k].u], gauge[edges[k].v], s[edges[k].u], s[edges[k].v]);
    }
  }

  // ---- bounds ----

  lemma SignsKeepSize(c: int, x: int, y: int, top: int)
    requires Near(c, top) && IsSign(x) && IsSign(y)
    ensures Near(c * x * y, top)
  {
  }

  lemma GaugedWithinBound(edges: seq<Edge>, before: seq<int>, gauge: seq<int>, j: seq<int>)
    requires EdgesFit(edges, gauge) && |before| == |edges| && GaugedBy(edges, before, gauge, j) && WithinBound(before)
    requires forall v :: 0 <= v < |gauge| ==> IsSign(gauge[v])
    ensures WithinBound(j)
  {
    forall k | 0 <= k < |j| ensures Near(j[k], COEFFICIENT_BOUND) {
      assert edges[k] in edges;
      SignsKeepSize(before[k], gauge[edges[k].u], gauge[edges[k].v], COEFFICIENT_BOUND);
    }
  }

  lemma GlassWithinBound(edges: seq<Edge>, tiles: seq<Tile>, glass: int, draws: seq<nat>, j: seq<int>)
    requires |edges| <= |draws| && 1 <= glass <= 999 && CouplingsOf(edges, PairMap(tiles), glass, draws, j)
    ensures WithinBound(j)
  {
    forall k | 0 <= k < |j| ensures Near(j[k], COEFFICIENT_BOUND) {
      CouplingBound(edges, PairMap(tiles), STRONG_MILLI, glass, draws, k);
    }
  }

  lemma FieldsWithinBound(h: seq<int>, kept: set<nat>, magnitude: int, gauge: seq<int>)
    requires |gauge| == |h| && FieldOn(h, kept, magnitude, gauge) && 1 <= magnitude <= COEFFICIENT_BOUND
    requires forall v :: 0 <= v < |gauge| ==> IsSign(gauge[v])
    ensures WithinBound(h)
  {
    forall v | 0 <= v < |h| ensures Near(h[v], COEFFICIENT_BOUND) {
      assert IsSign(gauge[v]);
      assert magnitude * gauge[v] == magnitude || magnitude * gauge[v] == -magnitude;
      assert -magnitude * gauge[v] == magnitude || -magnitude * gauge[v] == -magnitude;
    }
  }

  // ---- generation ----

  /** Strong couplings inside the tiles and signed glass outside, then gauged. */
  ghost predicate GlassOf(inst: FieldsInstance, glass: int, draws: seq<nat>, before: seq<int>) {
    && EdgesFit(inst.edges, inst.gauge) && |inst.edges| <= |draws|
    && CouplingsOf(inst.edges, PairMap(inst.tiles), glass, draws, before) && GaugedBy(inst.edges, before, inst.gauge, inst.j)
  }

  /** Fields on the first `n / divisor` of the shuffled eligible nodes, signed in ascending order. */
  ghost predicate FieldsOf(inst: FieldsInstance, n: nat, magnitude: int, divisor: nat, field: nat -> seq<nat>, signs: nat -> nat,
                           eligible: seq<nat>, kept: seq<nat>)
    requires divisor > 0
  {
    && |inst.h| == |inst.gauge| == n
    && Elements(eligible) == EligibleNodes(n, inst.tiles) && Increasing(eligible)
    && KeptFirst(eligible, field(|eligible|), n / divisor, kept)
    && FieldOn(inst.h, Elements(kept), magnitude, inst.gauge)
    && forall k :: 0 <= k < |kept| ==> kept[k] < n && inst.h[kept[k]] == SignOf(signs(k)) * magnitude * inst.gauge[kept[k]]
  }

  /** A drawn instance: gauged glass over a selection, with enough eligible nodes for its fields. */
  ghost predicate IsFields(inst: FieldsInstance, n: nat, glass: int, magnitude: int, divisor: nat, streams: FieldStreams)
    requires divisor > 0
  {
    && inst.gauge == NodeGauge(streams.gauge, n)
    && n / divisor <= |EligibleNodes(n, inst.tiles)|
    && (exists before :: GlassOf(inst, glass, streams.glass, before))
    && exists eligible, kept :: FieldsOf(inst, n, magnitude, divisor, streams.field, streams.fieldSign, eligible, kept)
  }

  lemma InstanceWithinBound(inst: FieldsInstance, n: nat, glass: int, magnitude: int, divisor: nat, streams: FieldStreams)
    requires divisor > 0 && 1 <= glass <= 999 && 1 <= magnitude <= COEFFICIENT_BOUND
    requires IsFields(inst, n, glass, magnitude, divisor, streams)
    ensures WithinBound(inst.h) && WithinBound(inst.j)
  {
    var before :| GlassOf(inst, glass, streams.glass, before);
    GlassWithinBound(inst.edges, inst.tiles, glass, streams.glass, before);
    GaugedWithinBound(inst.edges, before, inst.gauge, inst.j);
    var eligible, kept :| FieldsOf(inst, n, magnitude, divisor, streams.field, streams.fieldSign, eligible, kept);
    FieldsWithinBound(inst.h, Elements(kept), magnitude, inst.gauge);
  }

  /** What one nonce gives on a registered topology. */
  ghost predicate IsOutcome(m: nat, t: nat, glass: int, magnitude: int, divisor: nat, nodes: seq<nat>, nativeEdges: seq<NativeEdge>,
                            streams: FieldStreams, r: Outcome)
    requires Registered(nodes, nativeEdges) && divisor > 0
  {
    match r
    case BadTopology(error) => IsVerdict(m, t, nodes, nativeEdges, Err(error))
    case NoInstance => exists edges, chosen ::
      && SelectionOf(m, t, nodes, nativeEdges, streams.leftOrder, streams.rightOrder, edges, chosen)
      && |EligibleNodes(|nodes|, chosen)| < |nodes| / divisor
    case Drawn(inst) =>
      && IsFields(inst, |nodes|, glass, magnitude, divisor, streams)
      && SelectionOf(m, t, nodes, nativeEdges, streams.leftOrder, streams.rightOrder, inst.edges, inst.tiles)
  }

  /** No pair of a selected tile is missing from the topology, so the check for one never fails. */
  lemma PairsOnGraph(n: nat, es: set<Edge>, found: Structure, edges: seq<Edge>, chosen: seq<Tile>)
    requires SelectedOn(n, es, found, edges, chosen)
    ensures TilePairs(chosen) <= Elements(edges)
  {
    forall t, e | t in chosen && e in TileEdges(t) ensures e in edges {
      var i :| 0 <= i < |chosen| && chosen[i] == t;
      assert e in TileEdgeSet(chosen[i]) && TileEdgeSet(chosen[i]) <= Elements(edges);
    }
  }

  /** Draws an instance over a selection, or reports a shortfall of eligible nodes. */
  method DrawFields(n: nat, ghost es: set<Edge>, ghost found: Structure, edges: seq<Edge>, chosen: seq<Tile>,
                    glass: int, magnitude: int, divisor: nat, streams: FieldStreams) returns (inst: Option<FieldsInstance>)
    requires SelectedOn(n, es, found, edges, chosen) && |edges| <= |streams.glass| && divisor > 0 && Shuffles(streams.field)
    ensures TilePairs(chosen) <= Elements(edges)
    ensures inst.None? ==> |EligibleNodes(n, chosen)| < n / divisor
    ensures inst.Some? ==> inst.value.edges == edges && inst.value.tiles == chosen
    ensures inst.Some? ==> IsFields(inst.value, n, glass, magnitude, divisor, streams)
  {
    PairsOnGraph(n, es, found, edges, chosen);
    var gauge := NodeGauge(streams.gauge, n);
    var before, signs := BuildCouplings(edges, PairMap(chosen), glass, streams.glass);
    var j := ApplyGauge(edges, before, gauge);
    var code, h, eligible, kept := Fields(n, chosen, divisor, magnitude, gauge, streams.field, streams.fieldSign);
    if code == CODE_NO_INSTANCE {
      return None;
    }
    var result := FieldsInstance(edges, h, j, chosen, gauge);
    assert GlassOf(result, glass, streams.glass, before);
    assert FieldsOf(result, n, magnitude, divisor, streams.field, streams.fieldSign, eligible, kept);
    return Some(result);
  }

  /** Every accepted topology gives an instance or a shortfall of eligible nodes; nothing else can fail. */
  method Generate(m: nat, t: nat, glass: int, magnitude: int, divisor: nat, nodes: seq<nat>, nativeEdges: seq<NativeEdge>,
                  streams: FieldStreams) returns (r: Outcome)
    requires Registered(nodes, nativeEdges) && divisor > 0 && 1 <= glass <= 999 && 1 <= magnitude <= COEFFICIENT_BOUND
    requires |nativeEdges| <= |streams.glass|
    requires Shuffles(streams.leftOrder) && Shuffles(streams.rightOrder) && Shuffles(streams.field)
    ensures IsOutcome(m, t, glass, magnitude, divisor, nodes, nativeEdges, streams, r)
    ensures r.Drawn? ==> WithinBound(r.inst.h) && WithinBound(r.inst.j)
  {
    var ready, found := Prepare(m, t, nodes, nativeEdges, streams.leftOrder, streams.rightOrder);
    if ready.Err? {
      return BadTopology(ready.error);
    }
    var (edges, chosen) := ready.value;
    ghost var es := EdgeSet(Dense(nodes, nativeEdges));
    var inst := DrawFields(|nodes|, es, found, edges, chosen, glass, magnitude, divisor, streams);
    if inst.None? {
      return NoInstance;
    }
    InstanceWithinBound(inst.value, |nodes|, glass, magnitude, divisor, streams);
    return Drawn(inst.value);
  }

  // ---- one nonce gives one outcome ----

  lemma FieldsUnique(a: FieldsInstance, b: FieldsInstance, n: nat, magnitude: int, divisor: nat, streams: FieldStreams,
                     eligible: seq<nat>, kept: seq<nat>, eligible': seq<nat>, kept': seq<nat>)
    requires divisor > 0 && Shuffles(streams.field) && a.tiles == b.tiles && a.gauge == b.gauge
    requires FieldsOf(a, n, magnitude, divisor, streams.field, streams.fieldSign, eligible, kept)
    requires FieldsOf(b, n, magnitude, divisor, streams.field, streams.fieldSign, eligible', kept')
    ensures a.h == b.h
  {
    IncreasingUnique(eligible, eligible');
    KeptUnique(eligible, streams.field(|eligible|), n / divisor, kept, kept');
    forall v | 0 <= v < n ensures a.h[v] == b.h[v] {
      if v in kept {
        var k :| 0 <= k < |kept| && kept[k] == v;
      }
    }
  }

  lemma CouplingsUnique(a: FieldsInstance, b: FieldsInstance, glass: int, draws: seq<nat>, before: seq<int>, before': seq<int>)
    requires a.edges == b.edges && a.tiles == b.tiles && a.gauge == b.gauge
    requires GlassOf(a, glass, draws, before) && GlassOf(b, glass, draws, before')
    ensures a.j == b.j
  {
    assert before == before';
  }

  /** The streams and the selection determine the instance. */
  lemma InstanceUnique(a: FieldsInstance, b: FieldsInstance, n: nat, glass: int, magnitude: int, divisor: nat, streams: FieldStreams)
    requires divisor > 0 && Shuffles(streams.field) && a.edges == b.edges && a.tiles == b.tiles
    requires IsFields(a, n, glass, magnitude, divisor, streams) && IsFields(b, n, glass, magnitude, divisor, streams)
    ensures a == b
  {
    var before :| GlassOf(a, glass, streams.glass, before);
    var before' :| GlassOf(b, glass, streams.glass, before');
    CouplingsUnique(a, b, glass, streams.glass, before, before');
    var eligible, kept :| FieldsOf(a, n, magnitude, divisor, streams.field, streams.fieldSign, eligible, kept);
    var eligible', kept' :| FieldsOf(b, n, magnitude, divisor, streams.field, streams.fieldSign, eligible', kept');
    FieldsUnique(a, b, n, magnitude, divisor, streams, eligible, kept, eligible', kept');
  }

  lemma DrawnIsOnly(m: nat, t: nat, glass: int, magnitude: int, divisor: nat, nodes: seq<nat>, nativeEdges: seq<NativeEdge>,
                    streams: FieldStreams, inst: FieldsInstance, r: Outcome)
    requires Registered(nodes, nativeEdges) && divisor > 0 && Shuffles(streams.field) && Shuffles(streams.rightOrder) && !r.BadTopology?
    requires IsOutcome(m, t, glass, magnitude, divisor, nodes, nativeEdges, streams, Drawn(inst))
    requires IsOutcome(m, t, glass, magnitude, divisor, nodes, nativeEdges, streams, r)
    ensures r == Drawn(inst)
  {
    var left, right := streams.leftOrder, streams.rightOrder;
    if r.Drawn? {
      SelectionOfUnique(m, t, nodes, nativeEdges, left, right, inst.edges, inst.tiles, r.inst.edges, r.inst.tiles);
      InstanceUnique(inst, r.inst, |nodes|, glass, magnitude, divisor, streams);
    } else {
      forall edges, chosen | SelectionOf(m, t, nodes, nativeEdges, left, right, edges, chosen)
        ensures edges == inst.edges && chosen == inst.tiles
      {
        SelectionOfUnique(m, t, nodes, nativeEdges, left, right, inst.edges, inst.tiles, edges, chosen);
      }
    }
  }

  /** One topology, one set of parameters, and the streams of one nonce have one outcome. */
  lemma OutcomeUnique(m: nat, t: nat, glass: int, magnitude: int, divisor: nat, nodes: seq<nat>, nativeEdges: seq<NativeEdge>,
                      streams: FieldStreams, r: Outcome, q: Outcome)
    requires Registered(nodes, nativeEdges) && divisor > 0 && Shuffles(streams.field) && Shuffles(streams.rightOrder)
    requires IsOutcome(m, t, glass, magnitude, divisor, nodes, nativeEdges, streams, r)
    requires IsOutcome(m, t, glass, magnitude, divisor, nodes, nativeEdges, streams, q)
    ensures r == q
  {
    var left, right := streams.leftOrder, streams.rightOrder;
    if r.BadTopology? || q.BadTopology? {
      var error := if r.BadTopology? then r.error else q.error;
      forall edges, chosen ensures !SelectionOf(m, t, nodes, nativeEdges, left, right, edges, chosen) {
        RejectedHasNoSelection(m, t, nodes, nativeEdges, left, right, error, edges, chosen);
      }
      assert r.BadTopology? && q.BadTopology?;
      VerdictUnique(m, t, nodes, nativeEdges, Err(r.error), Err(q.error));
    } else if r.Drawn? {
      DrawnIsOnly(m, t, glass, magnitude, divisor, nodes, nativeEdges, streams, r.inst, q);
    } else if q.Drawn? {
      DrawnIsOnly(m, t, glass, magnitude, divisor, nodes, nativeEdges, streams, q.inst, r);
    }
  }

  /** A loop-free request refused with code 12 would give no instance for any nonce. */
  lemma RefusedNeverDraws(m: nat, t: nat, glass: int, magnitude: int, divisor: nat, nodes: seq<nat>, nativeEdges: seq<NativeEdge>,
                          streams: FieldStreams, r: Outcome)
    requires Registered(nodes, nativeEdges) && divisor > 0 && !HasLoop(nativeEdges)
    requires IsAdmission(m, t, divisor, nodes, nativeEdges, Some(CODE_TOPOLOGY_INCOMPATIBLE))
    requires IsOutcome(m, t, glass, magnitude, divisor, nodes, nativeEdges, streams, r)
    ensures !r.Drawn?
  {
    if r.Drawn? {
      var found: Structure :|
        && IsVerdict(m, t, nodes, nativeEdges, Ok(found))
        && SelectedOn(|nodes|, EdgeSet(Dense(nodes, nativeEdges)), found, r.inst.edges, r.inst.tiles)
        && ChosenByShuffles(m, t, nodes, found, streams.leftOrder, streams.rightOrder, r.inst.tiles);
      RefusalIsFinal(m, t, divisor, nodes, nativeEdges, found, r.inst.tiles);
    }
  }
}

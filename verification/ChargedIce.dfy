/** Charged ice: `h`, `J`, and an offset that expand a sum of squared tile penalties. */
module ChargedIce {
  import opened Common
  import opened IceTypes

  const COEFFICIENT_BOUND: int := 1000

  /** Signs of a tile's four nodes, parallel to `TileNodes`. */
  type Gauge = seq<int>

  predicate IsSpins(s: seq<int>) {
    forall i :: 0 <= i < |s| ==> IsSign(s[i])
  }

  predicate IsGauge(g: Gauge) {
    |g| == 4 && IsSpins(g)
  }

  predicate IsCharge(q: int) {
    q == 0 || q == 2 || q == -2
  }

  /** Both draws are always made; the chance decides whether the sign is used. */
  function ChargeOf(chance: nat, sign: nat, chargedPer256: nat): (q: int)
    ensures IsCharge(q) && (q == 0 <==> chance >= chargedPer256) && (q > 0 <==> chance < chargedPer256 && sign == 0)
  {
    if chance >= chargedPer256 then 0 else if sign == 0 then 2 else -2
  }

  function SignOf(draw: nat): (s: int)
    ensures IsSign(s) && (s == 1 <==> draw == 0)
  {
    if draw == 0 then 1 else -1
  }

  datatype Instance = Instance(
    edges: seq<Edge>, h: seq<int>, j: seq<int>, offset: int,
    tiles: seq<Tile>, gauges: seq<Gauge>, charges: seq<int>,
    scale: int, background: int, backgroundSigns: seq<(Edge, int)>)

  // ---- energies ----

  ghost predicate EdgesFit(edges: seq<Edge>, s: seq<int>) {
    forall e :: e in edges ==> e.u < |s| && e.v < |s|
  }

  function FieldSum(h: seq<int>, s: seq<int>): int
    requires |h| == |s|
  {
    if h == [] then 0 else FieldSum(h[..|h| - 1], s[..|s| - 1]) + h[|h| - 1] * s[|s| - 1]
  }

  ghost function CouplingSum(edges: seq<Edge>, j: seq<int>, s: seq<int>): int
    requires |edges| == |j| && EdgesFit(edges, s)
  {
    if edges == [] then 0
    else
      var k := |edges| - 1;
      CouplingSum(edges[..k], j[..k], s) + j[k] * s[edges[k].u] * s[edges[k].v]
  }

  /** A node of every tile is a position, every sign is a sign, and every charge is even. */
  ghost predicate TilesReady(n: nat, tiles: seq<Tile>, gauges: seq<Gauge>, charges: seq<int>) {
    && |tiles| == |gauges| == |charges|
    && forall k :: 0 <= k < |tiles| ==> OrderedTile(tiles[k]) && tiles[k].d < n && IsGauge(gauges[k]) && IsCharge(charges[k])
  }

  ghost predicate Fits(inst: Instance, s: seq<int>) {
    && |inst.h| == |s| && |inst.j| == |inst.edges| && EdgesFit(inst.edges, s)
    && TilesReady(|s|, inst.tiles, inst.gauges, inst.charges)
    && forall p :: p in inst.backgroundSigns ==> p.0.u < |s| && p.0.v < |s|
  }

  /** The energy of `h`, `J`, and the offset. */
  ghost function Encoded(inst: Instance, s: seq<int>): int
    requires Fits(inst, s)
  {
    FieldSum(inst.h, s) + CouplingSum(inst.edges, inst.j, s) + inst.offset
  }

  function TileSum(t: Tile, g: Gauge, s: seq<int>): int
    requires OrderedTile(t) && t.d < |s| && |g| == 4
  {
    g[0] * s[t.a] + g[1] * s[t.b] + g[2] * s[t.c] + g[3] * s[t.d]
  }

  /** Twice the penalty of a tile. */
  function Square(t: Tile, g: Gauge, q: int, scale: int, s: seq<int>): int
    requires OrderedTile(t) && t.d < |s| && |g| == 4
  {
    scale * ((TileSum(t, g, s) - q) * (TileSum(t, g, s) - q))
  }

  ghost function SignedSum(signs: seq<(Edge, int)>, s: seq<int>): int
    requires forall p :: p in signs ==> p.0.u < |s| && p.0.v < |s|
  {
    if signs == [] then 0
    else
      var k := |signs| - 1;
      SignedSum(signs[..k], s) + signs[k].1 * s[signs[k].0.u] * s[signs[k].0.v]
  }

  ghost function PenaltySum(tiles: seq<Tile>, gauges: seq<Gauge>, charges: seq<int>, scale: int, k: nat, s: seq<int>): int
    requires k <= |tiles| && TilesReady(|s|, tiles, gauges, charges)
  {
    if k == 0 then 0
    else PenaltySum(tiles, gauges, charges, scale, k - 1, s) + Square(tiles[k - 1], gauges[k - 1], charges[k - 1], scale, s) / 2
  }

  /** The sum of penalties and background couplings, which reads neither `h`, `J`, nor the offset. */
  ghost function Direct(inst: Instance, s: seq<int>): int
    requires Fits(inst, s)
  {
    PenaltySum(inst.tiles, inst.gauges, inst.charges, inst.scale, |inst.tiles|, s) + inst.background * SignedSum(inst.backgroundSigns, s)
  }

  method EncodedEnergy(inst: Instance, s: seq<int>) returns (total: int)
    requires Fits(inst, s)
    ensures total == Encoded(inst, s)
  {
    total := FieldSum(inst.h, s);
    for k := 0 to |inst.edges|
      invariant total == FieldSum(inst.h, s) + CouplingSum(inst.edges[..k], inst.j[..k], s)
    {
      var e := inst.edges[k];
      assert e in inst.edges;
      assert inst.edges[..k + 1][..k] == inst.edges[..k] && inst.j[..k + 1][..k] == inst.j[..k];
      total := total + inst.j[k] * s[e.u] * s[e.v];
    }
    assert inst.edges[..|inst.edges|] == inst.edges && inst.j[..|inst.j|] == inst.j;
    total := total + inst.offset;
  }

  /** The background couplings, each scaled by the background strength. */
  method SignedTotal(signs: seq<(Edge, int)>, background: int, s: seq<int>) returns (total: int)
    requires forall p :: p in signs ==> p.0.u < |s| && p.0.v < |s|
    ensures total == background * SignedSum(signs, s)
  {
    total := 0;
    for k := 0 to |signs|
      invariant total == background * SignedSum(signs[..k], s)
    {
      var (e, sign) := signs[k];
      assert signs[k] in signs;
      PrefixGrows(signs, k);
      SignedSumPush(signs[..k], e, sign, s);
      Distribute(background, SignedSum(signs[..k], s), sign * s[e.u] * s[e.v]);
      total := total + background * (sign * s[e.u] * s[e.v]);
    }
    assert signs[..|signs|] == signs;
  }

  /** `None` stands for the error the program raises at an odd square. */
  method DirectEnergy(inst: Instance, s: seq<int>) returns (r: Option<int>)
    requires Fits(inst, s) && IsSpins(s)
    ensures r == Some(Direct(inst, s))
  {
    var total := 0;
    for k := 0 to |inst.tiles|
      invariant total == PenaltySum(inst.tiles, inst.gauges, inst.charges, inst.scale, k, s)
    {
      var square := Square(inst.tiles[k], inst.gauges[k], inst.charges[k], inst.scale, s);
      SquareIsEven(inst.tiles[k], inst.gauges[k], inst.charges[k], inst.scale, s);
      if square % 2 != 0 {
        return None;
      }
      total := total + square / 2;
    }
    var background := SignedTotal(inst.backgroundSigns, inst.background, s);
    total := total + background;
    return Some(total);
  }

  lemma Distribute(x: int, y: int, z: int)
    ensures x * (y + z) == x * y + x * z
  {
  }

  // ---- one tile ----

  lemma SignProduct(g: int, s: int)
    requires IsSign(g) && IsSign(s)
    ensures IsSign(g * s)
  {
  }

  function PairSum(x: int, y: int, z: int, w: int): int {
    x * y + x * z + x * w + y * z + y * w + z * w
  }

  lemma SumSquared(x: int, y: int, z: int, w: int)
    requires IsSign(x) && IsSign(y) && IsSign(z) && IsSign(w)
    ensures (x + y + z + w) * (x + y + z + w) == 4 + 2 * PairSum(x, y, z, w)
  {
    assert x * x == 1 && y * y == 1 && z * z == 1 && w * w == 1;
  }

  lemma DifferenceSquared(total: int, q: int)
    ensures (total - q) * (total - q) == total * total - 2 * (q * total) + q * q
  {
  }

  /** Half the square of a sum of four signs less a charge. */
  function HalfSquare(x: int, y: int, z: int, w: int, q: int): int {
    PairSum(x, y, z, w) - q * (x + y + z + w) + (4 + q * q) / 2
  }

  lemma HalfCharge(q: int)
    requires IsCharge(q)
    ensures q * q == 2 * ((4 + q * q) / 2) - 4
  {
    assert q * q == 0 || q * q == 4;
  }

  lemma EvenSquare(x: int, y: int, z: int, w: int, q: int)
    requires IsSign(x) && IsSign(y) && IsSign(z) && IsSign(w) && IsCharge(q)
    ensures (x + y + z + w - q) * (x + y + z + w - q) == 2 * HalfSquare(x, y, z, w, q)
  {
    SumSquared(x, y, z, w);
    DifferenceSquared(x + y + z + w, q);
    HalfCharge(q);
  }

  /** The odd-penalty error cannot arise: a charge is even, and so is a sum of four signs. */
  lemma SquareIsEven(t: Tile, g: Gauge, q: int, scale: int, s: seq<int>)
    requires OrderedTile(t) && t.d < |s| && IsGauge(g) && IsSpins(s) && IsCharge(q)
    ensures Square(t, g, q, scale, s) % 2 == 0
  {
    SignProduct(g[0], s[t.a]);
    SignProduct(g[1], s[t.b]);
    SignProduct(g[2], s[t.c]);
    SignProduct(g[3], s[t.d]);
    EvenSquare(g[0] * s[t.a], g[1] * s[t.b], g[2] * s[t.c], g[3] * s[t.d], q);
    Regroup(scale, HalfSquare(g[0] * s[t.a], g[1] * s[t.b], g[2] * s[t.c], g[3] * s[t.d], q));
  }

  lemma Regroup(scale: int, half: int)
    ensures scale * (2 * half) == 2 * (scale * half)
    ensures scale * (2 * half) % 2 == 0 && scale * (2 * half) / 2 == scale * half
  {
  }

  // ---- building the instance ----

  function AddAt(h: seq<int>, v: nat, x: int): seq<int>
    requires v < |h|
  {
    h[v := h[v] + x]
  }

  function AddFields(h: seq<int>, t: Tile, g: Gauge, q: int, scale: int): (r: seq<int>)
    requires OrderedTile(t) && t.d < |h| && |g| == 4
    ensures |r| == |h|
  {
    AddAt(AddAt(AddAt(AddAt(h, t.a, -scale * q * g[0]), t.b, -scale * q * g[1]), t.c, -scale * q * g[2]), t.d, -scale * q * g[3])
  }

  /** Couplings of the six pairs of a tile, in the order of `TileEdges`. */
  function PairCouplings(g: Gauge, scale: int): seq<int>
    requires |g| == 4
  {
    [scale * g[0] * g[1], scale * g[0] * g[2], scale * g[0] * g[3], scale * g[1] * g[2], scale * g[1] * g[3], scale * g[2] * g[3]]
  }

  function Store(strong: map<Edge, int>, edges: seq<Edge>, values: seq<int>): map<Edge, int>
    requires |edges| == |values|
  {
    if edges == [] then strong
    else Store(strong, edges[..|edges| - 1], values[..|values| - 1])[edges[|edges| - 1] := values[|values| - 1]]
  }

  lemma {:induction false} FieldSumUpdate(h: seq<int>, s: seq<int>, v: nat, x: int)
    requires |h| == |s| && v < |h|
    ensures FieldSum(AddAt(h, v, x), s) == FieldSum(h, s) + x * s[v]
  {
    var k := |h| - 1;
    var r := AddAt(h, v, x);
    if v == k {
      assert r[..k] == h[..k];
      Distribute(s[k], h[k], x);
    } else {
      assert r[..k] == AddAt(h[..k], v, x);
      FieldSumUpdate(h[..k], s[..k], v, x);
    }
  }

  lemma FieldSumFour(h: seq<int>, s: seq<int>, t: Tile, a: int, b: int, c: int, d: int)
    requires |h| == |s| && OrderedTile(t) && t.d < |h|
    ensures FieldSum(AddAt(AddAt(AddAt(AddAt(h, t.a, a), t.b, b), t.c, c), t.d, d), s) ==
      FieldSum(h, s) + a * s[t.a] + b * s[t.b] + c * s[t.c] + d * s[t.d]
  {
    var h1 := AddAt(h, t.a, a);
    var h2 := AddAt(h1, t.b, b);
    var h3 := AddAt(h2, t.c, c);
    FieldSumUpdate(h, s, t.a, a);
    FieldSumUpdate(h1, s, t.b, b);
    FieldSumUpdate(h2, s, t.c, c);
    FieldSumUpdate(h3, s, t.d, d);
  }

  lemma FieldSumTile(h: seq<int>, s: seq<int>, t: Tile, g: Gauge, q: int, scale: int)
    requires |h| == |s| && OrderedTile(t) && t.d < |h| && |g| == 4
    ensures FieldSum(AddFields(h, t, g, q, scale), s) == FieldSum(h, s) - scale * (q * TileSum(t, g, s))
  {
    FieldSumFour(h, s, t, -scale * q * g[0], -scale * q * g[1], -scale * q * g[2], -scale * q * g[3]);
    FourFields(scale, q, g[0], s[t.a], g[1], s[t.b], g[2], s[t.c], g[3], s[t.d]);
  }

  lemma FourFields(scale: int, q: int, a: int, x: int, b: int, y: int, c: int, z: int, d: int, w: int)
    ensures (-scale * q * a) * x + (-scale * q * b) * y + (-scale * q * c) * z + (-scale * q * d) * w ==
            -(scale * (q * (a * x + b * y + c * z + d * w)))
  {
  }

  /** The couplings of the strong edges only. */
  ghost function StrongSum(edges: seq<Edge>, strong: map<Edge, int>, s: seq<int>): int
    requires EdgesFit(edges, s)
  {
    if edges == [] then 0
    else
      var k := |edges| - 1;
      StrongSum(edges[..k], strong, s) + if edges[k] in strong then strong[edges[k]] * s[edges[k].u] * s[edges[k].v] else 0
  }

  lemma {:induction false} StrongSumSame(edges: seq<Edge>, strong: map<Edge, int>, s: seq<int>, e: Edge, v: int)
    requires EdgesFit(edges, s) && e !in edges
    ensures StrongSum(edges, strong[e := v], s) == StrongSum(edges, strong, s)
  {
    if edges != [] {
      StrongSumSame(edges[..|edges| - 1], strong, s, e, v);
    }
  }

  /** One more strong edge adds its term once, because the edge list has no repeats. */
  lemma {:induction false} StrongSumUpdate(edges: seq<Edge>, strong: map<Edge, int>, s: seq<int>, e: Edge, v: int)
    requires EdgesFit(edges, s) && Distinct(edges) && e in edges && e !in strong
    ensures e.u < |s| && e.v < |s|
    ensures StrongSum(edges, strong[e := v], s) == StrongSum(edges, strong, s) + v * s[e.u] * s[e.v]
  {
    var k := |edges| - 1;
    var rest := edges[..k];
    if edges[k] == e {
      assert e !in rest;
      StrongSumSame(rest, strong, s, e, v);
    } else {
      assert e in rest;
      StrongSumUpdate(rest, strong, s, e, v);
    }
  }

  lemma {:induction false} StoreKeys(strong: map<Edge, int>, edges: seq<Edge>, values: seq<int>)
    requires |edges| == |values|
    ensures Store(strong, edges, values).Keys == strong.Keys + Elements(edges)
  {
    if edges != [] {
      var k := |edges| - 1;
      StoreKeys(strong, edges[..k], values[..k]);
      assert edges == edges[..k] + [edges[k]];
    }
  }

  lemma {:induction false} StoreValues(strong: map<Edge, int>, edges: seq<Edge>, values: seq<int>, e: Edge)
    requires |edges| == |values| && Distinct(edges) && (e in edges || e in strong)
    ensures e in Store(strong, edges, values)
    ensures forall p :: 0 <= p < |edges| && edges[p] == e ==> Store(strong, edges, values)[e] == values[p]
    ensures e !in edges ==> Store(strong, edges, values)[e] == strong[e]
  {
    if edges != [] {
      var k := |edges| - 1;
      SplitLast(edges);
      if edges[k] != e {
        StoreValues(strong, edges[..k], values[..k], e);
      }
    }
  }

  lemma {:induction false} StrongSumStore(all: seq<Edge>, strong: map<Edge, int>, s: seq<int>, edges: seq<Edge>, values: seq<int>)
    requires |edges| == |values| && EdgesFit(all, s) && Distinct(all) && Distinct(edges)
    requires Elements(edges) <= Elements(all) - strong.Keys
    ensures EdgesFit(edges, s)
    ensures StrongSum(all, Store(strong, edges, values), s) == StrongSum(all, strong, s) + CouplingSum(edges, values, s)
  {
    if edges != [] {
      var k := |edges| - 1;
      assert edges[k] in Elements(edges);
      StrongSumStore(all, strong, s, edges[..k], values[..k]);
      StoreKeys(strong, edges[..k], values[..k]);
      assert edges[k] !in edges[..k];
      StrongSumUpdate(all, Store(strong, edges[..k], values[..k]), s, edges[k], values[k]);
    }
  }

  ghost function SumOf(p: seq<int>): int {
    if p == [] then 0 else SumOf(p[..|p| - 1]) + p[|p| - 1]
  }

  /** A coupling sum from the values of its terms. */
  lemma {:induction false} CouplingTerms(e: seq<Edge>, v: seq<int>, p: seq<int>, s: seq<int>)
    requires |e| == |v| == |p| && EdgesFit(e, s)
    requires forall k :: 0 <= k < |e| ==> e[k].u < |s| && e[k].v < |s| && v[k] * s[e[k].u] * s[e[k].v] == p[k]
    ensures CouplingSum(e, v, s) == SumOf(p)
  {
    if e != [] {
      var k := |e| - 1;
      CouplingTerms(e[..k], v[..k], p[..k], s);
    }
  }

  lemma SumOfSix(a: int, b: int, c: int, d: int, e: int, f: int)
    ensures SumOf([a, b, c, d, e, f]) == a + b + c + d + e + f
  {
    SumOfPush([], a);
    SumOfPush([a], b);
    SumOfPush([a, b], c);
    SumOfPush([a, b, c], d);
    SumOfPush([a, b, c, d], e);
    SumOfPush([a, b, c, d, e], f);
    assert [] + [a] == [a] && [a] + [b] == [a, b] && [a, b] + [c] == [a, b, c] && [a, b, c] + [d] == [a, b, c, d];
    assert [a, b, c, d] + [e] == [a, b, c, d, e] && [a, b, c, d, e] + [f] == [a, b, c, d, e, f];
  }

  lemma SumOfPush(p: seq<int>, x: int)
    ensures SumOf(p + [x]) == SumOf(p) + x
  {
    assert (p + [x])[..|p|] == p;
  }

  lemma SpreadSix(scale: int, a: int, b: int, c: int, d: int, e: int, f: int)
    ensures scale * a + scale * b + scale * c + scale * d + scale * e + scale * f == scale * (a + b + c + d + e + f)
  {
  }

  lemma TileCouplings(t: Tile, g: Gauge, scale: int, s: seq<int>, x: int, y: int, z: int, w: int)
    requires OrderedTile(t) && t.d < |s| && |g| == 4
    requires x == g[0] * s[t.a] && y == g[1] * s[t.b] && z == g[2] * s[t.c] && w == g[3] * s[t.d]
    ensures EdgesFit(TileEdges(t), s) && Distinct(TileEdges(t))
    ensures CouplingSum(TileEdges(t), PairCouplings(g, scale), s) == scale * PairSum(x, y, z, w)
  {
    var p := [scale * (x * y), scale * (x * z), scale * (x * w), scale * (y * z), scale * (y * w), scale * (z * w)];
    TileTerms(t, g, scale, s, x, y, z, w);
    CouplingTerms(TileEdges(t), PairCouplings(g, scale), p, s);
    SumOfSix(scale * (x * y), scale * (x * z), scale * (x * w), scale * (y * z), scale * (y * w), scale * (z * w));
    SpreadSix(scale, x * y, x * z, x * w, y * z, y * w, z * w);
  }

  lemma TileTerms(t: Tile, g: Gauge, scale: int, s: seq<int>, x: int, y: int, z: int, w: int)
    requires OrderedTile(t) && t.d < |s| && |g| == 4
    requires x == g[0] * s[t.a] && y == g[1] * s[t.b] && z == g[2] * s[t.c] && w == g[3] * s[t.d]
    ensures var e, v := TileEdges(t), PairCouplings(g, scale);
      var p := [scale * (x * y), scale * (x * z), scale * (x * w), scale * (y * z), scale * (y * w), scale * (z * w)];
      forall k :: 0 <= k < 6 ==> e[k].u < |s| && e[k].v < |s| && v[k] * s[e[k].u] * s[e[k].v] == p[k]
  {
    Pairwise(scale, g[0], s[t.a], g[1], s[t.b]);
    Pairwise(scale, g[0], s[t.a], g[2], s[t.c]);
    Pairwise(scale, g[0], s[t.a], g[3], s[t.d]);
    Pairwise(scale, g[1], s[t.b], g[2], s[t.c]);
    Pairwise(scale, g[1], s[t.b], g[3], s[t.d]);
    Pairwise(scale, g[2], s[t.c], g[3], s[t.d]);
  }

  lemma Pairwise(scale: int, g: int, x: int, f: int, y: int)
    ensures (scale * g * f) * x * y == scale * ((g * x) * (f * y))
  {
  }

  // ---- all tiles ----

  ghost function FieldsAfter(n: nat, tiles: seq<Tile>, gauges: seq<Gauge>, charges: seq<int>, scale: int, k: nat): (h: seq<int>)
    requires k <= |tiles| && TilesReady(n, tiles, gauges, charges)
    ensures |h| == n
  {
    if k == 0 then seq(n, _ => 0)
    else AddFields(FieldsAfter(n, tiles, gauges, charges, scale, k - 1), tiles[k - 1], gauges[k - 1], charges[k - 1], scale)
  }

  ghost function StrongAfter(n: nat, tiles: seq<Tile>, gauges: seq<Gauge>, charges: seq<int>, scale: int, k: nat): map<Edge, int>
    requires k <= |tiles| && TilesReady(n, tiles, gauges, charges)
  {
    if k == 0 then map[]
    else Store(StrongAfter(n, tiles, gauges, charges, scale, k - 1), TileEdges(tiles[k - 1]), PairCouplings(gauges[k - 1], scale))
  }

  function TileOffset(q: int, scale: int): int {
    scale * (4 + q * q) / 2
  }

  ghost function OffsetAfter(charges: seq<int>, scale: int, k: nat): int
    requires k <= |charges|
  {
    if k == 0 then 0 else OffsetAfter(charges, scale, k - 1) + TileOffset(charges[k - 1], scale)
  }

  lemma {:induction false} StrongAfterKeys(n: nat, tiles: seq<Tile>, gauges: seq<Gauge>, charges: seq<int>, scale: int, k: nat, e: Edge)
    requires k <= |tiles| && TilesReady(n, tiles, gauges, charges)
    ensures e in StrongAfter(n, tiles, gauges, charges, scale, k) <==> exists i :: 0 <= i < k && e in TileEdgeSet(tiles[i])
  {
    if k > 0 {
      StrongAfterKeys(n, tiles, gauges, charges, scale, k - 1, e);
      StoreKeys(StrongAfter(n, tiles, gauges, charges, scale, k - 1), TileEdges(tiles[k - 1]), PairCouplings(gauges[k - 1], scale));
    }
  }

  /** Where tiles share no edge, every pair of tile `i` keeps the coupling its gauge gives it. */
  lemma {:induction false} StrongAfterValues(edges: seq<Edge>, n: nat, tiles: seq<Tile>, gauges: seq<Gauge>, charges: seq<int>,
                                             scale: int, k: nat, i: nat, p: nat)
    requires i < k <= |tiles| && p < 6 && TilesReady(n, tiles, gauges, charges) && EdgeDisjoint(edges, tiles)
    ensures TileEdges(tiles[i])[p] in StrongAfter(n, tiles, gauges, charges, scale, k)
    ensures StrongAfter(n, tiles, gauges, charges, scale, k)[TileEdges(tiles[i])[p]] == PairCouplings(gauges[i], scale)[p]
  {
    var e := TileEdges(tiles[i])[p];
    var before := StrongAfter(n, tiles, gauges, charges, scale, k - 1);
    assert e in TileEdgeSet(tiles[i]);
    if i < k - 1 {
      StrongAfterValues(edges, n, tiles, gauges, charges, scale, k - 1, i, p);
      assert e !in TileEdgeSet(tiles[k - 1]);
    }
    StoreValues(before, TileEdges(tiles[k - 1]), PairCouplings(gauges[k - 1], scale), e);
  }

  ghost function TileEdgeSet(t: Tile): set<Edge> {
    Elements(TileEdges(t))
  }

  /** Tiles over the edge list, no two of them sharing an edge. */
  ghost predicate EdgeDisjoint(edges: seq<Edge>, tiles: seq<Tile>) {
    && (forall i :: 0 <= i < |tiles| ==> TileEdgeSet(tiles[i]) <= Elements(edges))
    && forall i, j :: 0 <= i < j < |tiles| ==> TileEdgeSet(tiles[i]) !! TileEdgeSet(tiles[j])
  }

  lemma OneTileExpands(t: Tile, g: Gauge, q: int, scale: int, s: seq<int>, x: int, y: int, z: int, w: int)
    requires OrderedTile(t) && t.d < |s| && IsGauge(g) && IsSpins(s) && IsCharge(q)
    requires x == g[0] * s[t.a] && y == g[1] * s[t.b] && z == g[2] * s[t.c] && w == g[3] * s[t.d]
    ensures Square(t, g, q, scale, s) / 2 ==
      scale * PairSum(x, y, z, w) - scale * (q * TileSum(t, g, s)) + scale * (4 + q * q) / 2
  {
    SignProduct(g[0], s[t.a]);
    SignProduct(g[1], s[t.b]);
    SignProduct(g[2], s[t.c]);
    SignProduct(g[3], s[t.d]);
    assert TileSum(t, g, s) == x + y + z + w;
    HalfExpands(scale, x, y, z, w, q);
  }

  lemma HalfExpands(scale: int, x: int, y: int, z: int, w: int, q: int)
    requires IsSign(x) && IsSign(y) && IsSign(z) && IsSign(w) && IsCharge(q)
    ensures var total := x + y + z + w;
      scale * ((total - q) * (total - q)) / 2 == scale * PairSum(x, y, z, w) - scale * (q * total) + scale * (4 + q * q) / 2
  {
    EvenSquare(x, y, z, w, q);
    Regroup(scale, HalfSquare(x, y, z, w, q));
    SpreadScale(scale, PairSum(x, y, z, w), q * (x + y + z + w), q);
  }

  lemma SpreadScale(scale: int, p: int, r: int, q: int)
    requires IsCharge(q)
    ensures scale * (p - r + (4 + q * q) / 2) == scale * p - scale * r + scale * (4 + q * q) / 2
  {
    var half := (4 + q * q) / 2;
    assert 4 + q * q == 2 * half;
    Regroup(scale, half);
  }

  ghost predicate Expanded(edges: seq<Edge>, tiles: seq<Tile>, gauges: seq<Gauge>, charges: seq<int>, scale: int, k: nat, s: seq<int>)
    requires k <= |tiles| && TilesReady(|s|, tiles, gauges, charges) && EdgesFit(edges, s)
  {
    FieldSum(FieldsAfter(|s|, tiles, gauges, charges, scale, k), s) +
    StrongSum(edges, StrongAfter(|s|, tiles, gauges, charges, scale, k), s) +
    OffsetAfter(charges, scale, k) == PenaltySum(tiles, gauges, charges, scale, k, s)
  }

  /** After any number of tiles, fields, strong couplings, and offset add up to the penalties. */
  lemma {:induction false} TilesExpand(edges: seq<Edge>, tiles: seq<Tile>, gauges: seq<Gauge>, charges: seq<int>,
                                       scale: int, k: nat, s: seq<int>)
    requires k <= |tiles| && TilesReady(|s|, tiles, gauges, charges) && IsSpins(s)
    requires EdgesFit(edges, s) && Distinct(edges) && EdgeDisjoint(edges, tiles)
    ensures Expanded(edges, tiles, gauges, charges, scale, k, s)
  {
    if k == 0 {
      ZeroFields(s);
      NothingStrong(edges, s);
    } else {
      TilesExpand(edges, tiles, gauges, charges, scale, k - 1, s);
      NewEdges(edges, tiles, gauges, charges, scale, k, |s|);
      ExpandNext(edges, tiles, gauges, charges, scale, k, s);
    }
  }

  /** The edges of a tile are still free when its turn comes. */
  lemma NewEdges(edges: seq<Edge>, tiles: seq<Tile>, gauges: seq<Gauge>, charges: seq<int>, scale: int, k: nat, n: nat)
    requires 0 < k <= |tiles| && TilesReady(n, tiles, gauges, charges) && EdgeDisjoint(edges, tiles)
    ensures TileEdgeSet(tiles[k - 1]) <= Elements(edges) - StrongAfter(n, tiles, gauges, charges, scale, k - 1).Keys
  {
    var strong := StrongAfter(n, tiles, gauges, charges, scale, k - 1);
    forall e | e in strong ensures e !in TileEdgeSet(tiles[k - 1]) {
      StrongAfterKeys(n, tiles, gauges, charges, scale, k - 1, e);
      var i :| 0 <= i < k - 1 && e in TileEdgeSet(tiles[i]);
    }
  }

  lemma ExpandNext(edges: seq<Edge>, tiles: seq<Tile>, gauges: seq<Gauge>, charges: seq<int>, scale: int, k: nat, s: seq<int>)
    requires 0 < k <= |tiles| && TilesReady(|s|, tiles, gauges, charges) && IsSpins(s)
    requires EdgesFit(edges, s) && Distinct(edges)
    requires TileEdgeSet(tiles[k - 1]) <= Elements(edges) - StrongAfter(|s|, tiles, gauges, charges, scale, k - 1).Keys
    requires Expanded(edges, tiles, gauges, charges, scale, k - 1, s)
    ensures Expanded(edges, tiles, gauges, charges, scale, k, s)
  {
    TileStep(edges, FieldsAfter(|s|, tiles, gauges, charges, scale, k - 1), StrongAfter(|s|, tiles, gauges, charges, scale, k - 1),
             tiles[k - 1], gauges[k - 1], charges[k - 1], scale, s);
  }

  /** One tile adds its penalty to fields, strong couplings, and offset together. */
  lemma TileStep(edges: seq<Edge>, h: seq<int>, strong: map<Edge, int>, t: Tile, g: Gauge, q: int, scale: int, s: seq<int>)
    requires |h| == |s| && OrderedTile(t) && t.d < |s| && IsGauge(g) && IsCharge(q) && IsSpins(s)
    requires EdgesFit(edges, s) && Distinct(edges) && TileEdgeSet(t) <= Elements(edges) - strong.Keys
    ensures FieldSum(AddFields(h, t, g, q, scale), s) +
            StrongSum(edges, Store(strong, TileEdges(t), PairCouplings(g, scale)), s) + TileOffset(q, scale) ==
            FieldSum(h, s) + StrongSum(edges, strong, s) + Square(t, g, q, scale, s) / 2
  {
    var x, y, z, w := g[0] * s[t.a], g[1] * s[t.b], g[2] * s[t.c], g[3] * s[t.d];
    FieldSumTile(h, s, t, g, q, scale);
    TileCouplings(t, g, scale, s, x, y, z, w);
    StrongSumStore(edges, strong, s, TileEdges(t), PairCouplings(g, scale));
    OneTileExpands(t, g, q, scale, s, x, y, z, w);
  }

  lemma {:induction false} ZeroFields(s: seq<int>)
    ensures FieldSum(seq(|s|, _ => 0), s) == 0
  {
    if s != [] {
      ZeroFields(s[..|s| - 1]);
      assert seq(|s|, _ => 0)[..|s| - 1] == seq(|s| - 1, _ => 0);
    }
  }

  lemma {:induction false} NothingStrong(edges: seq<Edge>, s: seq<int>)
    requires EdgesFit(edges, s)
    ensures StrongSum(edges, map[], s) == 0
  {
    if edges != [] {
      NothingStrong(edges[..|edges| - 1], s);
    }
  }

  // ---- background couplings and the whole instance ----

  /** Every edge outside the tiles draws one sign, in edge order. */
  ghost function BackgroundSigns(edges: seq<Edge>, strong: map<Edge, int>, draws: seq<nat>): (signs: seq<(Edge, int)>)
    requires |edges| <= |draws|
    ensures |signs| <= |edges|
    ensures forall p :: p in signs ==> p.0 in edges
  {
    if edges == [] then []
    else
      var k := |edges| - 1;
      var rest := BackgroundSigns(edges[..k], strong, draws);
      if edges[k] in strong then rest else rest + [(edges[k], SignOf(draws[|rest|]))]
  }

  /** The coupling of edge `k`: the stored value on a tile edge, the signed background elsewhere. */
  ghost function CouplingAt(edges: seq<Edge>, strong: map<Edge, int>, background: int, draws: seq<nat>, k: nat): int
    requires k < |edges| <= |draws|
  {
    if edges[k] in strong then strong[edges[k]]
    else SignOf(draws[|BackgroundSigns(edges[..k], strong, draws)|]) * background
  }

  lemma CouplingAtPrefix(edges: seq<Edge>, strong: map<Edge, int>, background: int, draws: seq<nat>, m: nat, k: nat)
    requires k < m <= |edges| <= |draws|
    ensures CouplingAt(edges[..m], strong, background, draws, k) == CouplingAt(edges, strong, background, draws, k)
  {
    assert edges[..m][..k] == edges[..k];
  }

  lemma SignedSumPush(signs: seq<(Edge, int)>, e: Edge, sign: int, s: seq<int>)
    requires e.u < |s| && e.v < |s| && forall p :: p in signs ==> p.0.u < |s| && p.0.v < |s|
    ensures SignedSum(signs + [(e, sign)], s) == SignedSum(signs, s) + sign * s[e.u] * s[e.v]
  {
    assert (signs + [(e, sign)])[..|signs|] == signs;
  }

  lemma ScaledTerm(b: int, sign: int, x: int, y: int)
    ensures (sign * b) * x * y == b * (sign * x * y)
  {
  }

  ghost predicate CouplingsOf(edges: seq<Edge>, strong: map<Edge, int>, background: int, draws: seq<nat>, j: seq<int>)
    requires |edges| <= |draws|
  {
    |j| == |edges| && forall k :: 0 <= k < |edges| ==> j[k] == CouplingAt(edges, strong, background, draws, k)
  }

  /** Couplings add up to the strong couplings plus the signed background. */
  lemma {:induction false} CouplingsSplit(edges: seq<Edge>, strong: map<Edge, int>, background: int, draws: seq<nat>,
                                          j: seq<int>, s: seq<int>)
    requires EdgesFit(edges, s) && |edges| <= |draws| && CouplingsOf(edges, strong, background, draws, j)
    ensures CouplingSum(edges, j, s) ==
      StrongSum(edges, strong, s) + background * SignedSum(BackgroundSigns(edges, strong, draws), s)
  {
    if edges != [] {
      var k := |edges| - 1;
      forall i | 0 <= i < k ensures CouplingAt(edges[..k], strong, background, draws, i) == j[..k][i] {
        CouplingAtPrefix(edges, strong, background, draws, k, i);
      }
      CouplingsSplit(edges[..k], strong, background, draws, j[..k], s);
      assert edges[k] in edges;
      if edges[k] !in strong {
        BackgroundTerm(BackgroundSigns(edges[..k], strong, draws), edges[k], SignOf(draws[|BackgroundSigns(edges[..k], strong, draws)|]),
                       background, s);
      }
    }
  }

  lemma BackgroundTerm(rest: seq<(Edge, int)>, e: Edge, sign: int, background: int, s: seq<int>)
    requires e.u < |s| && e.v < |s| && forall p :: p in rest ==> p.0.u < |s| && p.0.v < |s|
    ensures background * SignedSum(rest + [(e, sign)], s) == background * SignedSum(rest, s) + (sign * background) * s[e.u] * s[e.v]
  {
    SignedSumPush(rest, e, sign, s);
    ScaledTerm(background, sign, s[e.u], s[e.v]);
    Distribute(background, SignedSum(rest, s), sign * s[e.u] * s[e.v]);
  }

  lemma BackgroundStep(edges: seq<Edge>, strong: map<Edge, int>, draws: seq<nat>, k: nat)
    requires k < |edges| <= |draws|
    ensures var rest := BackgroundSigns(edges[..k], strong, draws);
            BackgroundSigns(edges[..k + 1], strong, draws) ==
              if edges[k] in strong then rest else rest + [(edges[k], SignOf(draws[|rest|]))]
  {
    assert edges[..k + 1][..k] == edges[..k];
  }

  ghost predicate CouplingsUpto(edges: seq<Edge>, strong: map<Edge, int>, background: int, draws: seq<nat>, j: seq<int>)
    requires |edges| <= |draws|
  {
    |j| <= |edges| && forall i :: 0 <= i < |j| ==> j[i] == CouplingAt(edges, strong, background, draws, i)
  }

  lemma CouplingPush(edges: seq<Edge>, strong: map<Edge, int>, background: int, draws: seq<nat>, j: seq<int>, c: int)
    requires |j| < |edges| <= |draws| && CouplingsUpto(edges, strong, background, draws, j)
    requires c == CouplingAt(edges, strong, background, draws, |j|)
    ensures CouplingsUpto(edges, strong, background, draws, j + [c])
  {
  }

  method BuildCouplings(edges: seq<Edge>, strong: map<Edge, int>, background: int, draws: seq<nat>)
    returns (j: seq<int>, signs: seq<(Edge, int)>)
    requires |edges| <= |draws|
    ensures CouplingsOf(edges, strong, background, draws, j)
    ensures signs == BackgroundSigns(edges, strong, draws)
  {
    j, signs := [], [];
    for k := 0 to |edges|
      invariant |j| == k && signs == BackgroundSigns(edges[..k], strong, draws)
      invariant CouplingsUpto(edges, strong, background, draws, j) == true
    {
      BackgroundStep(edges, strong, draws, k);
      var c;
      if edges[k] in strong {
        c := strong[edges[k]];
      } else {
        var sign := SignOf(draws[|signs|]);
        signs := signs + [(edges[k], sign)];
        c := sign * background;
      }
      CouplingPush(edges, strong, background, draws, j, c);
      j := j + [c];
    }
    assert edges[..|edges|] == edges;
  }

  method OnGraph(edges: seq<Edge>, t: Tile) returns (ok: bool)
    ensures ok <==> TileEdgeSet(t) <= Elements(edges)
  {
    var row := TileEdges(t);
    for i := 0 to 6
      invariant forall k :: 0 <= k < i ==> row[k] in edges
    {
      if row[i] !in edges {
        assert row[i] in TileEdgeSet(t) && row[i] !in Elements(edges);
        return false;
      }
    }
    return true;
  }

  /** Fields, strong couplings, and offset after the first `k` tiles. */
  ghost predicate TilesDone(n: nat, tiles: seq<Tile>, gauges: seq<Gauge>, charges: seq<int>, scale: int, k: nat,
                            h: seq<int>, strong: map<Edge, int>, offset: int)
    requires k <= |tiles| && TilesReady(n, tiles, gauges, charges)
  {
    && h == FieldsAfter(n, tiles, gauges, charges, scale, k)
    && strong == StrongAfter(n, tiles, gauges, charges, scale, k)
    && offset == OffsetAfter(charges, scale, k)
  }

  lemma TileDone(n: nat, tiles: seq<Tile>, gauges: seq<Gauge>, charges: seq<int>, scale: int, k: nat,
                 h: seq<int>, strong: map<Edge, int>, offset: int)
    requires k < |tiles| && TilesReady(n, tiles, gauges, charges)
    requires TilesDone(n, tiles, gauges, charges, scale, k, h, strong, offset)
    ensures TilesDone(n, tiles, gauges, charges, scale, k + 1,
                      AddFields(h, tiles[k], gauges[k], charges[k], scale),
                      Store(strong, TileEdges(tiles[k]), PairCouplings(gauges[k], scale)),
                      offset + TileOffset(charges[k], scale))
  {
  }

  method BuildTiles(n: nat, edges: seq<Edge>, tiles: seq<Tile>, gauges: seq<Gauge>, charges: seq<int>, scale: int)
    returns (ok: bool, h: seq<int>, strong: map<Edge, int>, offset: int)
    requires TilesReady(n, tiles, gauges, charges)
    ensures ok <==> forall i :: 0 <= i < |tiles| ==> TileEdgeSet(tiles[i]) <= Elements(edges)
    ensures ok ==> TilesDone(n, tiles, gauges, charges, scale, |tiles|, h, strong, offset)
  {
    ok, h, strong, offset := true, seq(n, _ => 0), map[], 0;
    for k := 0 to |tiles|
      invariant forall i :: 0 <= i < k ==> TileEdgeSet(tiles[i]) <= Elements(edges)
      invariant ok && TilesDone(n, tiles, gauges, charges, scale, k, h, strong, offset)
    {
      ok := OnGraph(edges, tiles[k]);
      if !ok {
        return;
      }
      TileDone(n, tiles, gauges, charges, scale, k, h, strong, offset);
      strong := Store(strong, TileEdges(tiles[k]), PairCouplings(gauges[k], scale));
      h := AddFields(h, tiles[k], gauges[k], charges[k], scale);
      offset := offset + TileOffset(charges[k], scale);
    }
  }

  ghost function StrongOf(inst: Instance, n: nat): map<Edge, int>
    requires TilesReady(n, inst.tiles, inst.gauges, inst.charges)
  {
    StrongAfter(n, inst.tiles, inst.gauges, inst.charges, inst.scale, |inst.tiles|)
  }

  /** The fields, couplings, signs, and offset are those that the tiles and the draws determine. */
  ghost predicate Expands(inst: Instance, n: nat, draws: seq<nat>) {
    && TilesReady(n, inst.tiles, inst.gauges, inst.charges)
    && |inst.edges| <= |draws| && Distinct(inst.edges) && (forall e :: e in inst.edges ==> e.u < n && e.v < n)
    && inst.h == FieldsAfter(n, inst.tiles, inst.gauges, inst.charges, inst.scale, |inst.tiles|)
    && inst.backgroundSigns == BackgroundSigns(inst.edges, StrongOf(inst, n), draws)
    && CouplingsOf(inst.edges, StrongOf(inst, n), inst.background, draws, inst.j)
    && inst.offset == OffsetAfter(inst.charges, inst.scale, |inst.tiles|)
  }

  /** The instance, or `None` where the program raises because a tile pair is not an edge. */
  method Build(n: nat, edges: seq<Edge>, tiles: seq<Tile>, gauges: seq<Gauge>, charges: seq<int>,
               scale: int, background: int, draws: seq<nat>) returns (r: Option<Instance>)
    requires TilesReady(n, tiles, gauges, charges) && |edges| <= |draws| && Distinct(edges)
    requires forall e :: e in edges ==> e.u < n && e.v < n
    ensures r.Some? <==> forall i :: 0 <= i < |tiles| ==> TileEdgeSet(tiles[i]) <= Elements(edges)
    ensures r.Some? ==> r.value.edges == edges && r.value.tiles == tiles && r.value.gauges == gauges && r.value.charges == charges
    ensures r.Some? ==> r.value.scale == scale && r.value.background == background
    ensures r.Some? ==> Expands(r.value, n, draws)
  {
    var ok, h, strong, offset := BuildTiles(n, edges, tiles, gauges, charges, scale);
    if !ok {
      return None;
    }
    var j, signs := BuildCouplings(edges, strong, background, draws);
    return Some(Instance(edges, h, j, offset, tiles, gauges, charges, scale, background, signs));
  }

  /** A built instance over tiles that share no edge. */
  ghost predicate Built(inst: Instance, n: nat, draws: seq<nat>) {
    Expands(inst, n, draws) && EdgeDisjoint(inst.edges, inst.tiles)
  }

  /** For every spin state the expansion and the sum of penalties agree. */
  lemma EnergyIdentity(inst: Instance, draws: seq<nat>, s: seq<int>)
    requires Built(inst, |s|, draws) && IsSpins(s)
    ensures Fits(inst, s) && Encoded(inst, s) == Direct(inst, s)
  {
    TilesExpand(inst.edges, inst.tiles, inst.gauges, inst.charges, inst.scale, |inst.tiles|, s);
    CouplingsSplit(inst.edges, StrongOf(inst, |s|), inst.background, draws, inst.j, s);
  }
}

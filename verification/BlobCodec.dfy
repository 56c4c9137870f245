/** The loops that write, check, and read a topology payload. */
module BlobCodec {
  import opened Blob
  import opened BlobItems
  import opened BlobLists
  import opened Common
  import opened Machine
  import opened Varint
  import Zephyr

  // ---- the lattice rules ----

  ghost predicate LinkSorted(edges: seq<Link>) {
    && (forall i :: 0 <= i < |edges| ==> edges[i].a < edges[i].b)
    && (forall i, j :: 0 <= i < j < |edges| ==> PairBelow(edges[i], edges[j]))
  }

  ghost predicate NodesKeepRules(lat: Lattice, m: nat, t: nat, nodes: seq<u32>) {
    && (forall i, j :: 0 <= i < j < |nodes| ==> nodes[i] < nodes[j])
    && (forall i :: 0 <= i < |nodes| ==> lat.hasNode(m, t, nodes[i]))
  }

  ghost predicate EdgesKeepRules(lat: Lattice, m: nat, t: nat, gone: seq<u32>, edges: seq<Link>) {
    LinkSorted(edges) && forall i :: 0 <= i < |edges| ==> EdgeInLattice(lat, m, t, gone, edges[i])
  }

  predicate EdgeInLattice(lat: Lattice, m: nat, t: nat, gone: seq<u32>, e: Link) {
    e.a !in gone && e.b !in gone && lat.hasCoupler(m, t, e.a, e.b)
  }

  lemma {:induction false} NodeFaultMeaning(lat: Lattice, m: nat, t: nat, prev: Option<u32>, nodes: seq<u32>)
    ensures NodeFault(lat, m, t, prev, nodes).None? <==>
            NodesKeepRules(lat, m, t, nodes) && (nodes != [] && prev.Some? ==> prev.value < nodes[0])
    decreases nodes
  {
    if nodes != [] {
      var rest := nodes[1..];
      NodeFaultMeaning(lat, m, t, Some(nodes[0]), rest);
      assert forall i :: 0 < i < |nodes| ==> nodes[i] == rest[i - 1];
      assert forall i :: 0 <= i < |rest| ==> rest[i] == nodes[i + 1];
    }
  }

  lemma {:induction false} EdgeFaultMeaning(lat: Lattice, m: nat, t: nat, gone: seq<u32>, prev: Option<Link>, edges: seq<Link>)
    ensures EdgeFault(lat, m, t, gone, prev, edges).None? <==>
            EdgesKeepRules(lat, m, t, gone, edges) && (edges != [] && prev.Some? ==> PairBelow(prev.value, edges[0]))
    decreases edges
  {
    if edges != [] {
      var rest := edges[1..];
      EdgeFaultMeaning(lat, m, t, gone, Some(edges[0]), rest);
      assert forall i :: 0 < i < |edges| ==> edges[i] == rest[i - 1];
      assert forall i :: 0 <= i < |rest| ==> rest[i] == edges[i + 1];
    }
  }

  /** Removals pass exactly when the sizes fit and both lists ascend strictly inside the lattice. */
  lemma RulesAreExact(lat: Lattice, m: nat, t: nat, nodes: seq<u32>, edges: seq<Link>)
    ensures Fault(lat, m, t, nodes, edges).None? <==>
            SizesFit(m, t) && NodesKeepRules(lat, m, t, nodes) && EdgesKeepRules(lat, m, t, nodes, edges)
  {
    NodeFaultMeaning(lat, m, t, None, nodes);
    EdgeFaultMeaning(lat, m, t, nodes, None, edges);
  }

  /** Under the coordinate formulas, what passes lies in the lattice and no removed coupler touches a removed node. */
  lemma RemovalsLieInLattice(body: Body)
    requires body.ZephyrRemoved? && BodyFault(ZephyrLattice(), body).None?
    ensures forall i :: 0 <= i < |body.removedNodes| ==> body.removedNodes[i] < Zephyr.NodeCount(body.m, body.t)
    ensures forall i :: 0 <= i < |body.removedEdges| ==>
      && Zephyr.LatticeCoupler(body.m, body.t, body.removedEdges[i].a, body.removedEdges[i].b)
      && body.removedEdges[i].a !in body.removedNodes && body.removedEdges[i].b !in body.removedNodes
  {
    var lat := ZephyrLattice();
    RulesAreExact(lat, body.m, body.t, body.removedNodes, body.removedEdges);
    forall i | 0 <= i < |body.removedNodes|
      ensures body.removedNodes[i] < Zephyr.NodeCount(body.m, body.t)
    {
      assert lat.hasNode(body.m, body.t, body.removedNodes[i]);
    }
    forall i | 0 <= i < |body.removedEdges|
      ensures EdgeInLattice(lat, body.m, body.t, body.removedNodes, body.removedEdges[i])
    {
    }
  }

  method ValidateZephyr(lat: Lattice, m: nat, t: nat, nodes: seq<u32>, edges: seq<Link>) returns (fault: Option<BlobError>)
    ensures fault == Fault(lat, m, t, nodes, edges)
  {
    if !SizesFit(m, t) {
      return Some(Range);
    }
    var previous: Option<u32> := None;
    for k := 0 to |nodes|
      invariant NodeFault(lat, m, t, None, nodes) == NodeFault(lat, m, t, previous, nodes[k..])
    {
      if previous.Some? && nodes[k] <= previous.value {
        return Some(Order);
      }
      previous := Some(nodes[k]);
      if !lat.hasNode(m, t, nodes[k]) {
        return Some(NotLattice);
      }
      assert nodes[k..][1..] == nodes[k + 1..];
    }
    var before: Option<Link> := None;
    for k := 0 to |edges|
      invariant EdgeFault(lat, m, t, nodes, None, edges) == EdgeFault(lat, m, t, nodes, before, edges[k..])
    {
      var e := edges[k];
      if e.a >= e.b || (before.Some? && !PairBelow(before.value, e)) {
        return Some(Order);
      }
      before := Some(e);
      if e.a in nodes || e.b in nodes || !lat.hasCoupler(m, t, e.a, e.b) {
        return Some(NotLattice);
      }
      assert edges[k..][1..] == edges[k + 1..];
    }
    return None;
  }

  // ---- writing ----

  method WriteNodes(out: seq<byte>, nodes: seq<u32>) returns (r: seq<byte>)
    requires |nodes| < U64
    ensures r == out + WriteList(NodeShape(), nodes)
  {
    r := PutVarint(out, |nodes|);
    ghost var start := r;
    var previous: int := 0;
    for k := 0 to |nodes|
      invariant previous == NodeBase(LastOf(nodes[..k]))
      invariant r == start + WriteItems(NodeShape(), None, nodes[..k])
    {
      WriteStep(NodeShape(), nodes, k, start, r);
      ZigzagRoundTrip(nodes[k] - previous, 0);
      r := PutVarint(r, Zigzag(nodes[k] - previous));
      previous := nodes[k];
    }
    assert nodes[..|nodes|] == nodes;
  }

  method WriteEdges(out: seq<byte>, edges: seq<Link>) returns (r: seq<byte>)
    requires |edges| < U64
    ensures r == out + WriteList(EdgeShape(), edges)
  {
    r := PutVarint(out, |edges|);
    ghost var start := r;
    var previous: int := 0;
    for k := 0 to |edges|
      invariant previous == EdgeBase(LastOf(edges[..k]))
      invariant r == start + WriteItems(EdgeShape(), None, edges[..k])
    {
      var e := edges[k];
      WriteStep(EdgeShape(), edges, k, start, r);
      ZigzagRoundTrip(e.a - previous, 0);
      ZigzagRoundTrip(e.b - e.a, 0);
      Associative(r, VarintBytes(Zigzag(e.a - previous)), VarintBytes(Zigzag(e.b - e.a)));
      r := PutVarint(r, Zigzag(e.a - previous));
      r := PutVarint(r, Zigzag(e.b - e.a));
      previous := e.a;
    }
    assert edges[..|edges|] == edges;
  }

  lemma Associative(a: seq<byte>, b: seq<byte>, c: seq<byte>)
    ensures a + (b + c) == (a + b) + c
  {
  }

  method WriteRemovedNodes(out: seq<byte>, nodes: seq<u32>) returns (r: seq<byte>)
    requires |nodes| < U64 && AllFit(RemovedNodeShape(), None, nodes)
    ensures r == out + WriteList(RemovedNodeShape(), nodes)
  {
    r := PutVarint(out, |nodes|);
    ghost var start := r;
    var previous: int := 0;
    for k := 0 to |nodes|
      invariant previous == NodeBase(LastOf(nodes[..k]))
      invariant r == start + WriteItems(RemovedNodeShape(), None, nodes[..k])
    {
      WriteStep(RemovedNodeShape(), nodes, k, start, r);
      FitsAt(RemovedNodeShape(), None, nodes, k);
      r := PutVarint(r, nodes[k] - previous);
      previous := nodes[k];
    }
    assert nodes[..|nodes|] == nodes;
  }

  /** The first `k` couplers have been written after `start`. */
  ghost predicate RemovedSoFar(edges: seq<Link>, k: nat, start: seq<byte>, r: seq<byte>, previous: int) {
    && k <= |edges| && previous == EdgeBase(LastOf(edges[..k]))
    && r == start + WriteItems(RemovedEdgeShape(), None, edges[..k])
  }

  lemma RemovedEdgeStep(edges: seq<Link>, k: nat, start: seq<byte>, r: seq<byte>, previous: int)
    requires k < |edges| && AllFit(RemovedEdgeShape(), None, edges) && RemovedSoFar(edges, k, start, r, previous)
    ensures previous <= edges[k].a < edges[k].b
    ensures RemovedSoFar(edges, k + 1, start, r + VarintBytes(edges[k].a - previous) + VarintBytes(edges[k].b - edges[k].a), edges[k].a) == true
  {
    var e := edges[k];
    WriteStep(RemovedEdgeShape(), edges, k, start, r);
    FitsAt(RemovedEdgeShape(), None, edges, k);
    Associative(r, VarintBytes(e.a - previous), VarintBytes(e.b - e.a));
  }

  lemma RemovedAll(edges: seq<Link>, start: seq<byte>, r: seq<byte>, previous: int)
    requires RemovedSoFar(edges, |edges|, start, r, previous)
    ensures r == start + WriteItems(RemovedEdgeShape(), None, edges)
  {
    assert edges[..|edges|] == edges;
  }

  method WriteRemovedEdges(out: seq<byte>, edges: seq<Link>) returns (r: seq<byte>)
    requires |edges| < U64 && AllFit(RemovedEdgeShape(), None, edges)
    ensures r == out + WriteList(RemovedEdgeShape(), edges)
  {
    r := PutVarint(out, |edges|);
    ghost var start := r;
    var previous: int := 0;
    for k := 0 to |edges|
      invariant RemovedSoFar(edges, k, start, r, previous) == true
    {
      var e := edges[k];
      RemovedEdgeStep(edges, k, start, r, previous);
      r := PutVarint(r, e.a - previous);
      r := PutVarint(r, e.b - e.a);
      previous := e.a;
    }
    RemovedAll(edges, start, r, previous);
  }

  /** Serialises a body whose lists have 64-bit lengths. */
  method EncodePayload(lat: Lattice, body: Body) returns (r: Result<seq<byte>, BlobError>)
    requires body.Explicit? ==> |body.nodes| < U64 && |body.edges| < U64
    requires body.ZephyrRemoved? ==> |body.removedNodes| < U64 && |body.removedEdges| < U64
    ensures r == Encoded(lat, body)
  {
    var out := MAGIC + [VERSION];
    match body {
      case Explicit(nodes, edges) =>
        out := out + [KIND_EXPLICIT];
        out := WriteNodes(out, nodes);
        out := WriteEdges(out, edges);
        Associative(Header(body), WriteList(NodeShape(), nodes), WriteList(EdgeShape(), edges));
      case ZephyrRemoved(m, t, nodes, edges) =>
        var fault := ValidateZephyr(lat, m, t, nodes, edges);
        if fault.Some? {
          return Err(fault.value);
        }
        NodesFit(lat, m, t, None, nodes);
        EdgesFit(lat, m, t, nodes, None, edges);
        out := out + [KIND_ZEPHYR];
        out := PutVarint(out, m);
        out := PutVarint(out, t);
        out := WriteRemovedNodes(out, nodes);
        out := WriteRemovedEdges(out, edges);
        var head := Header(body) + VarintBytes(m) + VarintBytes(t);
        Associative(head, WriteList(RemovedNodeShape(), nodes), WriteList(RemovedEdgeShape(), edges));
        Associative(Header(body) + VarintBytes(m), VarintBytes(t), RemovalBytes(nodes, edges));
        Associative(Header(body), VarintBytes(m), VarintBytes(t) + RemovalBytes(nodes, edges));
    }
    if |out| > MAX_PAYLOAD {
      return Err(TooLarge);
    }
    return Ok(out);
  }

  // ---- reading ----

  method ReadNodeList(reader: Reader) returns (r: Result<seq<u32>, BlobError>)
    modifies reader
    ensures Reports(ReadList(NodeShape(), reader.bytes, old(reader.pos)), r, reader.pos)
  {
    var count :- reader.Count(1);
    var nodes: seq<u32> := [];
    var previous: int := 0;
    ghost var start := reader.pos;
    ProgressStarts(NodeShape(), count, reader.bytes, start);
    for k := 0 to count
      invariant FitsI64(previous) && previous == NodeBase(LastOf(nodes))
      invariant Progress(NodeShape(), count, reader.bytes, start, nodes, count - k, reader.pos) == true
    {
      ProgressSteps(NodeShape(), count, reader.bytes, start, nodes, count - k, reader.pos);
      previous :- reader.IdDelta(previous);
      if !(0 <= previous < U32) {
        return Err(Range);
      }
      nodes := nodes + [previous];
    }
    ProgressEnds(NodeShape(), count, reader.bytes, start, nodes, reader.pos);
    return Ok(nodes);
  }

  method ReadEdgeAfter(reader: Reader, previous: int, ghost prev: Option<Link>) returns (r: Result<Link, BlobError>)
    requires FitsI64(previous) && previous == EdgeBase(prev)
    modifies reader
    ensures Reports(ReadEdge(prev, reader.bytes, old(reader.pos)), r, reader.pos)
  {
    var a :- reader.IdDelta(previous);
    var b :- reader.IdDelta(a);
    if !(0 <= a < U32) || !(0 <= b < U32) {
      return Err(Range);
    }
    return Ok(Link(a, b));
  }

  method ReadEdgeList(reader: Reader) returns (r: Result<seq<Link>, BlobError>)
    modifies reader
    ensures Reports(ReadList(EdgeShape(), reader.bytes, old(reader.pos)), r, reader.pos)
  {
    var count :- reader.Count(2);
    var edges: seq<Link> := [];
    var previous: int := 0;
    ghost var start := reader.pos;
    ProgressStarts(EdgeShape(), count, reader.bytes, start);
    for k := 0 to count
      invariant FitsI64(previous) && previous == EdgeBase(LastOf(edges))
      invariant Progress(EdgeShape(), count, reader.bytes, start, edges, count - k, reader.pos) == true
    {
      ProgressSteps(EdgeShape(), count, reader.bytes, start, edges, count - k, reader.pos);
      var e :- ReadEdgeAfter(reader, previous, LastOf(edges));
      edges := edges + [e];
      previous := e.a;
    }
    ProgressEnds(EdgeShape(), count, reader.bytes, start, edges, reader.pos);
    return Ok(edges);
  }

  method ReadNodeAfter(reader: Reader, prev: Option<u32>) returns (r: Result<u32, BlobError>)
    modifies reader
    ensures Reports(ReadRemovedNode(prev, reader.bytes, old(reader.pos)), r, reader.pos)
  {
    var delta :- reader.Varint();
    if prev.Some? && delta == 0 {
      return Err(Order);
    }
    var id := NodeBase(prev) + delta;
    if id >= U64 || id >= U32 {
      return Err(Range);
    }
    return Ok(id);
  }

  method ReadRemovedNodeList(reader: Reader) returns (r: Result<seq<u32>, BlobError>)
    modifies reader
    ensures Reports(ReadList(RemovedNodeShape(), reader.bytes, old(reader.pos)), r, reader.pos)
  {
    var count :- reader.Count(1);
    var nodes: seq<u32> := [];
    ghost var start := reader.pos;
    ProgressStarts(RemovedNodeShape(), count, reader.bytes, start);
    for k := 0 to count
      invariant Progress(RemovedNodeShape(), count, reader.bytes, start, nodes, count - k, reader.pos) == true
    {
      ProgressSteps(RemovedNodeShape(), count, reader.bytes, start, nodes, count - k, reader.pos);
      var id :- ReadNodeAfter(reader, LastOf(nodes));
      nodes := nodes + [id];
    }
    ProgressEnds(RemovedNodeShape(), count, reader.bytes, start, nodes, reader.pos);
    return Ok(nodes);
  }

  method ReadCoupler(reader: Reader, prev: Option<Link>) returns (r: Result<Link, BlobError>)
    modifies reader
    ensures Reports(ReadRemovedEdge(prev, reader.bytes, old(reader.pos)), r, reader.pos)
  {
    var step :- reader.Varint();
    var a := EdgeBase(prev) + step;
    if a >= U64 {
      return Err(Range);
    }
    var gap :- reader.Varint();
    if gap == 0 {
      return Err(Order);
    }
    var b := a + gap;
    if b >= U64 || a >= U32 || b >= U32 {
      return Err(Range);
    }
    return Ok(Link(a, b));
  }

  method ReadRemovedEdgeList(reader: Reader) returns (r: Result<seq<Link>, BlobError>)
    modifies reader
    ensures Reports(ReadList(RemovedEdgeShape(), reader.bytes, old(reader.pos)), r, reader.pos)
  {
    var count :- reader.Count(2);
    var edges: seq<Link> := [];
    ghost var start := reader.pos;
    ProgressStarts(RemovedEdgeShape(), count, reader.bytes, start);
    for k := 0 to count
      invariant Progress(RemovedEdgeShape(), count, reader.bytes, start, edges, count - k, reader.pos) == true
    {
      ProgressSteps(RemovedEdgeShape(), count, reader.bytes, start, edges, count - k, reader.pos);
      var e :- ReadCoupler(reader, LastOf(edges));
      edges := edges + [e];
    }
    ProgressEnds(RemovedEdgeShape(), count, reader.bytes, start, edges, reader.pos);
    return Ok(edges);
  }

  method DecodeExplicit(reader: Reader) returns (r: Result<Body, BlobError>)
    modifies reader
    ensures Reports(ReadExplicit(reader.bytes, old(reader.pos)), r, reader.pos)
  {
    var nodes :- ReadNodeList(reader);
    var edges :- ReadEdgeList(reader);
    return Ok(Explicit(nodes, edges));
  }

  method DecodeZephyr(lat: Lattice, reader: Reader) returns (r: Result<Body, BlobError>)
    modifies reader
    ensures Reports(ReadZephyr(lat, reader.bytes, old(reader.pos)), r, reader.pos)
  {
    var m :- reader.Varint();
    if m >= 0x1_0000 {
      return Err(Range);
    }
    var t :- reader.Varint();
    if t >= 0x100 || !SizesFit(m, t) {
      return Err(Range);
    }
    var nodes :- ReadRemovedNodeList(reader);
    var edges :- ReadRemovedEdgeList(reader);
    var fault := ValidateZephyr(lat, m, t, nodes, edges);
    if fault.Some? {
      return Err(fault.value);
    }
    return Ok(ZephyrRemoved(m, t, nodes, edges));
  }

  /** Parses payload bytes: the cursor must end exactly at their end. */
  method DecodePayload(lat: Lattice, bytes: seq<byte>) returns (r: Result<Body, BlobError>)
    ensures r == Decoded(lat, bytes)
  {
    if |bytes| > MAX_PAYLOAD {
      return Err(TooLarge);
    }
    var reader := new Reader(bytes);
    for i := 0 to 4
      invariant reader.pos == i && reader.bytes == bytes && i <= |bytes| && MAGIC[..i] == bytes[..i]
    {
      var byte := reader.Byte();
      if byte != Some(MAGIC[i]) {
        return Err(Magic);
      }
    }
    var version := reader.Byte();
    if version != Some(VERSION) {
      return Err(Version);
    }
    var kind := reader.Byte();
    var body: Body;
    if kind == Some(KIND_EXPLICIT) {
      body :- DecodeExplicit(reader);
    } else if kind == Some(KIND_ZEPHYR) {
      body :- DecodeZephyr(lat, reader);
    } else {
      return Err(Kind);
    }
    if |bytes| > reader.pos {
      return Err(Trailing);
    }
    return Ok(body);
  }
}

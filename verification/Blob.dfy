/** The topology payload: an explicit topology, or a Zephyr lattice minus removals. */
module Blob {
  import opened BlobItems
  import opened BlobLists
  import opened Common
  import opened Machine
  import opened Varint
  import opened Zephyr

  const MAX_PAYLOAD := 0x400_0000
  const MAGIC: seq<byte> := [0x51, 0x54, 0x4f, 0x50]
  const VERSION: byte := 1
  const KIND_EXPLICIT: byte := 0
  const KIND_ZEPHYR: byte := 1

  datatype Body =
    | Explicit(nodes: seq<u32>, edges: seq<Link>)
    | ZephyrRemoved(m: u16, t: byte, removedNodes: seq<u32>, removedEdges: seq<Link>)

  // ---- the lattice rules ----

  /** The lattice tests the codec calls on a size, a tile size, and node ids. */
  datatype Lattice = Lattice(hasNode: (nat, nat, nat) -> bool, hasCoupler: (nat, nat, nat, nat) -> bool)

  /** The tests that the coordinate formulas give. */
  function ZephyrLattice(): Lattice {
    Lattice((m: nat, t: nat, q: nat) => Coordinates(m, t, q).Some?, LatticeCoupler)
  }

  predicate SizesFit(m: nat, t: nat) {
    1 <= m <= 32 && 1 <= t <= 8
  }

  function NodeFault(lat: Lattice, m: nat, t: nat, prev: Option<u32>, nodes: seq<u32>): Option<BlobError>
    decreases nodes
  {
    if nodes == [] then None
    else if !NodeFollows(prev, nodes[0]) then Some(Order)
    else if !lat.hasNode(m, t, nodes[0]) then Some(NotLattice)
    else NodeFault(lat, m, t, Some(nodes[0]), nodes[1..])
  }

  function EdgeFault(lat: Lattice, m: nat, t: nat, gone: seq<u32>, prev: Option<Link>, edges: seq<Link>): Option<BlobError>
    decreases edges
  {
    if edges == [] then None
    else
      var e := edges[0];
      if e.a >= e.b || (prev.Some? && !PairBelow(prev.value, e)) then Some(Order)
      else if e.a in gone || e.b in gone || !lat.hasCoupler(m, t, e.a, e.b) then Some(NotLattice)
      else EdgeFault(lat, m, t, gone, Some(e), edges[1..])
  }

  /** The first lattice rule the removals break. */
  function Fault(lat: Lattice, m: nat, t: nat, nodes: seq<u32>, edges: seq<Link>): Option<BlobError> {
    if !SizesFit(m, t) then Some(Range)
    else if NodeFault(lat, m, t, None, nodes).Some? then NodeFault(lat, m, t, None, nodes)
    else EdgeFault(lat, m, t, nodes, None, edges)
  }

  // ---- the format ----

  function RemovalBytes(nodes: seq<u32>, edges: seq<Link>): seq<byte> {
    WriteList(RemovedNodeShape(), nodes) + WriteList(RemovedEdgeShape(), edges)
  }

  function BodyBytes(body: Body): seq<byte> {
    match body
    case Explicit(nodes, edges) =>
      WriteList(NodeShape(), nodes) + WriteList(EdgeShape(), edges)
    case ZephyrRemoved(m, t, nodes, edges) =>
      VarintBytes(m) + (VarintBytes(t) + RemovalBytes(nodes, edges))
  }

  function Header(body: Body): seq<byte> {
    MAGIC + [VERSION] + [if body.Explicit? then KIND_EXPLICIT else KIND_ZEPHYR]
  }

  function BodyFault(lat: Lattice, body: Body): Option<BlobError> {
    if body.Explicit? then None else Fault(lat, body.m, body.t, body.removedNodes, body.removedEdges)
  }

  function Encoded(lat: Lattice, body: Body): Result<seq<byte>, BlobError> {
    if BodyFault(lat, body).Some? then Err(BodyFault(lat, body).value)
    else
      var out := Header(body) + BodyBytes(body);
      if |out| > MAX_PAYLOAD then Err(TooLarge) else Ok(out)
  }

  function ReadExplicit(bytes: seq<byte>, pos: nat): Result<Read<Body>, BlobError> {
    var nodes :- ReadList(NodeShape(), bytes, pos);
    var edges :- ReadList(EdgeShape(), bytes, nodes.end);
    Ok(Read(Explicit(nodes.value, edges.value), edges.end))
  }

  function ReadRemovals(lat: Lattice, m: u16, t: byte, bytes: seq<byte>, pos: nat): Result<Read<Body>, BlobError> {
    var nodes :- ReadList(RemovedNodeShape(), bytes, pos);
    var edges :- ReadList(RemovedEdgeShape(), bytes, nodes.end);
    var fault := Fault(lat, m, t, nodes.value, edges.value);
    if fault.Some? then Err(fault.value) else Ok(Read(ZephyrRemoved(m, t, nodes.value, edges.value), edges.end))
  }

  function ReadZephyr(lat: Lattice, bytes: seq<byte>, pos: nat): Result<Read<Body>, BlobError> {
    var m :- ReadVarint(bytes, pos);
    if m.value >= 0x1_0000 then Err(Range)
    else
      var t :- ReadVarint(bytes, m.end);
      if t.value >= 0x100 || !SizesFit(m.value, t.value) then Err(Range)
      else ReadRemovals(lat, m.value, t.value, bytes, t.end)
  }

  function Decoded(lat: Lattice, bytes: seq<byte>): Result<Body, BlobError> {
    if |bytes| > MAX_PAYLOAD then Err(TooLarge)
    else if !(MAGIC <= bytes) then Err(Magic)
    else if |bytes| == 4 || bytes[4] != VERSION then Err(Version)
    else if |bytes| == 5 || bytes[5] !in {KIND_EXPLICIT, KIND_ZEPHYR} then Err(Kind)
    else
      var body :- if bytes[5] == KIND_EXPLICIT then ReadExplicit(bytes, 6) else ReadZephyr(lat, bytes, 6);
      if body.end < |bytes| then Err(Trailing) else Ok(body.value)
  }

  // ---- validated removals can be written ----

  lemma {:induction false} NodesFit(lat: Lattice, m: nat, t: nat, prev: Option<u32>, nodes: seq<u32>)
    requires NodeFault(lat, m, t, prev, nodes).None?
    ensures AllFit(RemovedNodeShape(), prev, nodes)
    decreases nodes
  {
    if nodes != [] {
      NodesFit(lat, m, t, Some(nodes[0]), nodes[1..]);
    }
  }

  lemma {:induction false} EdgesFit(lat: Lattice, m: nat, t: nat, gone: seq<u32>, prev: Option<Link>, edges: seq<Link>)
    requires EdgeFault(lat, m, t, gone, prev, edges).None?
    ensures AllFit(RemovedEdgeShape(), prev, edges)
    decreases edges
  {
    if edges != [] {
      EdgesFit(lat, m, t, gone, Some(edges[0]), edges[1..]);
    }
  }

  lemma {:induction false} AnyNodesFit(prev: Option<u32>, nodes: seq<u32>)
    ensures AllFit(NodeShape(), prev, nodes)
    decreases nodes
  {
    if nodes != [] {
      AnyNodesFit(Some(nodes[0]), nodes[1..]);
    }
  }

  lemma {:induction false} AnyEdgesFit(prev: Option<Link>, edges: seq<Link>)
    ensures AllFit(EdgeShape(), prev, edges)
    decreases edges
  {
    if edges != [] {
      AnyEdgesFit(Some(edges[0]), edges[1..]);
    }
  }

  // ---- encoding then decoding ----

  lemma ExplicitReads(nodes: seq<u32>, edges: seq<Link>, bytes: seq<byte>, pos: nat, p: nat, end: nat)
    requires ReadList(NodeShape(), bytes, pos) == Ok(Read(nodes, p)) && ReadList(EdgeShape(), bytes, p) == Ok(Read(edges, end))
    ensures ReadExplicit(bytes, pos) == Ok(Read(Explicit(nodes, edges), end))
  {
  }

  lemma ExplicitReadsBack(nodes: seq<u32>, edges: seq<Link>, bytes: seq<byte>, pos: nat)
    requires |bytes| <= MAX_PAYLOAD && At(bytes, pos, BodyBytes(Explicit(nodes, edges)))
    ensures ReadExplicit(bytes, pos) == Ok(Read(Explicit(nodes, edges), pos + |BodyBytes(Explicit(nodes, edges))|))
  {
    var first, second := WriteList(NodeShape(), nodes), WriteList(EdgeShape(), edges);
    var p := pos + |first|;
    AtSplits(bytes, pos, first, second);
    assert ReadList(NodeShape(), bytes, pos) == Ok(Read(nodes, p)) by {
      NodesFaithful();
      AnyNodesFit(None, nodes);
      ListReadsBack(NodeShape(), nodes, bytes, pos);
    }
    assert ReadList(EdgeShape(), bytes, p) == Ok(Read(edges, p + |second|)) by {
      EdgesFaithful();
      AnyEdgesFit(None, edges);
      ListReadsBack(EdgeShape(), edges, bytes, p);
    }
    ExplicitReads(nodes, edges, bytes, pos, p, p + |second|);
  }

  lemma RemovedNodesReadBack(lat: Lattice, body: Body, bytes: seq<byte>, pos: nat)
    requires body.ZephyrRemoved? && BodyFault(lat, body).None? && |bytes| <= MAX_PAYLOAD
    requires At(bytes, pos, WriteList(RemovedNodeShape(), body.removedNodes))
    ensures ReadList(RemovedNodeShape(), bytes, pos)
         == Ok(Read(body.removedNodes, pos + |WriteList(RemovedNodeShape(), body.removedNodes)|))
  {
    RemovedNodesFaithful();
    NodesFit(lat, body.m, body.t, None, body.removedNodes);
    ListReadsBack(RemovedNodeShape(), body.removedNodes, bytes, pos);
  }

  lemma RemovedEdgesReadBack(lat: Lattice, body: Body, bytes: seq<byte>, pos: nat)
    requires body.ZephyrRemoved? && BodyFault(lat, body).None? && |bytes| <= MAX_PAYLOAD
    requires At(bytes, pos, WriteList(RemovedEdgeShape(), body.removedEdges))
    ensures ReadList(RemovedEdgeShape(), bytes, pos)
         == Ok(Read(body.removedEdges, pos + |WriteList(RemovedEdgeShape(), body.removedEdges)|))
  {
    RemovedEdgesFaithful();
    EdgesFit(lat, body.m, body.t, body.removedNodes, None, body.removedEdges);
    ListReadsBack(RemovedEdgeShape(), body.removedEdges, bytes, pos);
  }

  lemma RemovalsRead(lat: Lattice, body: Body, bytes: seq<byte>, pos: nat, mid: nat, end: nat)
    requires body.ZephyrRemoved? && BodyFault(lat, body).None?
    requires ReadList(RemovedNodeShape(), bytes, pos) == Ok(Read(body.removedNodes, mid))
    requires ReadList(RemovedEdgeShape(), bytes, mid) == Ok(Read(body.removedEdges, end))
    ensures ReadRemovals(lat, body.m, body.t, bytes, pos) == Ok(Read(body, end))
  {
  }

  lemma RemovalsReadBack(lat: Lattice, body: Body, bytes: seq<byte>, pos: nat)
    requires body.ZephyrRemoved? && BodyFault(lat, body).None? && |bytes| <= MAX_PAYLOAD
    requires At(bytes, pos, RemovalBytes(body.removedNodes, body.removedEdges))
    ensures ReadRemovals(lat, body.m, body.t, bytes, pos) == Ok(Read(body, pos + |RemovalBytes(body.removedNodes, body.removedEdges)|))
  {
    var nodes, edges := body.removedNodes, body.removedEdges;
    var first, second := WriteList(RemovedNodeShape(), nodes), WriteList(RemovedEdgeShape(), edges);
    AtSplits(bytes, pos, first, second);
    RemovedNodesReadBack(lat, body, bytes, pos);
    RemovedEdgesReadBack(lat, body, bytes, pos + |first|);
    RemovalsRead(lat, body, bytes, pos, pos + |first|, pos + |first| + |second|);
  }

  lemma ZephyrReads(lat: Lattice, body: Body, bytes: seq<byte>, pos: nat, p: nat, q: nat, end: nat)
    requires body.ZephyrRemoved? && SizesFit(body.m, body.t)
    requires ReadVarint(bytes, pos) == Ok(Read(body.m, p)) && ReadVarint(bytes, p) == Ok(Read(body.t, q))
    requires ReadRemovals(lat, body.m, body.t, bytes, q) == Ok(Read(body, end))
    ensures ReadZephyr(lat, bytes, pos) == Ok(Read(body, end))
  {
  }

  lemma ZephyrReadsBack(lat: Lattice, body: Body, bytes: seq<byte>, pos: nat, end: nat)
    requires body.ZephyrRemoved? && BodyFault(lat, body).None? && |bytes| <= MAX_PAYLOAD
    requires Spans(bytes, pos, end, BodyBytes(body))
    ensures ReadZephyr(lat, bytes, pos) == Ok(Read(body, end))
  {
    var wm, wt := VarintBytes(body.m), VarintBytes(body.t);
    var lists := RemovalBytes(body.removedNodes, body.removedEdges);
    var p, q := pos + |wm|, pos + |wm| + |wt|;
    AtSplits(bytes, pos, wm, wt + lists);
    AtSplits(bytes, p, wt, lists);
    assert ReadVarint(bytes, pos) == Ok(Read(body.m, p)) by {
      VarintReadsBack(body.m, bytes, pos);
    }
    assert ReadVarint(bytes, p) == Ok(Read(body.t, q)) by {
      VarintReadsBack(body.t, bytes, p);
    }
    assert ReadRemovals(lat, body.m, body.t, bytes, q) == Ok(Read(body, end)) by {
      RemovalsReadBack(lat, body, bytes, q);
    }
    ZephyrReads(lat, body, bytes, pos, p, q, end);
  }

  /** Every body that encodes decodes back to itself. */
  lemma DecodeInvertsEncode(lat: Lattice, body: Body)
    requires Encoded(lat, body).Ok?
    ensures Decoded(lat, Encoded(lat, body).value) == Ok(body)
  {
    var head, rest := Header(body), BodyBytes(body);
    var bytes := head + rest;
    assert bytes[..4] == MAGIC && bytes[4] == VERSION && bytes[5] == head[5];
    AtSplits(bytes, 0, head, rest);
    assert At(bytes, 0, head + rest);
    match body
    case Explicit(nodes, edges) => ExplicitReadsBack(nodes, edges, bytes, 6);
    case ZephyrRemoved(_, _, _, _) => ZephyrReadsBack(lat, body, bytes, 6, |bytes|);
  }

  // ---- decoding then encoding ----

  lemma ExplicitIsMinimal(bytes: seq<byte>, pos: nat)
    requires ReadExplicit(bytes, pos).Ok?
    ensures var r := ReadExplicit(bytes, pos).value;
            r.value.Explicit? && Spans(bytes, pos, r.end, BodyBytes(r.value))
  {
    var nodes := ReadList(NodeShape(), bytes, pos).value;
    var edges := ReadList(EdgeShape(), bytes, nodes.end).value;
    NodesFaithful();
    EdgesFaithful();
    ListIsMinimal(NodeShape(), bytes, pos);
    ListIsMinimal(EdgeShape(), bytes, nodes.end);
    AtJoins(bytes, pos, WriteList(NodeShape(), nodes.value), WriteList(EdgeShape(), edges.value));
  }

  lemma RemovalsAreMinimal(lat: Lattice, m: u16, t: byte, bytes: seq<byte>, pos: nat)
    requires ReadRemovals(lat, m, t, bytes, pos).Ok?
    ensures var r := ReadRemovals(lat, m, t, bytes, pos).value; var b := r.value;
            && b.ZephyrRemoved? && b.m == m && b.t == t && BodyFault(lat, b).None?
            && Spans(bytes, pos, r.end, RemovalBytes(b.removedNodes, b.removedEdges))
  {
    var nodes := ReadList(RemovedNodeShape(), bytes, pos).value;
    var edges := ReadList(RemovedEdgeShape(), bytes, nodes.end).value;
    RemovedNodesFaithful();
    RemovedEdgesFaithful();
    ListIsMinimal(RemovedNodeShape(), bytes, pos);
    ListIsMinimal(RemovedEdgeShape(), bytes, nodes.end);
    AtJoins(bytes, pos, WriteList(RemovedNodeShape(), nodes.value), WriteList(RemovedEdgeShape(), edges.value));
  }

  lemma ZephyrIsMinimal(lat: Lattice, bytes: seq<byte>, pos: nat)
    requires ReadZephyr(lat, bytes, pos).Ok?
    ensures var r := ReadZephyr(lat, bytes, pos).value;
            r.value.ZephyrRemoved? && BodyFault(lat, r.value).None? && Spans(bytes, pos, r.end, BodyBytes(r.value))
  {
    var b := ReadZephyr(lat, bytes, pos).value.value;
    var m := ReadVarint(bytes, pos).value;
    var t := ReadVarint(bytes, m.end).value;
    VarintIsMinimal(bytes, pos);
    VarintIsMinimal(bytes, m.end);
    RemovalsAreMinimal(lat, m.value, t.value, bytes, t.end);
    var lists := RemovalBytes(b.removedNodes, b.removedEdges);
    AtJoins(bytes, m.end, VarintBytes(t.value), lists);
    AtJoins(bytes, pos, VarintBytes(m.value), VarintBytes(t.value) + lists);
  }

  lemma HeaderStands(bytes: seq<byte>, body: Body)
    requires |bytes| >= 6 && MAGIC <= bytes && bytes[4] == VERSION
    requires bytes[5] == if body.Explicit? then KIND_EXPLICIT else KIND_ZEPHYR
    ensures bytes[..6] == Header(body)
  {
    assert bytes[..6] == bytes[..4] + [bytes[4]] + [bytes[5]];
  }

  /** An accepted payload is a header and the bytes of a body whose removals keep the rules. */
  lemma PayloadSplits(lat: Lattice, bytes: seq<byte>)
    requires Decoded(lat, bytes).Ok?
    ensures var body := Decoded(lat, bytes).value;
            |bytes| >= 6 && bytes[..6] == Header(body) && Spans(bytes, 6, |bytes|, BodyBytes(body)) && BodyFault(lat, body).None?
  {
    if bytes[5] == KIND_EXPLICIT {
      ExplicitIsMinimal(bytes, 6);
    } else {
      ZephyrIsMinimal(lat, bytes, 6);
    }
    HeaderStands(bytes, Decoded(lat, bytes).value);
  }

  /** Every accepted payload is the one encoding of its body. */
  lemma EncodeInvertsDecode(lat: Lattice, bytes: seq<byte>)
    requires Decoded(lat, bytes).Ok?
    ensures Encoded(lat, Decoded(lat, bytes).value) == Ok(bytes)
  {
    PayloadSplits(lat, bytes);
    EncodingIs(lat, Decoded(lat, bytes).value, bytes);
  }

  lemma EncodingIs(lat: Lattice, body: Body, bytes: seq<byte>)
    requires 6 <= |bytes| <= MAX_PAYLOAD && bytes[..6] == Header(body) && Spans(bytes, 6, |bytes|, BodyBytes(body))
    requires BodyFault(lat, body).None?
    ensures Encoded(lat, body) == Ok(bytes)
  {
    assert bytes[6..] == BodyBytes(body);
    assert bytes == bytes[..6] + bytes[6..];
  }

  // ---- written out ----

  /** The header spells the name of the format, then version 1, then 0 for an explicit body and 1 for a lattice. */
  lemma HeaderSpells(body: Body)
    ensures |Header(body)| == 6 && Header(body)[4] == 1 && Header(body)[5] == if body.Explicit? then 0 else 1
    ensures forall i :: 0 <= i < 4 ==> Header(body)[i] as int == "QTOP"[i] as int
  {
  }

  lemma OneItem<T>(shape: Shape<T>, prev: Option<T>, x: T, rest: seq<T>)
    ensures WriteItems(shape, prev, [x] + rest) == shape.write(prev, x) + WriteItems(shape, Some(x), rest)
  {
    assert ([x] + rest)[1..] == rest;
  }

  /** Three nodes out of order: deltas 0, 300, and -299. */
  lemma SampleNodes()
    ensures WriteList(NodeShape(), [0, 300, 1]) == [3, 0, 0xd8, 0x04, 0xd5, 0x04]
  {
    var shape := NodeShape();
    OneItem(shape, None, 0, [300, 1]);
    OneItem(shape, Some(0), 300, [1]);
    OneItem(shape, Some(300), 1, []);
    assert [0, 300, 1] == [0] + ([300] + ([1] + []));
    assert WriteNode(Some(0), 300) == [0xd8, 0x04] && WriteNode(Some(300), 1) == [0xd5, 0x04];
  }

  /** An edge from 1 to 0 and one from 1 to 64: deltas 1 and -1, then 0 and 63. */
  lemma SampleEdges()
    ensures WriteList(EdgeShape(), [Link(1, 0), Link(1, 64)]) == [2, 2, 1, 0, 126]
  {
    var shape := EdgeShape();
    OneItem(shape, None, Link(1, 0), [Link(1, 64)]);
    OneItem(shape, Some(Link(1, 0)), Link(1, 64), []);
    assert [Link(1, 0), Link(1, 64)] == [Link(1, 0)] + ([Link(1, 64)] + []);
  }

  /** Removed nodes 5 and 300: deltas 5 and 295, without signs. */
  lemma SampleRemovedNodes()
    ensures WriteList(RemovedNodeShape(), [5, 300]) == [2, 5, 0xa7, 0x02]
  {
    var shape := RemovedNodeShape();
    OneItem(shape, None, 5, [300]);
    OneItem(shape, Some(5), 300, []);
    assert [5, 300] == [5] + ([300] + []);
  }

  lemma SampleRemovedEdges()
    ensures WriteList(RemovedEdgeShape(), [Link(1, 7), Link(1, 9)]) == [2, 1, 6, 0, 8]
  {
    var shape := RemovedEdgeShape();
    OneItem(shape, None, Link(1, 7), [Link(1, 9)]);
    OneItem(shape, Some(Link(1, 7)), Link(1, 9), []);
    assert [Link(1, 7), Link(1, 9)] == [Link(1, 7)] + ([Link(1, 9)] + []);
  }

  /** A whole explicit payload, byte for byte. */
  lemma SampleExplicit(lat: Lattice)
    ensures Encoded(lat, Explicit([0, 300, 1], [Link(1, 0), Link(1, 64)])) ==
            Ok([0x51, 0x54, 0x4f, 0x50, 1, 0, 3, 0, 0xd8, 0x04, 0xd5, 0x04, 2, 2, 1, 0, 126])
  {
    var body := Explicit([0, 300, 1], [Link(1, 0), Link(1, 64)]);
    SampleNodes();
    SampleEdges();
    assert BodyBytes(body) == [3, 0, 0xd8, 0x04, 0xd5, 0x04] + [2, 2, 1, 0, 126];
    assert Header(body) == [0x51, 0x54, 0x4f, 0x50, 1, 0];
    assert Header(body) + BodyBytes(body) == [0x51, 0x54, 0x4f, 0x50, 1, 0, 3, 0, 0xd8, 0x04, 0xd5, 0x04, 2, 2, 1, 0, 126];
  }

  /** A whole lattice payload, byte for byte, where the lattice has what it removes. */
  lemma SampleZephyr(lat: Lattice)
    requires Fault(lat, 12, 4, [5, 300], [Link(1, 7), Link(1, 9)]).None?
    ensures Encoded(lat, ZephyrRemoved(12, 4, [5, 300], [Link(1, 7), Link(1, 9)])) ==
            Ok([0x51, 0x54, 0x4f, 0x50, 1, 1, 12, 4, 2, 5, 0xa7, 0x02, 2, 1, 6, 0, 8])
  {
    var body := ZephyrRemoved(12, 4, [5, 300], [Link(1, 7), Link(1, 9)]);
    SampleRemovedNodes();
    SampleRemovedEdges();
    assert VarintBytes(12) == [12] && VarintBytes(4) == [4];
    assert BodyBytes(body) == [12] + ([4] + ([2, 5, 0xa7, 0x02] + [2, 1, 6, 0, 8]));
    assert Header(body) == [0x51, 0x54, 0x4f, 0x50, 1, 1];
    assert Header(body) + BodyBytes(body) == [0x51, 0x54, 0x4f, 0x50, 1, 1, 12, 4, 2, 5, 0xa7, 0x02, 2, 1, 6, 0, 8];
  }
}

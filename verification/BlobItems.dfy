/** The four kinds of list a topology payload holds. */
module BlobItems {
  import opened BlobLists
  import opened Common
  import opened Machine
  import opened Varint

  datatype Link = Link(a: u32, b: u32)

  /** The order of pairs: by the first end, then by the second. */
  predicate PairBelow(x: Link, y: Link) {
    x.a < y.a || (x.a == y.a && x.b < y.b)
  }

  /** Pairs compare as the 64-bit numbers with the first end in the upper half. */
  lemma PairsAsNumbers(x: Link, y: Link)
    ensures PairBelow(x, y) <==> x.a * U32 + x.b < y.a * U32 + y.b
  {
  }

  // ---- node ids: zigzag deltas, any order ----

  function NodeBase(prev: Option<u32>): int {
    if prev.Some? then prev.value else 0
  }

  function WriteNode(prev: Option<u32>, id: u32): seq<byte> {
    VarintBytes(Zigzag(id - NodeBase(prev)))
  }

  function ReadNode(prev: Option<u32>, bytes: seq<byte>, pos: nat): Result<Read<u32>, BlobError> {
    var id :- ReadDelta(NodeBase(prev), bytes, pos);
    if 0 <= id.value < U32 then Ok(Read(id.value, id.end)) else Err(Range)
  }

  function NodeShape(): Shape<u32> {
    Shape(1, (prev, id) => true, WriteNode, ReadNode)
  }

  lemma NodesFaithful()
    ensures Faithful(NodeShape())
  {
    var shape := NodeShape();
    forall prev, id: u32
      ensures TakesBytes(shape, prev, id)
    {
    }
    forall prev, id: u32, bytes, pos
      ensures ReadsBack(shape, prev, id, bytes, pos)
    {
      if At(bytes, pos, WriteNode(prev, id)) {
        DeltaReadsBack(NodeBase(prev), id, bytes, pos);
      }
    }
    forall prev, bytes, pos
      ensures IsMinimal(shape, prev, bytes, pos)
    {
      NodeMinimal(prev, bytes, pos);
    }
  }

  lemma NodeMinimal(prev: Option<u32>, bytes: seq<byte>, pos: nat)
    ensures IsMinimal(NodeShape(), prev, bytes, pos)
  {
    if ReadNode(prev, bytes, pos).Ok? {
      DeltaIsMinimal(NodeBase(prev), bytes, pos);
    }
  }

  // ---- edges: the first end from the edge before, the second from the first ----

  function EdgeBase(prev: Option<Link>): int {
    if prev.Some? then prev.value.a else 0
  }

  function WriteEdge(prev: Option<Link>, e: Link): seq<byte> {
    VarintBytes(Zigzag(e.a - EdgeBase(prev))) + VarintBytes(Zigzag(e.b - e.a))
  }

  function ReadEdge(prev: Option<Link>, bytes: seq<byte>, pos: nat): Result<Read<Link>, BlobError> {
    var a :- ReadDelta(EdgeBase(prev), bytes, pos);
    var b :- ReadDelta(a.value, bytes, a.end);
    if 0 <= a.value < U32 && 0 <= b.value < U32 then Ok(Read(Link(a.value, b.value), b.end)) else Err(Range)
  }

  function EdgeShape(): Shape<Link> {
    Shape(2, (prev, e) => true, WriteEdge, ReadEdge)
  }

  lemma EdgeReads(prev: Option<Link>, e: Link, bytes: seq<byte>, pos: nat, mid: nat, end: nat)
    requires ReadDelta(EdgeBase(prev), bytes, pos) == Ok(Read(e.a, mid))
    requires ReadDelta(e.a, bytes, mid) == Ok(Read(e.b, end))
    ensures ReadEdge(prev, bytes, pos) == Ok(Read(e, end))
  {
  }

  lemma EdgeReadsBack(prev: Option<Link>, e: Link, bytes: seq<byte>, pos: nat)
    requires At(bytes, pos, WriteEdge(prev, e))
    ensures ReadEdge(prev, bytes, pos) == Ok(Read(e, pos + |WriteEdge(prev, e)|))
  {
    var first, second := VarintBytes(Zigzag(e.a - EdgeBase(prev))), VarintBytes(Zigzag(e.b - e.a));
    AtSplits(bytes, pos, first, second);
    var mid, end := pos + |first|, pos + |first| + |second|;
    assert ReadDelta(EdgeBase(prev), bytes, pos) == Ok(Read(e.a, mid)) by {
      DeltaReadsBack(EdgeBase(prev), e.a, bytes, pos);
    }
    assert ReadDelta(e.a, bytes, mid) == Ok(Read(e.b, end)) by {
      DeltaReadsBack(e.a, e.b, bytes, mid);
    }
    EdgeReads(prev, e, bytes, pos, mid, end);
  }

  lemma EdgeSpans(prev: Option<Link>, e: Link, bytes: seq<byte>, pos: nat, mid: nat, end: nat)
    requires Spans(bytes, pos, mid, VarintBytes(Zigzag(e.a - EdgeBase(prev)))) && Spans(bytes, mid, end, VarintBytes(Zigzag(e.b - e.a)))
    ensures Spans(bytes, pos, end, WriteEdge(prev, e))
  {
    AtJoins(bytes, pos, VarintBytes(Zigzag(e.a - EdgeBase(prev))), VarintBytes(Zigzag(e.b - e.a)));
  }

  lemma EdgeMinimal(prev: Option<Link>, bytes: seq<byte>, pos: nat)
    ensures IsMinimal(EdgeShape(), prev, bytes, pos)
  {
    var r := ReadEdge(prev, bytes, pos);
    if r.Ok? {
      var a := ReadDelta(EdgeBase(prev), bytes, pos).value;
      DeltaIsMinimal(EdgeBase(prev), bytes, pos);
      DeltaIsMinimal(a.value, bytes, a.end);
      EdgeSpans(prev, r.value.value, bytes, pos, a.end, r.value.end);
    }
  }

  lemma EdgesFaithful()
    ensures Faithful(EdgeShape())
  {
    var shape := EdgeShape();
    forall prev, e: Link
      ensures TakesBytes(shape, prev, e)
    {
    }
    forall prev, e: Link, bytes, pos
      ensures ReadsBack(shape, prev, e, bytes, pos)
    {
      if At(bytes, pos, WriteEdge(prev, e)) {
        EdgeReadsBack(prev, e, bytes, pos);
      }
    }
    forall prev, bytes, pos
      ensures IsMinimal(shape, prev, bytes, pos)
    {
      EdgeMinimal(prev, bytes, pos);
    }
  }

  // ---- removed nodes: plain deltas, zero allowed for the first only ----

  predicate NodeFollows(prev: Option<u32>, id: u32) {
    prev.Some? ==> prev.value < id
  }

  function WriteRemovedNode(prev: Option<u32>, id: u32): seq<byte> {
    if NodeFollows(prev, id) then VarintBytes(id - NodeBase(prev)) else []
  }

  function ReadRemovedNode(prev: Option<u32>, bytes: seq<byte>, pos: nat): Result<Read<u32>, BlobError> {
    var delta :- ReadVarint(bytes, pos);
    var id := NodeBase(prev) + delta.value;
    if prev.Some? && delta.value == 0 then Err(Order)
    else if id < U32 then Ok(Read(id, delta.end))
    else Err(Range)
  }

  function RemovedNodeShape(): Shape<u32> {
    Shape(1, NodeFollows, WriteRemovedNode, ReadRemovedNode)
  }

  lemma RemovedNodesFaithful()
    ensures Faithful(RemovedNodeShape())
  {
    var shape := RemovedNodeShape();
    forall prev, id: u32
      ensures TakesBytes(shape, prev, id)
    {
    }
    forall prev, id: u32, bytes, pos
      ensures ReadsBack(shape, prev, id, bytes, pos)
    {
      if NodeFollows(prev, id) && At(bytes, pos, WriteRemovedNode(prev, id)) {
        VarintReadsBack(id - NodeBase(prev), bytes, pos);
      }
    }
    forall prev, bytes, pos
      ensures IsMinimal(shape, prev, bytes, pos)
    {
      if ReadRemovedNode(prev, bytes, pos).Ok? {
        VarintIsMinimal(bytes, pos);
      }
    }
  }

  // ---- removed couplers: the first end ascends, the second lies above it ----

  predicate LinkFits(prev: Option<Link>, e: Link) {
    EdgeBase(prev) <= e.a < e.b
  }

  function WriteRemovedEdge(prev: Option<Link>, e: Link): seq<byte> {
    if LinkFits(prev, e) then VarintBytes(e.a - EdgeBase(prev)) + VarintBytes(e.b - e.a) else []
  }

  function ReadRemovedEdge(prev: Option<Link>, bytes: seq<byte>, pos: nat): Result<Read<Link>, BlobError> {
    var step :- ReadVarint(bytes, pos);
    var a := EdgeBase(prev) + step.value;
    if a >= U64 then Err(Range)
    else
      var gap :- ReadVarint(bytes, step.end);
      var b := a + gap.value;
      if gap.value == 0 then Err(Order)
      else if b >= U64 || a >= U32 || b >= U32 then Err(Range)
      else Ok(Read(Link(a, b), gap.end))
  }

  function RemovedEdgeShape(): Shape<Link> {
    Shape(2, LinkFits, WriteRemovedEdge, ReadRemovedEdge)
  }

  lemma RemovedEdgeReads(prev: Option<Link>, e: Link, bytes: seq<byte>, pos: nat, mid: nat, end: nat)
    requires LinkFits(prev, e)
    requires ReadVarint(bytes, pos) == Ok(Read(e.a - EdgeBase(prev), mid)) && ReadVarint(bytes, mid) == Ok(Read(e.b - e.a, end))
    ensures ReadRemovedEdge(prev, bytes, pos) == Ok(Read(e, end))
  {
  }

  lemma RemovedEdgeReadsBack(prev: Option<Link>, e: Link, bytes: seq<byte>, pos: nat)
    ensures ReadsBack(RemovedEdgeShape(), prev, e, bytes, pos)
  {
    if LinkFits(prev, e) && At(bytes, pos, WriteRemovedEdge(prev, e)) {
      var first, second := VarintBytes(e.a - EdgeBase(prev)), VarintBytes(e.b - e.a);
      var mid, end := pos + |first|, pos + |first| + |second|;
      AtSplits(bytes, pos, first, second);
      assert ReadVarint(bytes, pos) == Ok(Read(e.a - EdgeBase(prev), mid)) by {
        VarintReadsBack(e.a - EdgeBase(prev), bytes, pos);
      }
      assert ReadVarint(bytes, mid) == Ok(Read(e.b - e.a, end)) by {
        VarintReadsBack(e.b - e.a, bytes, mid);
      }
      RemovedEdgeReads(prev, e, bytes, pos, mid, end);
    }
  }

  lemma RemovedEdgeMinimal(prev: Option<Link>, bytes: seq<byte>, pos: nat)
    ensures IsMinimal(RemovedEdgeShape(), prev, bytes, pos)
  {
    if ReadRemovedEdge(prev, bytes, pos).Ok? {
      var step := ReadVarint(bytes, pos).value;
      VarintIsMinimal(bytes, pos);
      VarintIsMinimal(bytes, step.end);
      var e := ReadRemovedEdge(prev, bytes, pos).value.value;
      AtJoins(bytes, pos, VarintBytes(e.a - EdgeBase(prev)), VarintBytes(e.b - e.a));
    }
  }

  lemma RemovedEdgesFaithful()
    ensures Faithful(RemovedEdgeShape())
  {
    var shape := RemovedEdgeShape();
    forall prev, e: Link
      ensures TakesBytes(shape, prev, e)
    {
    }
    forall prev, e: Link, bytes, pos
      ensures ReadsBack(shape, prev, e, bytes, pos)
    {
      RemovedEdgeReadsBack(prev, e, bytes, pos);
    }
    forall prev, bytes, pos
      ensures IsMinimal(shape, prev, bytes, pos)
    {
      RemovedEdgeMinimal(prev, bytes, pos);
    }
  }
}

/** Canonical instance bytes, their length, and what a validated instance is. */
module Instance {
  import opened BlobItems
  import opened Common
  import opened Digest
  import LittleEndian
  import opened Machine
  import opened Varint

  type bytes32 = s: seq<byte> | |s| == 32 witness seq(32, i => 0)

  const INSTANCE_FORMAT: byte := 1
  const MAX_KIND := 6

  datatype Parts = Parts(
    descriptorDigest: bytes32, topologyDigest: bytes32, nonce: Option<bytes32>,
    nodeIds: seq<u32>, edges: seq<Link>, h: seq<i32>, j: seq<i32>, offset: i64, metadata: seq<byte>)

  datatype Limits = Limits(nodes: nat, edges: nat, coefficient: nat, offset: nat, metadata: nat)

  const FAM_37 := Limits(16_777_216, 67_108_864, 1_073_741_824, 72_057_594_037_927_936, 67_108_864)

  ghost predicate WithinFam37(l: Limits) {
    && l.nodes <= FAM_37.nodes && l.edges <= FAM_37.edges && l.coefficient <= FAM_37.coefficient
    && l.offset <= FAM_37.offset && l.metadata <= FAM_37.metadata
  }

  datatype Code = BoundsExceeded | InstanceDigestMismatch | MetadataInvalid

  // ---- the encoding ----

  function WordsBytes(vs: seq<u32>): (r: seq<byte>)
    ensures |r| == 4 * |vs|
  {
    if vs == [] then [] else WordsBytes(vs[..|vs| - 1]) + LittleEndian.Bytes(vs[|vs| - 1], 4)
  }

  function Unsigned(v: i32): u32 {
    if v < 0 then v + U32 else v
  }

  function Coefficients(vs: seq<i32>): (r: seq<u32>)
    ensures |r| == |vs| && forall i :: 0 <= i < |vs| ==> r[i] == Unsigned(vs[i])
  {
    seq(|vs|, i requires 0 <= i < |vs| => Unsigned(vs[i]))
  }

  function EndsOf(edges: seq<Link>): (r: seq<u32>)
    ensures |r| == 2 * |edges|
    ensures forall i :: 0 <= i < |edges| ==> r[2 * i] == edges[i].a && r[2 * i + 1] == edges[i].b
  {
    if edges == [] then []
    else EndsOf(edges[..|edges| - 1]) + [edges[|edges| - 1].a, edges[|edges| - 1].b]
  }

  function Zeros(): bytes32 {
    seq(32, i => 0)
  }

  function NonceBytes(p: Parts): bytes32 {
    if p.nonce.Some? then p.nonce.value else Zeros()
  }

  function OffsetBytes(v: i64): (r: seq<byte>)
    ensures |r| == 8
  {
    LittleEndian.Bytes(if v < 0 then v + U64 else v, 8)
  }

  /** The twelve regions in order; counts are 32-bit, saturated when they do not fit. */
  function Regions(p: Parts): seq<seq<byte>> {
    [[INSTANCE_FORMAT], p.descriptorDigest, p.topologyDigest, NonceBytes(p),
     WordsBytes([Count(|p.nodeIds|)]), WordsBytes(p.nodeIds),
     WordsBytes([Count(|p.edges|)]), WordsBytes(EndsOf(p.edges)),
     WordsBytes(Coefficients(p.h)), WordsBytes(Coefficients(p.j)),
     OffsetBytes(p.offset), p.metadata]
  }

  function Count(len: nat): (c: u32)
    ensures c <= len && (c < len ==> c == U32 - 1 && len >= U32)
  {
    if len < U32 then len else U32 - 1
  }

  function Encoded(p: Parts): seq<byte> {
    Joined(Regions(p))
  }

  /** The canonical length as the checked sum computes it. */
  function CanonicalLength(p: Parts): nat {
    97 + 4 + 4 * |p.nodeIds| + 4 + 8 * |p.edges| + 4 * |p.nodeIds| + 4 * |p.edges| + 8 + |p.metadata|
  }

  /** Where region `k` starts. */
  function RegionStart(p: Parts, k: nat): nat
    requires k <= 12
  {
    match k
    case 0 => 0
    case 1 => 1
    case 2 => 33
    case 3 => 65
    case 4 => 97
    case 5 => 101
    case 6 => 101 + 4 * |p.nodeIds|
    case 7 => 105 + 4 * |p.nodeIds|
    case 8 => 105 + 4 * |p.nodeIds| + 8 * |p.edges|
    case 9 => 105 + 4 * |p.nodeIds| + 8 * |p.edges| + 4 * |p.h|
    case 10 => 105 + 4 * |p.nodeIds| + 8 * |p.edges| + 4 * |p.h| + 4 * |p.j|
    case 11 => 113 + 4 * |p.nodeIds| + 8 * |p.edges| + 4 * |p.h| + 4 * |p.j|
    case _ => 113 + 4 * |p.nodeIds| + 8 * |p.edges| + 4 * |p.h| + 4 * |p.j| + |p.metadata|
  }

  lemma {:induction false} StartOfRegion(p: Parts, k: nat)
    requires k <= 12
    ensures |Joined(Regions(p)[..k])| == RegionStart(p, k)
    decreases k
  {
    if k > 0 {
      StartOfRegion(p, k - 1);
      assert Regions(p)[..k][..k - 1] == Regions(p)[..k - 1];
    }
  }

  lemma RegionAt(p: Parts, k: nat)
    requires k < 12
    ensures At(Encoded(p), RegionStart(p, k), Regions(p)[k])
  {
    PieceAt(Regions(p), k);
    StartOfRegion(p, k);
  }

  // ---- where everything stands ----

  /** Word `i` of a list of words that starts at `start`. */
  lemma {:induction false} WordInside(bytes: seq<byte>, start: nat, vs: seq<u32>, i: nat)
    requires At(bytes, start, WordsBytes(vs)) == true && i < |vs|
    ensures At(bytes, start + 4 * i, LittleEndian.Bytes(vs[i], 4)) == true
    decreases |vs|
  {
    var last := |vs| - 1;
    AtSplits(bytes, start, WordsBytes(vs[..last]), LittleEndian.Bytes(vs[last], 4));
    if i < last {
      WordInside(bytes, start, vs[..last], i);
    }
  }

  /** The two's complement bytes of a coefficient. */
  function CoefficientBytes(v: i32): (r: seq<byte>)
    ensures r == LittleEndian.Bytes(Unsigned(v), 4)
  {
    LittleEndian.Spans248();
    LittleEndian.SignedBytes(v, 4)
  }

  lemma SignedOffset(v: i64)
    ensures LittleEndian.FitsSigned(v, 8) && LittleEndian.SignedBytes(v, 8) == OffsetBytes(v)
  {
    LittleEndian.Spans248();
  }

  /** The format byte, the two digests, the nonce or zeros, and the two counts. */
  lemma HeadLayout(p: Parts)
    requires |p.nodeIds| < U32 && |p.edges| < U32
    ensures At(Encoded(p), 0, [1]) && At(Encoded(p), 1, p.descriptorDigest) && At(Encoded(p), 33, p.topologyDigest)
    ensures At(Encoded(p), 65, if p.nonce.Some? then p.nonce.value else seq(32, _ => 0))
    ensures At(Encoded(p), 97, LittleEndian.Bytes(|p.nodeIds|, 4))
    ensures At(Encoded(p), 101 + 4 * |p.nodeIds|, LittleEndian.Bytes(|p.edges|, 4))
  {
    for k := 0 to 4
      invariant forall i :: 0 <= i < k ==> At(Encoded(p), RegionStart(p, i), Regions(p)[i])
    {
      RegionAt(p, k);
    }
    assert At(Encoded(p), RegionStart(p, 0), Regions(p)[0]) && At(Encoded(p), RegionStart(p, 1), Regions(p)[1]);
    assert At(Encoded(p), RegionStart(p, 2), Regions(p)[2]) && At(Encoded(p), RegionStart(p, 3), Regions(p)[3]);
    assert Zeros() == seq(32, _ => 0);
    RegionAt(p, 4);
    WordInside(Encoded(p), 97, [Count(|p.nodeIds|)], 0);
    RegionAt(p, 6);
    WordInside(Encoded(p), 101 + 4 * |p.nodeIds|, [Count(|p.edges|)], 0);
  }

  /** The node ids, word by word. */
  lemma NodeLayout(p: Parts, i: nat)
    requires i < |p.nodeIds|
    ensures At(Encoded(p), 101 + 4 * i, LittleEndian.Bytes(p.nodeIds[i], 4))
  {
    RegionAt(p, 5);
    WordInside(Encoded(p), 101, p.nodeIds, i);
  }

  /** The two ends of every edge, word by word. */
  lemma EdgeLayout(p: Parts, i: nat)
    requires i < |p.edges|
    ensures At(Encoded(p), 105 + 4 * |p.nodeIds| + 8 * i, LittleEndian.Bytes(p.edges[i].a, 4))
    ensures At(Encoded(p), 109 + 4 * |p.nodeIds| + 8 * i, LittleEndian.Bytes(p.edges[i].b, 4))
  {
    var start := 105 + 4 * |p.nodeIds|;
    RegionAt(p, 7);
    WordInside(Encoded(p), start, EndsOf(p.edges), 2 * i);
    WordInside(Encoded(p), start, EndsOf(p.edges), 2 * i + 1);
    assert start + 4 * (2 * i) == start + 8 * i && start + 4 * (2 * i + 1) == start + 4 + 8 * i;
  }

  /** The fields, then the couplings, word by word. */
  lemma CoefficientLayout(p: Parts, i: nat)
    ensures var start := 105 + 4 * |p.nodeIds| + 8 * |p.edges|;
            && (i < |p.h| ==> At(Encoded(p), start + 4 * i, CoefficientBytes(p.h[i])))
            && (i < |p.j| ==> At(Encoded(p), start + 4 * |p.h| + 4 * i, CoefficientBytes(p.j[i])))
  {
    if i < |p.h| {
      RegionAt(p, 8);
      WordInside(Encoded(p), 105 + 4 * |p.nodeIds| + 8 * |p.edges|, Coefficients(p.h), i);
    }
    if i < |p.j| {
      RegionAt(p, 9);
      WordInside(Encoded(p), 105 + 4 * |p.nodeIds| + 8 * |p.edges| + 4 * |p.h|, Coefficients(p.j), i);
    }
  }

  /** The offset and the metadata come last. */
  lemma TailLayout(p: Parts)
    ensures var end := 105 + 4 * |p.nodeIds| + 8 * |p.edges| + 4 * |p.h| + 4 * |p.j|;
            && LittleEndian.FitsSigned(p.offset, 8) && At(Encoded(p), end, LittleEndian.SignedBytes(p.offset, 8))
            && At(Encoded(p), end + 8, p.metadata)
  {
    RegionAt(p, 10);
    RegionAt(p, 11);
    SignedOffset(p.offset);
  }

  /** With matching lengths, the canonical length is the length of the encoding. */
  lemma LengthIsExact(p: Parts)
    requires |p.h| == |p.nodeIds| && |p.j| == |p.edges|
    ensures |Encoded(p)| == CanonicalLength(p)
  {
    StartOfRegion(p, 12);
    assert Regions(p)[..12] == Regions(p);
  }

  // ---- the encoding is injective ----

  lemma SameAt(c: seq<byte>, pos: nat, a: seq<byte>, b: seq<byte>)
    requires At(c, pos, a) && At(c, pos, b) && |a| == |b|
    ensures a == b
  {
    assert forall i :: 0 <= i < |a| ==> a[i] == c[pos + i] == b[i];
  }

  lemma {:induction false} WordsInjective(vs: seq<u32>, ws: seq<u32>)
    requires WordsBytes(vs) == WordsBytes(ws)
    ensures vs == ws
    decreases |vs|
  {
    assert |vs| == |ws|;
    if vs != [] {
      var last := |vs| - 1;
      var v, w := LittleEndian.Bytes(vs[last], 4), LittleEndian.Bytes(ws[last], 4);
      var front, other := WordsBytes(vs[..last]), WordsBytes(ws[..last]);
      TailsAgree(front, v, other, w);
      WordsInjective(vs[..last], ws[..last]);
      LittleEndian.Spans248();
      LittleEndian.ValueOfBytes(vs[last], 4);
      LittleEndian.ValueOfBytes(ws[last], 4);
      assert vs == vs[..last] + [vs[last]] && ws == ws[..last] + [ws[last]];
    }
  }

  lemma TailsAgree(a: seq<byte>, x: seq<byte>, b: seq<byte>, y: seq<byte>)
    requires a + x == b + y && |a| == |b|
    ensures a == b && x == y
  {
    assert a == (a + x)[..|a|] && b == (b + y)[..|b|];
    assert x == (a + x)[|a|..] && y == (b + y)[|b|..];
  }

  lemma EndsInjective(a: seq<Link>, b: seq<Link>)
    requires EndsOf(a) == EndsOf(b)
    ensures a == b
  {
    assert |a| == |b|;
    forall i | 0 <= i < |a|
      ensures a[i] == b[i]
    {
      assert EndsOf(a)[2 * i] == EndsOf(b)[2 * i] && EndsOf(a)[2 * i + 1] == EndsOf(b)[2 * i + 1];
    }
  }

  lemma CoefficientsInjective(a: seq<i32>, b: seq<i32>)
    requires Coefficients(a) == Coefficients(b)
    ensures a == b
  {
    assert |a| == |b|;
    forall i | 0 <= i < |a|
      ensures a[i] == b[i]
    {
      assert Coefficients(a)[i] == Coefficients(b)[i];
    }
  }

  lemma OffsetInjective(v: i64, w: i64)
    requires OffsetBytes(v) == OffsetBytes(w)
    ensures v == w
  {
    LittleEndian.Spans248();
    LittleEndian.ValueOfBytes(if v < 0 then v + U64 else v, 8);
    LittleEndian.ValueOfBytes(if w < 0 then w + U64 else w, 8);
  }

  /** Lengths that belong together and fit their counts. */
  ghost predicate Sized(p: Parts) {
    |p.h| == |p.nodeIds| < U32 && |p.j| == |p.edges| < U32
  }

  lemma SameCounts(p: Parts, q: Parts)
    requires Sized(p) && Sized(q) && Encoded(p) == Encoded(q)
    ensures |p.nodeIds| == |q.nodeIds| && |p.edges| == |q.edges| && |p.metadata| == |q.metadata|
  {
    var c := Encoded(p);
    RegionAt(p, 4);
    RegionAt(q, 4);
    SameAt(c, 97, Regions(p)[4], Regions(q)[4]);
    WordsInjective([Count(|p.nodeIds|)], [Count(|q.nodeIds|)]);
    RegionAt(p, 6);
    RegionAt(q, 6);
    SameAt(c, RegionStart(p, 6), Regions(p)[6], Regions(q)[6]);
    WordsInjective([Count(|p.edges|)], [Count(|q.edges|)]);
    LengthIsExact(p);
    LengthIsExact(q);
  }

  lemma SameRegion(p: Parts, q: Parts, k: nat)
    requires Sized(p) && Sized(q) && Encoded(p) == Encoded(q) && k < 12
    ensures Regions(p)[k] == Regions(q)[k]
  {
    SameCounts(p, q);
    RegionAt(p, k);
    RegionAt(q, k);
    assert RegionStart(p, k) == RegionStart(q, k);
    assert |Regions(p)[k]| == |Regions(q)[k]|;
    SameAt(Encoded(p), RegionStart(p, k), Regions(p)[k], Regions(q)[k]);
  }

  /** The parts agree, an absent nonce counting as thirty-two zero bytes. */
  ghost predicate Agree(p: Parts, q: Parts) {
    && p.descriptorDigest == q.descriptorDigest && p.topologyDigest == q.topologyDigest
    && NonceBytes(p) == NonceBytes(q) && p.nodeIds == q.nodeIds && p.edges == q.edges
    && p.h == q.h && p.j == q.j && p.offset == q.offset && p.metadata == q.metadata
  }

  /** Equal canonical bytes come from parts that agree, and only from them. */
  lemma EncodingIsInjective(p: Parts, q: Parts)
    requires Sized(p) && Sized(q)
    ensures Encoded(p) == Encoded(q) <==> Agree(p, q)
  {
    if Encoded(p) == Encoded(q) {
      forall k: nat | k < 12
        ensures Regions(p)[k] == Regions(q)[k]
      {
        SameRegion(p, q, k);
      }
      FromRegions(p, q);
    }
  }

  lemma FromRegions(p: Parts, q: Parts)
    requires forall k: nat :: k < 12 ==> Regions(p)[k] == Regions(q)[k]
    ensures Agree(p, q)
  {
    assert Regions(p)[1] == Regions(q)[1] && Regions(p)[2] == Regions(q)[2] && Regions(p)[3] == Regions(q)[3];
    assert Regions(p)[5] == Regions(q)[5] && Regions(p)[7] == Regions(q)[7];
    assert Regions(p)[8] == Regions(q)[8] && Regions(p)[9] == Regions(q)[9];
    assert Regions(p)[10] == Regions(q)[10] && Regions(p)[11] == Regions(q)[11];
    WordsInjective(p.nodeIds, q.nodeIds);
    WordsInjective(EndsOf(p.edges), EndsOf(q.edges));
    EndsInjective(p.edges, q.edges);
    WordsInjective(Coefficients(p.h), Coefficients(q.h));
    CoefficientsInjective(p.h, q.h);
    WordsInjective(Coefficients(p.j), Coefficients(q.j));
    CoefficientsInjective(p.j, q.j);
    OffsetInjective(p.offset, q.offset);
  }
}

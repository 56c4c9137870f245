/** Building a validated instance: the order of the checks, the digest, and what acceptance guarantees. */
module Validation {
  import opened BlobItems
  import opened Common
  import opened Digest
  import opened Instance
  import LittleEndian
  import opened Machine
  import Metadata

  const CONTEXT := "quip family instance v1"

  datatype Validated = Validated(parts: Parts, canonicalLen: nat)

  // ---- the checks ----

  predicate Magnitude(v: int, max: int) {
    -max <= v <= max
  }

  predicate WithinBounds(p: Parts, l: Limits) {
    && |p.nodeIds| <= l.nodes && |p.edges| <= l.edges && |p.metadata| <= l.metadata
    && (forall i :: 0 <= i < |p.h| ==> Magnitude(p.h[i], l.coefficient))
    && (forall i :: 0 <= i < |p.j| ==> Magnitude(p.j[i], l.coefficient))
    && Magnitude(p.offset, l.offset)
  }

  /** Some edge leaves the node range or does not point upwards, or some edge is not below the next one. */
  predicate EdgesFaulty(p: Parts) {
    || (exists i :: 0 <= i < |p.edges| && (p.edges[i].a >= |p.nodeIds| || p.edges[i].b >= |p.nodeIds|))
    || (exists i :: 0 <= i < |p.edges| && p.edges[i].a >= p.edges[i].b)
    || (exists i :: 0 < i < |p.edges| && !PairBelow(p.edges[i - 1], p.edges[i]))
  }

  function DigestOf(p: Parts, hash: Hash): seq<byte> {
    hash(CONTEXT, Encoded(p))
  }

  /** The first failing check decides. */
  function New(p: Parts, l: Limits, kinds: seq<nat>, sent: Option<bytes32>, hash: Hash): Result<Validated, Code> {
    if !WithinBounds(p, l) then Err(BoundsExceeded)
    else if |p.h| != |p.nodeIds| || |p.j| != |p.edges| then Err(InstanceDigestMismatch)
    else if EdgesFaulty(p) then Err(InstanceDigestMismatch)
    else if sent.Some? && sent.value != DigestOf(p, hash) then Err(InstanceDigestMismatch)
    else if Metadata.Layout(p.metadata, kinds).None? then Err(MetadataInvalid)
    else if CanonicalLength(p) >= U64 then Err(BoundsExceeded)
    else Ok(Validated(p, CanonicalLength(p)))
  }

  // ---- what acceptance means ----

  /** All pairs are ordered, not only neighbours, so edges are distinct and sorted. */
  ghost predicate EdgesSorted(p: Parts) {
    && (forall i :: 0 <= i < |p.edges| ==> p.edges[i].a < p.edges[i].b < |p.nodeIds|)
    && (forall i, j :: 0 <= i < j < |p.edges| ==> PairBelow(p.edges[i], p.edges[j]))
  }

  lemma {:induction false} NeighboursSuffice(p: Parts, i: nat, j: nat)
    requires !EdgesFaulty(p) && i < j < |p.edges|
    ensures PairBelow(p.edges[i], p.edges[j])
    decreases j
  {
    if i < j - 1 {
      NeighboursSuffice(p, i, j - 1);
    }
    assert PairBelow(p.edges[j - 1], p.edges[j]);
  }

  lemma EdgesMeaning(p: Parts)
    ensures EdgesFaulty(p) <==> !EdgesSorted(p)
  {
    if !EdgesFaulty(p) {
      forall i: nat, j: nat | i < j < |p.edges|
        ensures PairBelow(p.edges[i], p.edges[j])
      {
        NeighboursSuffice(p, i, j);
      }
    }
  }

  lemma AllWithin(vs: seq<int>, top: nat)
    ensures (forall i :: 0 <= i < |vs| ==> Magnitude(vs[i], top)) <==> forall v :: v in vs ==> v <= top && -v <= top
  {
    if forall v :: v in vs ==> v <= top && -v <= top {
      forall i | 0 <= i < |vs| ensures Magnitude(vs[i], top) {
        assert vs[i] in vs;
      }
    }
  }

  /** The bounds: on the three sizes, on each coefficient, and on the offset, in magnitude. */
  lemma BoundsMeaning(p: Parts, l: Limits)
    ensures WithinBounds(p, l) <==>
      && |p.nodeIds| <= l.nodes && |p.edges| <= l.edges && |p.metadata| <= l.metadata
      && (forall v :: v in p.h ==> v <= l.coefficient && -v <= l.coefficient)
      && (forall v :: v in p.j ==> v <= l.coefficient && -v <= l.coefficient)
      && p.offset <= l.offset && 0 <= p.offset + l.offset
  {
    AllWithin(p.h, l.coefficient);
    AllWithin(p.j, l.coefficient);
  }

  /** The bounds come first, then lengths, edges, and digest under one code, then the metadata. */
  lemma CodesExactly(p: Parts, l: Limits, kinds: seq<nat>, sent: Option<bytes32>, hash: Hash)
    requires WithinFam37(l)
    ensures var r := New(p, l, kinds, sent, hash);
            var digestFits := |p.h| == |p.nodeIds| && |p.j| == |p.edges| && EdgesSorted(p) && (sent.Some? ==> sent.value == DigestOf(p, hash));
            && (r == Err(BoundsExceeded) <==> !WithinBounds(p, l))
            && (r == Err(InstanceDigestMismatch) <==> WithinBounds(p, l) && !digestFits)
            && (r == Err(MetadataInvalid) <==> WithinBounds(p, l) && digestFits && Metadata.Layout(p.metadata, kinds).None?)
  {
    EdgesMeaning(p);
  }

  /** Acceptance is exactly bounds, matching lengths, sorted edges, the sent digest, and a metadata layout; the length check cannot fail. */
  lemma AcceptedExactly(p: Parts, l: Limits, kinds: seq<nat>, sent: Option<bytes32>, hash: Hash)
    requires WithinFam37(l)
    ensures New(p, l, kinds, sent, hash).Ok? <==>
      && WithinBounds(p, l) && |p.h| == |p.nodeIds| && |p.j| == |p.edges| && EdgesSorted(p)
      && (sent.Some? ==> sent.value == DigestOf(p, hash)) && Metadata.Layout(p.metadata, kinds).Some?
  {
    EdgesMeaning(p);
  }

  /** An accepted instance records the length of its canonical bytes, and its counts fit 32 bits. */
  lemma RecordsItsLength(p: Parts, l: Limits, kinds: seq<nat>, sent: Option<bytes32>, hash: Hash)
    requires WithinFam37(l) && New(p, l, kinds, sent, hash).Ok?
    ensures Sized(p) && New(p, l, kinds, sent, hash).value.canonicalLen == |Encoded(p)|
  {
    LengthIsExact(p);
  }

  // ---- the streamed digest ----

  /** One put for each word. */
  function WordPieces(vs: seq<u32>): seq<seq<byte>> {
    if vs == [] then [] else WordPieces(vs[..|vs| - 1]) + [LittleEndian.Bytes(vs[|vs| - 1], 4)]
  }

  lemma {:induction false} WordPiecesJoin(vs: seq<u32>)
    ensures Joined(WordPieces(vs)) == WordsBytes(vs)
    decreases |vs|
  {
    if vs != [] {
      var front := WordPieces(vs[..|vs| - 1]);
      WordPiecesJoin(vs[..|vs| - 1]);
      assert WordPieces(vs)[..|front|] == front;
    }
  }

  /** The puts of the encoder, region by region: fixed regions whole, lists one word at a time. */
  function Puts(p: Parts, k: nat): seq<seq<byte>>
    requires k < 12
  {
    match k
    case 5 => WordPieces(p.nodeIds)
    case 7 => WordPieces(EndsOf(p.edges))
    case 8 => WordPieces(Coefficients(p.h))
    case 9 => WordPieces(Coefficients(p.j))
    case _ => [Regions(p)[k]]
  }

  lemma PutsJoin(p: Parts, k: nat)
    requires k < 12
    ensures Joined(Puts(p, k)) == Regions(p)[k]
  {
    match k
    case 5 => WordPiecesJoin(p.nodeIds);
    case 7 => WordPiecesJoin(EndsOf(p.edges));
    case 8 => WordPiecesJoin(Coefficients(p.h));
    case 9 => WordPiecesJoin(Coefficients(p.j));
    case _ =>
      assert Puts(p, k)[..0] == [];
  }

  function AllPuts(p: Parts, k: nat): seq<seq<byte>>
    requires k <= 12
  {
    if k == 0 then [] else AllPuts(p, k - 1) + Puts(p, k - 1)
  }

  lemma {:induction false} AllPutsJoin(p: Parts, k: nat)
    requires k <= 12
    ensures Joined(AllPuts(p, k)) == Joined(Regions(p)[..k])
    decreases k
  {
    if k > 0 {
      AllPutsJoin(p, k - 1);
      PutsJoin(p, k - 1);
      JoinedSplits(AllPuts(p, k - 1), Puts(p, k - 1));
      assert Regions(p)[..k][..k - 1] == Regions(p)[..k - 1];
    }
  }

  /** Streaming the encoder's puts through the buffered hasher gives the digest of the canonical bytes. */
  method StreamedDigest(p: Parts, hash: Hash) returns (digest: seq<byte>)
    ensures digest == DigestOf(p, hash)
  {
    AllPutsJoin(p, 12);
    assert Regions(p)[..12] == Regions(p);
    digest := DigestOfPieces(hash, CONTEXT, AllPuts(p, 12));
  }

  /** Appending the puts to a vector gives the canonical bytes. */
  method CanonicalBytes(p: Parts) returns (out: seq<byte>)
    ensures out == Encoded(p)
  {
    out := [];
    var puts := AllPuts(p, 12);
    for k := 0 to |puts|
      invariant out == Joined(puts[..k])
    {
      assert puts[..k + 1][..k] == puts[..k];
      out := out + puts[k];
    }
    AllPutsJoin(p, 12);
    assert puts[..|puts|] == puts && Regions(p)[..12] == Regions(p);
  }
}

/** The metadata region: a section count, then sections with strictly ascending kinds. */
module Metadata {
  import opened Common
  import opened Instance
  import LittleEndian
  import opened Machine
  import opened Varint

  datatype Section = Section(kind: nat, payload: seq<byte>)

  function ReadU16(region: seq<byte>, at: nat): Option<nat> {
    if at + 2 <= |region| then Some(LittleEndian.Value(region[at..at + 2])) else None
  }

  function ReadU32(region: seq<byte>, at: nat): Option<nat> {
    if at + 4 <= |region| then Some(LittleEndian.Value(region[at..at + 4])) else None
  }

  predicate KindFits(kind: nat, last: nat, kinds: seq<nat>) {
    last < kind <= MAX_KIND && kind in kinds
  }

  /** The section at `pos`: header, registered and ascending kind, payload inside the region. */
  function ReadSection(region: seq<byte>, pos: nat, last: nat, kinds: seq<nat>): Option<Read<Section>> {
    match (ReadU16(region, pos), ReadU32(region, pos + 2))
    case (Some(kind), Some(length)) =>
      if !KindFits(kind, last, kinds) || pos + 6 + length > |region| then None
      else Some(Read(Section(kind, region[pos + 6..pos + 6 + length]), pos + 6 + length))
    case _ => None
  }

  function ReadSections(region: seq<byte>, pos: nat, left: nat, last: nat, kinds: seq<nat>): Option<Read<seq<Section>>>
    decreases left
  {
    if left == 0 then Some(Read([], pos))
    else
      match ReadSection(region, pos, last, kinds)
      case None => None
      case Some(one) =>
        match ReadSections(region, one.end, left - 1, one.value.kind, kinds)
        case None => None
        case Some(rest) => Some(Read([one.value] + rest.value, rest.end))
  }

  /** The sections of an accepted region. */
  function Layout(region: seq<byte>, kinds: seq<nat>): Option<seq<Section>> {
    match ReadU16(region, 0)
    case None => None
    case Some(count) =>
      match ReadSections(region, 2, count, 0, kinds)
      case None => None
      case Some(all) => if all.end == |region| then Some(all.value) else None
  }

  // ---- what is accepted ----

  function SectionBytes(s: Section): seq<byte> {
    (LittleEndian.Bytes(s.kind, 2) + LittleEndian.Bytes(|s.payload|, 4)) + s.payload
  }

  function SectionsBytes(ss: seq<Section>): seq<byte>
    decreases ss
  {
    if ss == [] then [] else SectionBytes(ss[0]) + SectionsBytes(ss[1..])
  }

  function RegionBytes(ss: seq<Section>): seq<byte> {
    LittleEndian.Bytes(|ss|, 2) + SectionsBytes(ss)
  }

  /** Kinds ascend from above `last`, each registered and listed by the contract. */
  ghost predicate Ordered(ss: seq<Section>, last: nat, kinds: seq<nat>)
    decreases ss
  {
    ss == [] || (KindFits(ss[0].kind, last, kinds) && |ss[0].payload| < U32 && Ordered(ss[1..], ss[0].kind, kinds))
  }

  lemma NumberAt(region: seq<byte>, pos: nat, v: nat, width: nat)
    requires v < LittleEndian.Span(width)
    ensures At(region, pos, LittleEndian.Bytes(v, width)) <==>
            pos + width <= |region| && LittleEndian.Value(region[pos..pos + width]) == v
  {
    var w := LittleEndian.Bytes(v, width);
    LittleEndian.ValueOfBytes(v, width);
    if pos + width <= |region| {
      var here := region[pos..pos + width];
      LittleEndian.BytesOfValue(here);
      if At(region, pos, w) {
        assert here == w;
      }
    }
  }

  lemma SectionHeaderAt(region: seq<byte>, pos: nat, kind: nat, len: nat)
    requires kind < 0x1_0000 && len < U32
    ensures At(region, pos, LittleEndian.Bytes(kind, 2) + LittleEndian.Bytes(len, 4)) <==>
            ReadU16(region, pos) == Some(kind) && ReadU32(region, pos + 2) == Some(len)
  {
    var a, b := LittleEndian.Bytes(kind, 2), LittleEndian.Bytes(len, 4);
    LittleEndian.Spans248();
    NumberAt(region, pos, kind, 2);
    NumberAt(region, pos + 2, len, 4);
    if At(region, pos, a + b) {
      AtSplits(region, pos, a, b);
    } else if At(region, pos, a) && At(region, pos + 2, b) {
      AtJoins(region, pos, a, b);
    }
  }

  lemma SectionReadsBack(region: seq<byte>, pos: nat, s: Section, last: nat, kinds: seq<nat>)
    requires KindFits(s.kind, last, kinds) && |s.payload| < U32 && At(region, pos, SectionBytes(s))
    ensures ReadSection(region, pos, last, kinds) == Some(Read(s, pos + |SectionBytes(s)|))
  {
    var header := LittleEndian.Bytes(s.kind, 2) + LittleEndian.Bytes(|s.payload|, 4);
    AtSplits(region, pos, header, s.payload);
    SectionHeaderAt(region, pos, s.kind, |s.payload|);
    assert region[pos + 6..pos + 6 + |s.payload|] == s.payload;
  }

  lemma SectionIsCanonical(region: seq<byte>, pos: nat, last: nat, kinds: seq<nat>)
    requires ReadSection(region, pos, last, kinds).Some?
    ensures var r := ReadSection(region, pos, last, kinds).value;
            && KindFits(r.value.kind, last, kinds) && |r.value.payload| < U32
            && Spans(region, pos, r.end, SectionBytes(r.value))
  {
    var r := ReadSection(region, pos, last, kinds).value;
    var s := r.value;
    LittleEndian.BytesOfValue(region[pos + 2..pos + 6]);
    LittleEndian.Spans248();
    SectionHeaderAt(region, pos, s.kind, |s.payload|);
    AtJoins(region, pos, LittleEndian.Bytes(s.kind, 2) + LittleEndian.Bytes(|s.payload|, 4), s.payload);
  }

  lemma {:induction false} SectionsReadBack(region: seq<byte>, pos: nat, ss: seq<Section>, last: nat, kinds: seq<nat>, end: nat)
    requires Ordered(ss, last, kinds) && Spans(region, pos, end, SectionsBytes(ss))
    ensures ReadSections(region, pos, |ss|, last, kinds) == Some(Read(ss, end))
    decreases ss
  {
    if ss != [] {
      AtSplits(region, pos, SectionBytes(ss[0]), SectionsBytes(ss[1..]));
      SectionReadsBack(region, pos, ss[0], last, kinds);
      var mid := pos + |SectionBytes(ss[0])|;
      SectionsReadBack(region, mid, ss[1..], ss[0].kind, kinds, end);
      SectionsRead(region, pos, ss, last, kinds, mid, end);
    }
  }

  lemma SectionsRead(region: seq<byte>, pos: nat, ss: seq<Section>, last: nat, kinds: seq<nat>, mid: nat, end: nat)
    requires ss != [] && ReadSection(region, pos, last, kinds) == Some(Read(ss[0], mid))
    requires ReadSections(region, mid, |ss| - 1, ss[0].kind, kinds) == Some(Read(ss[1..], end))
    ensures ReadSections(region, pos, |ss|, last, kinds) == Some(Read(ss, end))
  {
    assert [ss[0]] + ss[1..] == ss;
  }

  /** The sections read from `pos` on are written there. */
  ghost predicate Canonical(region: seq<byte>, pos: nat, left: nat, last: nat, kinds: seq<nat>, r: Read<seq<Section>>) {
    |r.value| == left && Ordered(r.value, last, kinds) && Spans(region, pos, r.end, SectionsBytes(r.value))
  }

  lemma CanonicalJoins(region: seq<byte>, pos: nat, left: nat, last: nat, kinds: seq<nat>, one: Read<Section>, rest: Read<seq<Section>>)
    requires KindFits(one.value.kind, last, kinds) && |one.value.payload| < U32 && Spans(region, pos, one.end, SectionBytes(one.value))
    requires Canonical(region, one.end, left, one.value.kind, kinds, rest)
    ensures Canonical(region, pos, left + 1, last, kinds, Read([one.value] + rest.value, rest.end))
  {
    assert ([one.value] + rest.value)[1..] == rest.value;
    AtJoins(region, pos, SectionBytes(one.value), SectionsBytes(rest.value));
  }

  lemma {:induction false} SectionsAreCanonical(region: seq<byte>, pos: nat, left: nat, last: nat, kinds: seq<nat>)
    requires pos <= |region| && ReadSections(region, pos, left, last, kinds).Some?
    ensures Canonical(region, pos, left, last, kinds, ReadSections(region, pos, left, last, kinds).value)
    decreases left
  {
    if left > 0 {
      var one := ReadSection(region, pos, last, kinds).value;
      SectionIsCanonical(region, pos, last, kinds);
      SectionsAreCanonical(region, one.end, left - 1, one.value.kind, kinds);
      CanonicalJoins(region, pos, left - 1, last, kinds, one, ReadSections(region, one.end, left - 1, one.value.kind, kinds).value);
    }
  }

  lemma AcceptedIsEncoded(region: seq<byte>, kinds: seq<nat>, ss: seq<Section>)
    requires Layout(region, kinds) == Some(ss)
    ensures |ss| < 0x1_0000 && Ordered(ss, 0, kinds) && region == RegionBytes(ss)
  {
    var count := LittleEndian.Value(region[0..2]);
    LittleEndian.Spans248();
    LittleEndian.BytesOfValue(region[0..2]);
    SectionsAreCanonical(region, 2, count, 0, kinds);
    NumberAt(region, 0, count, 2);
    AtJoins(region, 0, LittleEndian.Bytes(count, 2), SectionsBytes(ss));
    WholeIs(region, 0, RegionBytes(ss));
  }

  lemma EncodedIsAccepted(ss: seq<Section>, kinds: seq<nat>)
    requires |ss| < 0x1_0000 && Ordered(ss, 0, kinds)
    ensures Layout(RegionBytes(ss), kinds) == Some(ss)
  {
    var region := RegionBytes(ss);
    LittleEndian.Spans248();
    assert At(region, 0, region);
    AtSplits(region, 0, LittleEndian.Bytes(|ss|, 2), SectionsBytes(ss));
    NumberAt(region, 0, |ss|, 2);
    SectionsReadBack(region, 2, ss, 0, kinds, |region|);
  }

  /** The kinds ascend strictly from 1 to 6 and are in the contract. */
  lemma {:induction false} OrderedMeans(ss: seq<Section>, last: nat, kinds: seq<nat>)
    ensures Ordered(ss, last, kinds) <==>
      && (forall i :: 0 <= i < |ss| ==> last < ss[i].kind <= 6 && ss[i].kind in kinds && |ss[i].payload| < U32)
      && forall i, j :: 0 <= i < j < |ss| ==> ss[i].kind < ss[j].kind
    decreases ss
  {
    if ss != [] {
      OrderedMeans(ss[1..], ss[0].kind, kinds);
      assert ss == [ss[0]] + ss[1..];
      if forall i, j :: 0 <= i < j < |ss| ==> ss[i].kind < ss[j].kind {
        assert forall i :: 0 <= i < |ss[1..]| ==> ss[1..][i] == ss[i + 1];
      }
    }
  }

  /** A region is accepted exactly when it encodes sections whose kinds ascend, are registered, and are in the contract. */
  lemma AcceptsEncodedSections(region: seq<byte>, kinds: seq<nat>, ss: seq<Section>)
    ensures Layout(region, kinds) == Some(ss) <==> |ss| < 0x1_0000 && Ordered(ss, 0, kinds) && region == RegionBytes(ss)
  {
    if Layout(region, kinds) == Some(ss) {
      AcceptedIsEncoded(region, kinds, ss);
    }
    if |ss| < 0x1_0000 && Ordered(ss, 0, kinds) {
      EncodedIsAccepted(ss, kinds);
    }
  }

  // ---- the loop ----

  /** Whether the walk from here to the end of the region succeeds. */
  ghost predicate Succeeds(region: seq<byte>, pos: nat, left: nat, last: nat, kinds: seq<nat>) {
    ReadSections(region, pos, left, last, kinds).Some? && ReadSections(region, pos, left, last, kinds).value.end == |region|
  }

  method ValidateMetadata(region: seq<byte>, kinds: seq<nat>) returns (r: Result<(), Code>)
    ensures r == if Layout(region, kinds).Some? then Ok(()) else Err(MetadataInvalid)
  {
    var count := ReadU16(region, 0);
    if count.None? {
      return Err(MetadataInvalid);
    }
    var pos: nat, last: nat := 2, 0;
    for k := 0 to count.value
      invariant Layout(region, kinds).Some? <==> Succeeds(region, pos, count.value - k, last, kinds)
    {
      var kind, length := ReadU16(region, pos), ReadU32(region, pos + 2);
      if kind.None? || length.None? {
        return Err(MetadataInvalid);
      }
      pos := pos + 6;
      if kind.value == 0 || kind.value > MAX_KIND || kind.value !in kinds || kind.value <= last {
        return Err(MetadataInvalid);
      }
      last := kind.value;
      var end := pos + length.value;
      if end > |region| {
        return Err(MetadataInvalid);
      }
      pos := end;
    }
    return if pos == |region| then Ok(()) else Err(MetadataInvalid);
  }
}

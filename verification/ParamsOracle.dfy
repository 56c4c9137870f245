/** The oracle's codec: packing values, and decoding through the tag table. */
module ParamsOracle {
  import opened Common
  import LittleEndian
  import opened Machine
  import opened ParamTypes
  import opened ParamsLockstep
  import opened ParamsParser
  import opened ParamsTable
  import opened Varint

  // ---- the layout loop ----

  /** The raw values by tag; later fields of the list would win. */
  function RawMap(es: seq<Entry>): map<nat, seq<byte>> {
    if es == [] then map[] else RawMap(es[..|es| - 1])[es[|es| - 1].tag := es[|es| - 1].raw]
  }

  /** The fields `es` have been read and the rest starts at `pos`. */
  ghost predicate Pending(schema: seq<Field>, data: seq<byte>, es: seq<Entry>, pos: nat, previous: nat)
    requires WellFormed(schema)
  {
    match Entries(schema, data, pos, previous)
    case None => Entries(schema, data, 1, 0).None?
    case Some(rest) => Entries(schema, data, 1, 0) == Some(es + rest)
  }

  lemma PendingStarts(schema: seq<Field>, data: seq<byte>)
    requires WellFormed(schema)
    ensures Pending(schema, data, [], 1, 0)
  {
    var all := Entries(schema, data, 1, 0);
    assert all.Some? ==> [] + all.value == all.value;
  }

  lemma PendingSteps(schema: seq<Field>, data: seq<byte>, es: seq<Entry>, pos: nat, previous: nat)
    requires WellFormed(schema) && pos < |data| && Pending(schema, data, es, pos, previous)
    ensures match NextEntry(schema, data, pos, previous)
            case None => Entries(schema, data, 1, 0).None?
            case Some(one) => Pending(schema, data, es + [one.value], one.end, one.value.tag)
  {
    var next := NextEntry(schema, data, pos, previous);
    if next.Some? {
      var rest := Entries(schema, data, next.value.end, next.value.value.tag);
      if rest.Some? {
        assert es + ([next.value.value] + rest.value) == (es + [next.value.value]) + rest.value;
      }
    }
  }

  lemma PendingEnds(schema: seq<Field>, data: seq<byte>, es: seq<Entry>, pos: nat, previous: nat)
    requires WellFormed(schema) && pos >= |data| && Pending(schema, data, es, pos, previous)
    ensures Entries(schema, data, 1, 0) == Some(es)
  {
    assert es + [] == es;
  }

  /** What the map holds: one entry for each field read, all tags up to the last. */
  ghost predicate Collected(es: seq<Entry>, raws: map<nat, seq<byte>>, previous: nat) {
    raws == RawMap(es) && |raws| == |es| && forall tag :: tag in raws ==> tag <= previous
  }

  lemma CollectedGrows(es: seq<Entry>, raws: map<nat, seq<byte>>, previous: nat, e: Entry)
    requires Collected(es, raws, previous) && previous < e.tag
    ensures Collected(es + [e], raws[e.tag := e.raw], e.tag)
  {
    assert (es + [e])[..|es|] == es;
    assert raws[e.tag := e.raw].Keys == raws.Keys + {e.tag};
  }

  /** Unpacks and checks the field at `pos`. */
  method ReadEntry(byTag: map<nat, Field>, data: seq<byte>, start: nat, previous: nat, ghost schema: seq<Field>)
    returns (r: Option<Read<Entry>>)
    requires WellFormed(schema) && byTag == Table(schema)
    ensures r == NextEntry(schema, data, start, previous)
  {
    if start + 6 > |data| {
      return None;
    }
    var tag := LittleEndian.Value(data[start..start + 2]);
    var len := LittleEndian.Value(data[start + 2..start + 6]);
    var pos := start + 6;
    if tag <= previous || tag !in byTag || pos + len > |data| {
      return None;
    }
    var raw := data[pos..pos + len];
    return if RawFits(byTag[tag].kind, raw) then Some(Read(Entry(tag, raw), pos + len)) else None;
  }

  method LayoutLoop(schema: seq<Field>, data: seq<byte>) returns (r: Option<map<nat, seq<byte>>>)
    requires WellFormed(schema)
    ensures match TableLayout(schema, data)
            case None => r.None?
            case Some(es) => r == Some(RawMap(es))
  {
    if |data| > MAX_PARAMS_LEN || data == [] || data[0] != FORMAT {
      return None;
    }
    var byTag := Table(schema);
    var raws: map<nat, seq<byte>> := map[];
    var pos, previous := 1, 0;
    ghost var es: seq<Entry> := [];
    PendingStarts(schema, data);
    while pos < |data|
      invariant Pending(schema, data, es, pos, previous) == true
      invariant Collected(es, raws, previous)
      decreases |data| - pos
    {
      PendingSteps(schema, data, es, pos, previous);
      var next := ReadEntry(byTag, data, pos, previous, schema);
      if next.None? {
        return None;
      }
      var e := next.value.value;
      CollectedGrows(es, raws, previous, e);
      es := es + [e];
      raws := raws[e.tag := e.raw];
      pos, previous := next.value.end, e.tag;
    }
    PendingEnds(schema, data, es, pos, previous);
    TableSize(schema);
    return if |raws| != |byTag| then None else Some(raws);
  }

  lemma TableSize(schema: seq<Field>)
    requires WellFormed(schema)
    ensures |Table(schema)| == |schema|
  {
    var tags := Tags(schema);
    DistinctCard(tags);
    forall tag
      ensures tag in Table(schema) <==> tag in tags
    {
      if tag in Table(schema) {
        var k := TagInTable(schema, tag);
        assert tags[k] == tag;
      }
      if tag in tags {
        var k :| 0 <= k < |schema| && tags[k] == tag;
        TableAt(schema, k);
      }
    }
    assert Table(schema).Keys == Elements(tags);
  }

  // ---- decoding ----

  lemma {:induction false} RawOfTag(es: seq<Entry>, k: nat)
    requires k < |es| && forall i, j :: 0 <= i < j < |es| ==> es[i].tag != es[j].tag
    ensures es[k].tag in RawMap(es) && RawMap(es)[es[k].tag] == es[k].raw
    decreases |es|
  {
    var last := |es| - 1;
    if k < last {
      RawOfTag(es[..last], k);
    }
  }

  lemma RawOfField(schema: seq<Field>, raws: seq<seq<byte>>, k: nat)
    requires WellFormed(schema) && |raws| == |schema| && k < |schema|
    ensures var m := RawMap(Paired(schema, raws)); schema[k].tag in m && m[schema[k].tag] == raws[k]
  {
    RawOfTag(Paired(schema, raws), k);
  }

  /** Decodes and checks each field in schema order. */
  method DecodeFields(schema: seq<Field>, raws: map<nat, seq<byte>>, ghost all: seq<seq<byte>>) returns (r: Result<seq<Value>, Code>)
    requires AllFit(schema, all)
    requires forall k :: 0 <= k < |schema| ==> schema[k].tag in raws && raws[schema[k].tag] == all[k]
    ensures r == if AllInBounds(schema, all) then Ok(DecodedAll(schema, all)) else Err(ParamsOutOfBounds)
  {
    var values: seq<Value> := [];
    for k := 0 to |schema|
      invariant |values| == k && forall i :: 0 <= i < k ==> values[i] == DecodedValue(schema[i].kind, all[i])
      invariant forall i :: 0 <= i < k ==> InBounds(schema[i], all[i])
    {
      var field := schema[k];
      var value := DecodedValue(field.kind, raws[field.tag]);
      if !(field.min <= Measured(value) <= field.max) {
        assert !InBounds(schema[k], all[k]);
        return Err(ParamsOutOfBounds);
      }
      values := values + [value];
    }
    assert values == DecodedAll(schema, all);
    return Ok(values);
  }

  /** Layout first, then bounds. */
  method DecodeParams(schema: seq<Field>, data: seq<byte>) returns (r: Result<seq<Value>, Code>)
    requires WellFormed(schema)
    ensures r == Verdict(schema, data)
  {
    var raws := LayoutLoop(schema, data);
    ParsersAgree(schema, data);
    if raws.None? {
      return Err(ParamsMalformed);
    }
    ghost var all := Layout(schema, data).value;
    LayoutAcceptsEncodings(schema, data, all);
    forall k: nat | k < |schema|
      ensures schema[k].tag in raws.value && raws.value[schema[k].tag] == all[k]
    {
      RawOfField(schema, all, k);
    }
    r := DecodeFields(schema, raws.value, all);
  }

  // ---- encoding ----

  ghost predicate AllPack(schema: seq<Field>, values: seq<Value>) {
    |schema| == |values| && forall i :: 0 <= i < |values| ==> Packs(schema[i].kind, values[i])
  }

  ghost function PackedAll(schema: seq<Field>, values: seq<Value>): (r: seq<seq<byte>>)
    requires AllPack(schema, values)
    ensures |r| == |values| && forall i :: 0 <= i < |values| ==> r[i] == PackedValue(schema[i].kind, values[i])
  {
    seq(|values|, i requires 0 <= i < |values| => PackedValue(schema[i].kind, values[i]))
  }

  lemma {:induction false} FieldsGrow(schema: seq<Field>, raws: seq<seq<byte>>, k: nat)
    requires |schema| == |raws| && k < |schema|
    ensures EncodedFields(schema[..k + 1], raws[..k + 1])
         == EncodedFields(schema[..k], raws[..k]) + EncodedField(schema[k].tag, raws[k])
    decreases k
  {
    var s, t := schema[..k + 1], raws[..k + 1];
    if k == 0 {
      assert s[1..] == [] && t[1..] == [];
    } else {
      FieldsGrow(schema[1..], raws[1..], k - 1);
      assert s[1..] == schema[1..][..k] && t[1..] == raws[1..][..k];
      assert schema[..k][1..] == schema[1..][..k - 1] && raws[..k][1..] == raws[1..][..k - 1];
    }
  }

  lemma EncodingGrows(schema: seq<Field>, raws: seq<seq<byte>>, k: nat, out: seq<byte>)
    requires |schema| == |raws| && k < |schema| && out == [FORMAT] + EncodedFields(schema[..k], raws[..k])
    ensures out + EncodedField(schema[k].tag, raws[k]) == [FORMAT] + EncodedFields(schema[..k + 1], raws[..k + 1])
  {
    FieldsGrow(schema, raws, k);
  }

  /** A value is of the sort its field asks for, whatever its size. */
  predicate OfKind(kind: Kind, value: Value) {
    match value
    case Number(_) => kind.IsInteger()
    case Truth(_) => kind.Bool?
    case Blob(_) => kind.Bytes? || kind.Ascii?
  }

  /** The tag, the value, and the length of its bytes fit the widths they are packed into. */
  predicate FitsWidths(field: Field, value: Value): (fits: bool)
    ensures fits <==> field.tag <= 65535 && Packs(field.kind, value) && |PackedValue(field.kind, value)| <= 4294967295
  {
    field.tag < 0x1_0000 && Packs(field.kind, value) && |PackedValue(field.kind, value)| < U32
  }

  /**
   * Packs the values in schema order and checks nothing beyond packing: nothing comes out
   * exactly when something overflows its width.
   */
  method EncodeParams(schema: seq<Field>, values: seq<Value>) returns (r: Option<seq<byte>>)
    requires |schema| == |values| && forall i :: 0 <= i < |values| ==> OfKind(schema[i].kind, values[i])
    ensures r.Some? <==> forall i :: 0 <= i < |values| ==> FitsWidths(schema[i], values[i])
    ensures r.Some? ==> AllPack(schema, values) && r.value == Encoded(schema, PackedAll(schema, values))
  {
    var out: seq<byte> := [FORMAT];
    for k := 0 to |schema|
      invariant AllPack(schema[..k], values[..k]) && out == Encoded(schema[..k], PackedAll(schema[..k], values[..k]))
      invariant forall i :: 0 <= i < k ==> FitsWidths(schema[i], values[i])
    {
      if !FitsWidths(schema[k], values[k]) {
        return None;
      }
      var raw := PackedValue(schema[k].kind, values[k]);
      ghost var raws := PackedAll(schema[..k + 1], values[..k + 1]);
      assert PackedAll(schema[..k], values[..k]) == raws[..k] && schema[..k + 1][..k] == schema[..k];
      EncodingGrows(schema[..k + 1], raws, k, out);
      assert schema[..k + 1][..k + 1] == schema[..k + 1] && raws[..k + 1] == raws;
      out := out + EncodedField(schema[k].tag, raw);
    }
    assert schema[..|schema|] == schema && values[..|values|] == values;
    return Some(out);
  }

  /** Accepted bytes are what encoding their values gives. */
  lemma EncodeInvertsDecode(schema: seq<Field>, data: seq<byte>)
    requires WellFormed(schema) && Verdict(schema, data).Ok?
    ensures var values := Verdict(schema, data).value;
            AllPack(schema, values) && Encoded(schema, PackedAll(schema, values)) == data
  {
    var raws := Layout(schema, data).value;
    var values := Verdict(schema, data).value;
    LayoutAcceptsEncodings(schema, data, raws);
    forall i | 0 <= i < |raws|
      ensures Packs(schema[i].kind, values[i]) && PackedValue(schema[i].kind, values[i]) == raws[i]
    {
      RawRoundTrip(schema[i].kind, raws[i]);
    }
    assert PackedAll(schema, values) == raws;
  }

  ghost predicate Admissible(field: Field, value: Value) {
    && Packs(field.kind, value) && (field.kind.Ascii? ==> Printable(value.bytes))
    && field.min <= Measured(value) <= field.max
  }

  /** Values within bounds whose encoding is not too long are decoded from it. */
  lemma DecodeInvertsEncode(schema: seq<Field>, values: seq<Value>)
    requires WellFormed(schema) && AllPack(schema, values)
    requires forall i :: 0 <= i < |values| ==> Admissible(schema[i], values[i])
    requires |Encoded(schema, PackedAll(schema, values))| <= MAX_PARAMS_LEN
    ensures Verdict(schema, Encoded(schema, PackedAll(schema, values))) == Ok(values)
  {
    var raws := PackedAll(schema, values);
    forall i | 0 <= i < |raws|
      ensures RawFits(schema[i].kind, raws[i]) && DecodedValue(schema[i].kind, raws[i]) == values[i] && InBounds(schema[i], raws[i])
    {
      assert Admissible(schema[i], values[i]);
      ValueRoundTrip(schema[i].kind, values[i]);
    }
    LayoutAcceptsEncodings(schema, Encoded(schema, raws), raws);
    assert DecodedAll(schema, raws) == values;
  }
}

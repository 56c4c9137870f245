/** The lockstep parser: schema and encoded fields are walked together. */
module ParamsLockstep {
  import opened Common
  import LittleEndian
  import opened Machine
  import opened ParamTypes
  import opened Varint

  datatype Code = ParamsMalformed | ParamsOutOfBounds

  /** The payload of a field at `pos`, and the position after it. */
  function ReadField(field: Field, bytes: seq<byte>, pos: nat): Option<Read<seq<byte>>> {
    if pos + 6 > |bytes| then None
    else
      var tag := LittleEndian.Value(bytes[pos..pos + 2]);
      var len := LittleEndian.Value(bytes[pos + 2..pos + 6]);
      if tag != field.tag || pos + 6 + len > |bytes| then None
      else
        var raw := bytes[pos + 6..pos + 6 + len];
        if RawFits(field.kind, raw) then Some(Read(raw, pos + 6 + len)) else None
  }

  function ReadFields(schema: seq<Field>, bytes: seq<byte>, pos: nat): Option<Read<seq<seq<byte>>>>
    decreases schema
  {
    if schema == [] then Some(Read([], pos))
    else
      match ReadField(schema[0], bytes, pos)
      case None => None
      case Some(one) =>
        match ReadFields(schema[1..], bytes, one.end)
        case None => None
        case Some(rest) => Some(Read([one.value] + rest.value, rest.end))
  }

  /** The raw values of an input whose layout is accepted. */
  function Layout(schema: seq<Field>, bytes: seq<byte>): Option<seq<seq<byte>>> {
    if |bytes| > MAX_PARAMS_LEN || bytes == [] || bytes[0] != FORMAT then None
    else
      match ReadFields(schema, bytes, 1)
      case None => None
      case Some(all) => if all.end == |bytes| then Some(all.value) else None
  }

  // ---- what is accepted ----

  lemma HeaderValues(tag: nat, len: nat, bytes: seq<byte>, pos: nat)
    requires tag < 0x1_0000 && len < U32 && At(bytes, pos, Header(tag, len))
    ensures pos + 6 <= |bytes|
    ensures LittleEndian.Value(bytes[pos..pos + 2]) == tag && LittleEndian.Value(bytes[pos + 2..pos + 6]) == len
  {
    var a, b := LittleEndian.Bytes(tag, 2), LittleEndian.Bytes(len, 4);
    AtSplits(bytes, pos, a, b);
    assert bytes[pos..pos + 2] == a && bytes[pos + 2..pos + 6] == b;
    LittleEndian.Spans248();
    LittleEndian.ValueOfBytes(tag, 2);
    LittleEndian.ValueOfBytes(len, 4);
  }

  lemma HeaderStands(bytes: seq<byte>, pos: nat)
    requires pos + 6 <= |bytes|
    ensures var tag, len := LittleEndian.Value(bytes[pos..pos + 2]), LittleEndian.Value(bytes[pos + 2..pos + 6]);
            tag < 0x1_0000 && len < U32 && At(bytes, pos, Header(tag, len))
  {
    var a, b := bytes[pos..pos + 2], bytes[pos + 2..pos + 6];
    LittleEndian.Spans248();
    LittleEndian.BytesOfValue(a);
    LittleEndian.BytesOfValue(b);
    AtJoins(bytes, pos, a, b);
  }

  lemma FieldReadsBack(field: Field, raw: seq<byte>, bytes: seq<byte>, pos: nat)
    requires field.tag < 0x1_0000 && |raw| < U32 && RawFits(field.kind, raw)
    requires At(bytes, pos, EncodedField(field.tag, raw))
    ensures ReadField(field, bytes, pos) == Some(Read(raw, pos + |EncodedField(field.tag, raw)|))
  {
    AtSplits(bytes, pos, Header(field.tag, |raw|), raw);
    HeaderValues(field.tag, |raw|, bytes, pos);
    assert bytes[pos + 6..pos + 6 + |raw|] == raw;
  }

  lemma FieldIsCanonical(field: Field, bytes: seq<byte>, pos: nat)
    requires ReadField(field, bytes, pos).Some?
    ensures var r := ReadField(field, bytes, pos).value;
            && RawFits(field.kind, r.value) && |r.value| < U32
            && Spans(bytes, pos, r.end, EncodedField(field.tag, r.value))
  {
    var r := ReadField(field, bytes, pos).value;
    HeaderStands(bytes, pos);
    AtJoins(bytes, pos, Header(field.tag, |r.value|), r.value);
  }

  lemma {:induction false} FieldsReadBack(schema: seq<Field>, raws: seq<seq<byte>>, bytes: seq<byte>, pos: nat, end: nat)
    requires AllFit(schema, raws) && |bytes| <= MAX_PARAMS_LEN && Spans(bytes, pos, end, EncodedFields(schema, raws))
    requires forall i :: 0 <= i < |schema| ==> schema[i].tag < 0x1_0000
    ensures ReadFields(schema, bytes, pos) == Some(Read(raws, end))
    decreases schema
  {
    if schema != [] {
      var head, tail := EncodedField(schema[0].tag, raws[0]), EncodedFields(schema[1..], raws[1..]);
      AtSplits(bytes, pos, head, tail);
      FieldReadsBack(schema[0], raws[0], bytes, pos);
      FieldsReadBack(schema[1..], raws[1..], bytes, pos + |head|, end);
      FieldsRead(schema, raws, bytes, pos, pos + |head|, end);
    }
  }

  lemma FieldsRead(schema: seq<Field>, raws: seq<seq<byte>>, bytes: seq<byte>, pos: nat, mid: nat, end: nat)
    requires schema != [] && raws != [] && ReadField(schema[0], bytes, pos) == Some(Read(raws[0], mid))
    requires ReadFields(schema[1..], bytes, mid) == Some(Read(raws[1..], end))
    ensures ReadFields(schema, bytes, pos) == Some(Read(raws, end))
  {
    assert [raws[0]] + raws[1..] == raws;
  }

  lemma {:induction false} FieldsAreCanonical(schema: seq<Field>, bytes: seq<byte>, pos: nat)
    requires pos <= |bytes| && ReadFields(schema, bytes, pos).Some?
    ensures var r := ReadFields(schema, bytes, pos).value;
            AllFit(schema, r.value) && Spans(bytes, pos, r.end, EncodedFields(schema, r.value))
    decreases schema
  {
    if schema != [] {
      var r := ReadFields(schema, bytes, pos).value;
      var one := ReadField(schema[0], bytes, pos).value;
      FieldIsCanonical(schema[0], bytes, pos);
      FieldsAreCanonical(schema[1..], bytes, one.end);
      var rest := ReadFields(schema[1..], bytes, one.end).value;
      assert r.value[1..] == rest.value;
      AtJoins(bytes, pos, EncodedField(schema[0].tag, one.value), EncodedFields(schema[1..], rest.value));
    }
  }

  /** The layout check accepts exactly the canonical encodings of fitting raw values. */
  lemma LayoutAcceptsEncodings(schema: seq<Field>, bytes: seq<byte>, raws: seq<seq<byte>>)
    requires WellFormed(schema)
    ensures Layout(schema, bytes) == Some(raws) <==>
            AllFit(schema, raws) && |bytes| <= MAX_PARAMS_LEN && bytes == Encoded(schema, raws)
  {
    if Layout(schema, bytes) == Some(raws) {
      FieldsAreCanonical(schema, bytes, 1);
      WholeIs(bytes, 1, EncodedFields(schema, raws));
      assert bytes == [bytes[0]] + bytes[1..];
    }
    if AllFit(schema, raws) && |bytes| <= MAX_PARAMS_LEN && bytes == Encoded(schema, raws) {
      AtSplits(bytes, 0, [FORMAT], EncodedFields(schema, raws));
      FieldsReadBack(schema, raws, bytes, 1, |bytes|);
    }
  }
}

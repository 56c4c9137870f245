/** The lockstep parser as the code runs it: an iterator over the fields, three walks over it. */
module ParamsParser {
  import opened Common
  import LittleEndian
  import opened Machine
  import opened ParamTypes
  import opened ParamsLockstep
  import opened Varint

  /** Yields the checked payload of one schema field after the other. */
  class Fields {
    const schema: seq<Field>
    const bytes: seq<byte>
    var at: nat
    var pos: nat

    ghost predicate Valid()
      reads this
    {
      at <= |schema| && pos <= |bytes|
    }

    constructor (schema: seq<Field>, bytes: seq<byte>)
      requires bytes != []
      ensures Valid() && this.schema == schema && this.bytes == bytes && at == 0 && pos == 1
    {
      this.schema := schema;
      this.bytes := bytes;
      at := 0;
      pos := 1;
    }

    method ReadNext() returns (r: Result<seq<byte>, Code>)
      requires Valid() && at < |schema|
      modifies this
      ensures Valid() && at == old(at) + 1
      ensures match ReadField(schema[old(at)], bytes, old(pos))
              case None => r == Err(ParamsMalformed)
              case Some(x) => r == Ok(x.value) && pos == x.end
    {
      var field := schema[at];
      at := at + 1;
      if pos + 6 > |bytes| {
        return Err(ParamsMalformed);
      }
      var tag := LittleEndian.Value(bytes[pos..pos + 2]);
      var len := LittleEndian.Value(bytes[pos + 2..pos + 6]);
      if tag != field.tag || pos + 6 + len > |bytes| {
        return Err(ParamsMalformed);
      }
      var raw := bytes[pos + 6..pos + 6 + len];
      if !RawFits(field.kind, raw) {
        return Err(ParamsMalformed);
      }
      pos := pos + 6 + len;
      return Ok(raw);
    }
  }

  /** The fields `raws` have been read and the rest starts at `pos`. */
  ghost predicate Progress(schema: seq<Field>, bytes: seq<byte>, raws: seq<seq<byte>>, pos: nat) {
    && |raws| <= |schema|
    && match ReadFields(schema[|raws|..], bytes, pos)
       case None => ReadFields(schema, bytes, 1).None?
       case Some(rest) => ReadFields(schema, bytes, 1) == Some(Read(raws + rest.value, rest.end))
  }

  lemma ProgressStarts(schema: seq<Field>, bytes: seq<byte>)
    ensures Progress(schema, bytes, [], 1)
  {
    assert schema[0..] == schema;
    var all := ReadFields(schema, bytes, 1);
    assert all.Some? ==> [] + all.value.value == all.value.value;
  }

  lemma ProgressSteps(schema: seq<Field>, bytes: seq<byte>, raws: seq<seq<byte>>, pos: nat)
    requires Progress(schema, bytes, raws, pos) && |raws| < |schema|
    ensures match ReadField(schema[|raws|], bytes, pos)
            case None => ReadFields(schema, bytes, 1).None?
            case Some(x) => Progress(schema, bytes, raws + [x.value], x.end)
  {
    var left := schema[|raws|..];
    assert left[0] == schema[|raws|] && left[1..] == schema[|raws| + 1..];
    var one := ReadField(schema[|raws|], bytes, pos);
    if one.Some? {
      var rest := ReadFields(left[1..], bytes, one.value.end);
      if rest.Some? {
        assert raws + ([one.value.value] + rest.value.value) == (raws + [one.value.value]) + rest.value.value;
      }
    }
  }

  lemma ProgressEnds(schema: seq<Field>, bytes: seq<byte>, raws: seq<seq<byte>>, pos: nat)
    requires Progress(schema, bytes, raws, pos) && |raws| == |schema|
    ensures ReadFields(schema, bytes, 1) == Some(Read(raws, pos))
  {
    assert raws + [] == raws;
  }

  /** Checks the layout, field by field, then the end of the input. */
  method Parse(schema: seq<Field>, bytes: seq<byte>) returns (r: Result<(), Code>)
    ensures r == if Layout(schema, bytes).Some? then Ok(()) else Err(ParamsMalformed)
  {
    if |bytes| > MAX_PARAMS_LEN || bytes == [] || bytes[0] != FORMAT {
      return Err(ParamsMalformed);
    }
    var fields := new Fields(schema, bytes);
    ghost var raws: seq<seq<byte>> := [];
    ProgressStarts(schema, bytes);
    while fields.at < |schema|
      invariant fields.Valid() && fields.at == |raws|
      invariant Progress(schema, bytes, raws, fields.pos) == true
    {
      ProgressSteps(schema, bytes, raws, fields.pos);
      var raw :- fields.ReadNext();
      raws := raws + [raw];
    }
    ProgressEnds(schema, bytes, raws, fields.pos);
    return if fields.pos != |bytes| then Err(ParamsMalformed) else Ok(());
  }

  // ---- the walks over accepted input ----

  predicate Starts(bytes: seq<byte>) {
    |bytes| <= MAX_PARAMS_LEN && bytes != [] && bytes[0] == FORMAT
  }

  /** The first field from `pos` on that is malformed or out of bounds decides. */
  function CheckFields(schema: seq<Field>, bytes: seq<byte>, pos: nat): Result<(), Code>
    decreases schema
  {
    if schema == [] then Ok(())
    else
      match ReadField(schema[0], bytes, pos)
      case None => Err(ParamsMalformed)
      case Some(x) => if InBounds(schema[0], x.value) then CheckFields(schema[1..], bytes, x.end) else Err(ParamsOutOfBounds)
  }

  /** The value of the first field with a tag. */
  function FindField(schema: seq<Field>, bytes: seq<byte>, pos: nat, tag: nat): Option<Value>
    decreases schema
  {
    if schema == [] then None
    else
      match ReadField(schema[0], bytes, pos)
      case None => None
      case Some(x) =>
        if schema[0].tag == tag then Some(DecodedValue(schema[0].kind, x.value)) else FindField(schema[1..], bytes, x.end, tag)
  }

  lemma {:induction false} ChecksAllBounds(schema: seq<Field>, bytes: seq<byte>, pos: nat)
    requires pos <= |bytes| && ReadFields(schema, bytes, pos).Some?
    ensures var raws := ReadFields(schema, bytes, pos).value.value;
            AllFit(schema, raws) && CheckFields(schema, bytes, pos) == if AllInBounds(schema, raws) then Ok(()) else Err(ParamsOutOfBounds)
    decreases schema
  {
    if schema != [] {
      var raws := ReadFields(schema, bytes, pos).value.value;
      var one := ReadField(schema[0], bytes, pos).value;
      ChecksAllBounds(schema[1..], bytes, one.end);
      BoundsOfRest(schema, raws);
    }
  }

  lemma BoundsOfRest(schema: seq<Field>, raws: seq<seq<byte>>)
    requires |schema| == |raws| > 0 && RawFits(schema[0].kind, raws[0]) && AllFit(schema[1..], raws[1..])
    ensures AllFit(schema, raws)
    ensures AllInBounds(schema, raws) <==> InBounds(schema[0], raws[0]) && AllInBounds(schema[1..], raws[1..])
  {
    forall i | 0 <= i < |raws|
      ensures RawFits(schema[i].kind, raws[i])
    {
      assert i > 0 ==> schema[i] == schema[1..][i - 1] && raws[i] == raws[1..][i - 1];
    }
    if InBounds(schema[0], raws[0]) && AllInBounds(schema[1..], raws[1..]) {
      forall i | 0 <= i < |raws|
        ensures InBounds(schema[i], raws[i])
      {
        assert i > 0 ==> InBounds(schema[1..][i - 1], raws[1..][i - 1]);
      }
    }
    if AllInBounds(schema, raws) {
      forall i | 0 <= i < |raws[1..]|
        ensures InBounds(schema[1..][i], raws[1..][i])
      {
        assert InBounds(schema[i + 1], raws[i + 1]);
      }
    }
  }

  /** On accepted input, a tag of the schema gets its decoded value and any other tag gets none. */
  lemma {:induction false} FindsTheField(schema: seq<Field>, bytes: seq<byte>, pos: nat, tag: nat)
    requires WellFormed(schema) && pos <= |bytes| && ReadFields(schema, bytes, pos).Some?
    ensures var raws := ReadFields(schema, bytes, pos).value.value;
            && AllFit(schema, raws)
            && (forall i :: 0 <= i < |schema| && schema[i].tag == tag ==>
                 FindField(schema, bytes, pos, tag) == Some(DecodedValue(schema[i].kind, raws[i])))
            && ((forall i :: 0 <= i < |schema| ==> schema[i].tag != tag) ==> FindField(schema, bytes, pos, tag).None?)
    decreases schema
  {
    FieldsAreCanonical(schema, bytes, pos);
    if schema != [] {
      var raws := ReadFields(schema, bytes, pos).value.value;
      var one := ReadField(schema[0], bytes, pos).value;
      FieldIsCanonical(schema[0], bytes, pos);
      FindsTheField(schema[1..], bytes, one.end, tag);
      assert forall i :: 0 < i < |schema| ==> schema[i] == schema[1..][i - 1] && raws[i] == raws[1..][i - 1];
    }
  }

  /** Walks the fields and checks each value against its bounds. */
  method CheckBounds(schema: seq<Field>, bytes: seq<byte>) returns (r: Result<(), Code>)
    ensures r == if Starts(bytes) then CheckFields(schema, bytes, 1) else Err(ParamsMalformed)
  {
    if !Starts(bytes) {
      return Err(ParamsMalformed);
    }
    var fields := new Fields(schema, bytes);
    assert schema[0..] == schema;
    while fields.at < |schema|
      invariant fields.Valid()
      invariant CheckFields(schema, bytes, 1) == CheckFields(schema[fields.at..], bytes, fields.pos)
    {
      var field := schema[fields.at];
      assert schema[fields.at..][1..] == schema[fields.at + 1..];
      var raw :- fields.ReadNext();
      if !(field.min <= Measured(DecodedValue(field.kind, raw)) <= field.max) {
        return Err(ParamsOutOfBounds);
      }
    }
    return Ok(());
  }

  method Get(schema: seq<Field>, bytes: seq<byte>, tag: nat) returns (r: Option<Value>)
    ensures r == if Starts(bytes) then FindField(schema, bytes, 1, tag) else None
  {
    if !Starts(bytes) {
      return None;
    }
    var fields := new Fields(schema, bytes);
    assert schema[0..] == schema;
    while fields.at < |schema|
      invariant fields.Valid()
      invariant FindField(schema, bytes, 1, tag) == FindField(schema[fields.at..], bytes, fields.pos, tag)
    {
      var field := schema[fields.at];
      assert schema[fields.at..][1..] == schema[fields.at + 1..];
      var raw := fields.ReadNext();
      if raw.Err? {
        return None;
      }
      if field.tag == tag {
        return Some(DecodedValue(field.kind, raw.value));
      }
    }
    return None;
  }

  // ---- the verdict ----

  /** Layout first, then bounds; the values of the fields in schema order when both pass. */
  function DecodedAll(schema: seq<Field>, raws: seq<seq<byte>>): (r: seq<Value>)
    requires |schema| == |raws| && forall i :: 0 <= i < |raws| ==> RawFits(schema[i].kind, raws[i])
  {
    seq(|raws|, i requires 0 <= i < |raws| => DecodedValue(schema[i].kind, raws[i]))
  }

  ghost function Verdict(schema: seq<Field>, bytes: seq<byte>): Result<seq<Value>, Code> {
    if Layout(schema, bytes).None? then Err(ParamsMalformed)
    else
      var raws := Layout(schema, bytes).value;
      if !AllFit(schema, raws) || !AllInBounds(schema, raws) then Err(ParamsOutOfBounds) else Ok(DecodedAll(schema, raws))
  }

  /** Parsing and then checking bounds gives the verdict. */
  method Admit(schema: seq<Field>, bytes: seq<byte>) returns (r: Result<(), Code>)
    ensures r.Ok? <==> Verdict(schema, bytes).Ok?
    ensures r.Err? ==> Verdict(schema, bytes) == Err(r.error)
  {
    var parsed :- Parse(schema, bytes);
    ChecksAllBounds(schema, bytes, 1);
    r := CheckBounds(schema, bytes);
  }
}

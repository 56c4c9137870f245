/** Parameter schemas and the canonical encoding both parsers read. */
module ParamTypes {
  import opened Common
  import LittleEndian
  import opened Machine
  import opened Varint

  const FORMAT: byte := 1
  const MAX_PARAMS_LEN := 4096

  datatype Kind = U8 | U16 | U32Kind | U64Kind | I32 | I64 | Bool | Bytes | Ascii {
    predicate IsInteger() {
      !(Bool? || Bytes? || Ascii?)
    }

    predicate IsSigned() {
      I32? || I64?
    }

    /** The exact width of a fixed-width kind. */
    function Width(): Option<nat> {
      match this
      case U8 | Bool => Some(1)
      case U16 => Some(2)
      case U32Kind | I32 => Some(4)
      case U64Kind | I64 => Some(8)
      case Bytes | Ascii => None
    }
  }

  datatype Field = Field(tag: nat, kind: Kind, min: int, max: int)

  /** Tags fit 16 bits, start above zero, and ascend. */
  ghost predicate WellFormed(schema: seq<Field>) {
    && (forall i :: 0 <= i < |schema| ==> 1 <= schema[i].tag < 0x1_0000)
    && (forall i, j :: 0 <= i < j < |schema| ==> schema[i].tag < schema[j].tag)
  }

  predicate Printable(raw: seq<byte>) {
    forall i :: 0 <= i < |raw| ==> 0x20 <= raw[i] <= 0x7e
  }

  /** The bytes a field of a kind may hold. */
  predicate RawFits(kind: Kind, raw: seq<byte>) {
    && (kind.Width().Some? ==> |raw| == kind.Width().value)
    && (kind.Bool? ==> raw == [0] || raw == [1])
    && (kind.Ascii? ==> Printable(raw))
  }

  // ---- the encoding ----

  function Header(tag: nat, len: nat): seq<byte> {
    LittleEndian.Bytes(tag, 2) + LittleEndian.Bytes(len, 4)
  }

  function EncodedField(tag: nat, raw: seq<byte>): seq<byte> {
    Header(tag, |raw|) + raw
  }

  function EncodedFields(schema: seq<Field>, raws: seq<seq<byte>>): seq<byte>
    requires |schema| == |raws|
    decreases |schema|
  {
    if schema == [] then [] else EncodedField(schema[0].tag, raws[0]) + EncodedFields(schema[1..], raws[1..])
  }

  function Encoded(schema: seq<Field>, raws: seq<seq<byte>>): seq<byte>
    requires |schema| == |raws|
  {
    [FORMAT] + EncodedFields(schema, raws)
  }

  ghost predicate AllFit(schema: seq<Field>, raws: seq<seq<byte>>) {
    |schema| == |raws| && forall i :: 0 <= i < |raws| ==> RawFits(schema[i].kind, raws[i])
  }

  // ---- values ----

  /** A value as the oracle holds it: an integer, a truth value, or bytes. */
  datatype Value = Number(n: int) | Truth(b: bool) | Blob(bytes: seq<byte>)

  function DecodedValue(kind: Kind, raw: seq<byte>): Value
    requires RawFits(kind, raw)
  {
    if kind.IsInteger() then Number(if kind.IsSigned() then LittleEndian.SignedValue(raw) else LittleEndian.Value(raw))
    else if kind.Bool? then Truth(raw[0] == 1)
    else Blob(raw)
  }

  /** The number the bounds apply to. */
  function Measured(value: Value): int {
    match value
    case Number(n) => n
    case Truth(b) => if b then 1 else 0
    case Blob(bytes) => |bytes|
  }

  predicate InBounds(field: Field, raw: seq<byte>)
    requires RawFits(field.kind, raw)
  {
    field.min <= Measured(DecodedValue(field.kind, raw)) <= field.max
  }

  ghost predicate AllInBounds(schema: seq<Field>, raws: seq<seq<byte>>)
    requires AllFit(schema, raws)
  {
    forall i :: 0 <= i < |raws| ==> InBounds(schema[i], raws[i])
  }

  /** A value can be packed as a kind. */
  predicate Packs(kind: Kind, value: Value) {
    match value
    case Number(n) =>
      kind.IsInteger() &&
      if kind.IsSigned() then LittleEndian.FitsSigned(n, kind.Width().value) else 0 <= n < LittleEndian.Span(kind.Width().value)
    case Truth(_) => kind.Bool?
    case Blob(bytes) => kind.Bytes? || kind.Ascii?
  }

  function PackedValue(kind: Kind, value: Value): seq<byte>
    requires Packs(kind, value)
  {
    match value
    case Number(n) =>
      if kind.IsSigned() then LittleEndian.SignedBytes(n, kind.Width().value) else LittleEndian.Bytes(n, kind.Width().value)
    case Truth(b) => [if b then 1 else 0]
    case Blob(bytes) => bytes
  }

  /** The numbers each integer kind can hold. */
  lemma KindRanges(n: int)
    ensures Packs(U8, Number(n)) <==> 0 <= n <= 255
    ensures Packs(U16, Number(n)) <==> 0 <= n <= 65535
    ensures Packs(U32Kind, Number(n)) <==> 0 <= n <= 4294967295
    ensures Packs(U64Kind, Number(n)) <==> 0 <= n <= 18446744073709551615
    ensures Packs(I32, Number(n)) <==> -2147483648 <= n <= 2147483647
    ensures Packs(I64, Number(n)) <==> -9223372036854775808 <= n <= 9223372036854775807
  {
    LittleEndian.Spans248();
  }

  /** The bounds of a field apply to the number, to 0 or 1 for a truth value, and to the length of bytes. */
  lemma BoundsApplyTo(n: int, raw: seq<byte>)
    ensures Measured(Number(n)) == n && Measured(Truth(false)) == 0 && Measured(Truth(true)) == 1 && Measured(Blob(raw)) == |raw|
    ensures DecodedValue(Bool, [1]) == Truth(true) && DecodedValue(Bool, [0]) == Truth(false) && DecodedValue(Bytes, raw) == Blob(raw)
  {
  }

  /** The documented values: two layers and a field of -1500 milli. */
  lemma SampleValues()
    ensures Packs(U16, Number(2)) && PackedValue(U16, Number(2)) == [2, 0]
    ensures Packs(I32, Number(-1500)) && PackedValue(I32, Number(-1500)) == [0x24, 0xfa, 0xff, 0xff]
  {
    LittleEndian.Spans248();
    assert LittleEndian.Bytes(0xff_fffa, 3) == [0xfa] + LittleEndian.Bytes(0xffff, 2);
    assert LittleEndian.Bytes(0xffff, 2) == [0xff] + LittleEndian.Bytes(0xff, 1);
    assert LittleEndian.SignedBytes(-1500, 4) == [0x24] + LittleEndian.Bytes(0xff_fffa, 3);
    assert LittleEndian.Bytes(2, 2) == [2, 0];
  }

  lemma SampleField(tag: nat, raw: seq<byte>)
    requires tag < 256 && |raw| < 256
    ensures EncodedField(tag, raw) == [tag, 0, |raw|, 0, 0, 0] + raw
  {
    assert LittleEndian.Bytes(0, 3) == [0] + LittleEndian.Bytes(0, 2);
    assert LittleEndian.Bytes(0, 2) == [0] + LittleEndian.Bytes(0, 1);
    assert LittleEndian.Bytes(tag, 2) == [tag] + LittleEndian.Bytes(0, 1);
    assert LittleEndian.Bytes(|raw|, 4) == [|raw|] + LittleEndian.Bytes(0, 3);
  }

  lemma TwoFields(f: Field, g: Field, x: seq<byte>, y: seq<byte>)
    ensures Encoded([f, g], [x, y]) == [FORMAT] + (EncodedField(f.tag, x) + EncodedField(g.tag, y))
  {
    assert [f, g][1..] == [g] && [x, y][1..] == [y];
    assert [g][1..] == [] && [y][1..] == [];
    assert EncodedFields([g], [y]) == EncodedField(g.tag, y) + [];
    assert EncodedFields([f, g], [x, y]) == EncodedField(f.tag, x) + EncodedField(g.tag, y);
  }

  /** The documented parameters, byte for byte: the format, then tag, length, and value of each field. */
  lemma SampleEncoding(layers: Field, field: Field)
    requires layers.tag == 1 && field.tag == 2
    ensures Encoded([layers, field], [[2, 0], [0x24, 0xfa, 0xff, 0xff]]) ==
            [1, 1, 0, 2, 0, 0, 0, 2, 0, 2, 0, 4, 0, 0, 0, 0x24, 0xfa, 0xff, 0xff]
  {
    SampleField(1, [2, 0]);
    SampleField(2, [0x24, 0xfa, 0xff, 0xff]);
    TwoFields(layers, field, [2, 0], [0x24, 0xfa, 0xff, 0xff]);
  }

  /** Packing a value and decoding it are inverse, both ways. */
  lemma ValueRoundTrip(kind: Kind, value: Value)
    requires Packs(kind, value)
    ensures RawFits(kind, PackedValue(kind, value)) <==> (kind.Ascii? ==> Printable(value.bytes))
    ensures RawFits(kind, PackedValue(kind, value)) ==> DecodedValue(kind, PackedValue(kind, value)) == value
  {
    if value.Number? {
      if kind.IsSigned() {
        LittleEndian.SignedRoundTrip(value.n, kind.Width().value);
      } else {
        LittleEndian.ValueOfBytes(value.n, kind.Width().value);
      }
    }
  }

  lemma RawRoundTrip(kind: Kind, raw: seq<byte>)
    requires RawFits(kind, raw)
    ensures Packs(kind, DecodedValue(kind, raw)) && PackedValue(kind, DecodedValue(kind, raw)) == raw
  {
    if kind.IsInteger() {
      LittleEndian.BytesOfValue(raw);
      LittleEndian.SignedIsBytes(raw);
    }
  }
}

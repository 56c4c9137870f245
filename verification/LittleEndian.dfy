/** Fixed-width little-endian integers. */
module LittleEndian {
  import opened Machine
  import opened Varint

  /** 256 to the power `width`. */
  function Span(width: nat): nat {
    if width == 0 then 1 else 256 * Span(width - 1)
  }

  function Bytes(v: nat, width: nat): (r: seq<byte>)
    ensures |r| == width
    decreases width, v
  {
    if width == 0 then [] else [v % 256] + Bytes(v / 256, width - 1)
  }

  function Value(bytes: seq<byte>): nat {
    if bytes == [] then 0 else bytes[0] + 256 * Value(bytes[1..])
  }

  /** What is written is read back when it fits the width. */
  lemma {:induction false} ValueOfBytes(v: nat, width: nat)
    requires v < Span(width)
    ensures Value(Bytes(v, width)) == v
    decreases width
  {
    if width > 0 {
      ValueOfBytes(v / 256, width - 1);
      assert Bytes(v, width)[1..] == Bytes(v / 256, width - 1);
    }
  }

  /** Every byte string of a width is the writing of its value, which fits. */
  lemma {:induction false} BytesOfValue(bytes: seq<byte>)
    ensures Value(bytes) < Span(|bytes|) && Bytes(Value(bytes), |bytes|) == bytes
    decreases bytes
  {
    if bytes != [] {
      var rest := bytes[1..];
      BytesOfValue(rest);
      assert Value(bytes) / 256 == Value(rest) && Value(bytes) % 256 == bytes[0];
      assert bytes == [bytes[0]] + rest;
    }
  }

  lemma Spans248()
    ensures Span(1) == 256 && Span(2) == 0x1_0000 && Span(4) == U32 && Span(8) == U64
  {
    assert Span(3) == 0x100_0000;
    assert Span(4) == U32;
    assert Span(5) == 0x100_0000_0000;
    assert Span(6) == 0x1_0000_0000_0000;
    assert Span(7) == 0x100_0000_0000_0000;
  }

  // ---- two's complement ----

  predicate FitsSigned(v: int, width: nat) {
    2 * v < Span(width) && 0 <= 2 * v + Span(width)
  }

  function SignedBytes(v: int, width: nat): seq<byte>
    requires FitsSigned(v, width)
  {
    Bytes(if v < 0 then v + Span(width) else v, width)
  }

  function SignedValue(bytes: seq<byte>): int {
    var v := Value(bytes);
    if 2 * v < Span(|bytes|) then v else v - Span(|bytes|)
  }

  lemma SignedRoundTrip(v: int, width: nat)
    requires FitsSigned(v, width)
    ensures SignedValue(SignedBytes(v, width)) == v
  {
    ValueOfBytes(if v < 0 then v + Span(width) else v, width);
  }

  lemma SignedFold(v: nat, span: nat, signed: int)
    requires v < span && signed == if 2 * v < span then v else v - span
    ensures 2 * signed < span && 0 <= 2 * signed + span && v == if signed < 0 then signed + span else signed
  {
  }

  lemma SignedIsBytes(bytes: seq<byte>)
    requires bytes != []
    ensures FitsSigned(SignedValue(bytes), |bytes|) && SignedBytes(SignedValue(bytes), |bytes|) == bytes
  {
    BytesOfValue(bytes);
    SignedFold(Value(bytes), Span(|bytes|), SignedValue(bytes));
  }
}

/** Minimal base-128 varints and zigzag deltas, as the topology payload stores them. */
module Varint {
  import opened Common
  import opened Machine

  datatype BlobError = TooLarge | Magic | Version | Kind | BadVarint | Range | Order | NotLattice | Trailing

  /** A value read from a byte string, and the position after it. */
  datatype Read<+T> = Read(value: T, end: nat)

  // ---- the format ----

  /** Seven bits a byte, low group first, the top bit set on all but the last. */
  function VarintBytes(v: nat): seq<byte> {
    if v < 128 then [v] else [128 + v % 128] + VarintBytes(v / 128)
  }

  /** The weight of the group at `index`. */
  function Weight(index: nat): nat {
    if index == 0 then 1 else 128 * Weight(index - 1)
  }

  /** How many values the bits of a 64-bit word from group `index` on can hold. */
  function Room(index: nat): nat
    requires index <= 9
    decreases 9 - index
  {
    if index == 9 then 2 else 128 * Room(index + 1)
  }

  lemma {:induction false} WeightTimesRoom(index: nat)
    requires index <= 9
    ensures Weight(index) * Room(index) == U64 && Weight(index) > 0
  {
    if index == 0 {
      assert Room(7) == 128 * Room(8) && Room(8) == 128 * Room(9);
      assert Room(4) == 128 * Room(5) && Room(5) == 128 * Room(6) && Room(6) == 128 * Room(7);
      assert Room(1) == 128 * Room(2) && Room(2) == 128 * Room(3) && Room(3) == 128 * Room(4);
      assert Room(0) == 128 * Room(1);
    } else {
      WeightTimesRoom(index - 1);
      var w, room := Weight(index - 1), Room(index);
      assert w * (128 * room) == (128 * w) * room;
    }
  }

  /** What remains of a varint when the groups below `index` have been read. */
  function ReadGroups(bytes: seq<byte>, pos: nat, index: nat): Result<Read<nat>, BlobError>
    decreases |bytes| - pos
  {
    if index >= 10 || pos >= |bytes| then Err(BadVarint)
    else
      var group := bytes[pos] % 128;
      if group >= Room(index) then Err(BadVarint)
      else if bytes[pos] < 128 then
        if bytes[pos] == 0 && index > 0 then Err(BadVarint) else Ok(Read(group, pos + 1))
      else
        var rest :- ReadGroups(bytes, pos + 1, index + 1);
        Ok(Read(group + 128 * rest.value, rest.end))
  }

  function ReadVarint(bytes: seq<byte>, pos: nat): Result<Read<nat>, BlobError> {
    ReadGroups(bytes, pos, 0)
  }

  // ---- reading inverts writing ----

  /** The bytes `w` stand at `pos`. */
  ghost predicate At(bytes: seq<byte>, pos: nat, w: seq<byte>) {
    pos + |w| <= |bytes| && forall i {:trigger w[i]} :: 0 <= i < |w| ==> bytes[pos + i] == w[i]
  }

  /** Two pieces written in turn stand one after the other. */
  lemma AtSplits(bytes: seq<byte>, pos: nat, a: seq<byte>, b: seq<byte>)
    requires At(bytes, pos, a + b)
    ensures At(bytes, pos, a) && At(bytes, pos + |a|, b)
  {
    var w := a + b;
    forall i | 0 <= i < |a|
      ensures bytes[pos + i] == a[i]
    {
      assert a[i] == w[i];
    }
    forall i | 0 <= i < |b|
      ensures bytes[pos + |a| + i] == b[i]
    {
      assert b[i] == w[|a| + i];
    }
  }

  lemma AtJoins(bytes: seq<byte>, pos: nat, a: seq<byte>, b: seq<byte>)
    requires At(bytes, pos, a) && At(bytes, pos + |a|, b)
    ensures At(bytes, pos, a + b)
  {
    var w := a + b;
    forall i | 0 <= i < |w|
      ensures bytes[pos + i] == w[i]
    {
      assert i < |a| ==> w[i] == a[i];
      assert i >= |a| ==> w[i] == b[i - |a|];
    }
  }

  /** What stands from `pos` to the end is the rest of the bytes. */
  lemma WholeIs(bytes: seq<byte>, pos: nat, w: seq<byte>)
    requires At(bytes, pos, w) && pos + |w| == |bytes|
    ensures bytes[pos..] == w
  {
    assert forall i :: 0 <= i < |w| ==> bytes[pos + i] == w[i];
  }

  /** The bytes `w` stand at `pos` and end at `end`. */
  ghost predicate Spans(bytes: seq<byte>, pos: nat, end: nat, w: seq<byte>) {
    At(bytes, pos, w) && end == pos + |w|
  }

  lemma {:induction false} GroupsReadBack(v: nat, bytes: seq<byte>, pos: nat, index: nat)
    requires index <= 9 && v < Room(index) && (index > 0 ==> v > 0)
    requires At(bytes, pos, VarintBytes(v))
    ensures ReadGroups(bytes, pos, index) == Ok(Read(v, pos + |VarintBytes(v)|))
    decreases v
  {
    assert bytes[pos] == VarintBytes(v)[0];
    if v >= 128 {
      AtSplits(bytes, pos, [128 + v % 128], VarintBytes(v / 128));
      GroupsReadBack(v / 128, bytes, pos + 1, index + 1);
    }
  }

  /** A 64-bit value written as a varint is read back, wherever it stands. */
  lemma VarintReadsBack(v: nat, bytes: seq<byte>, pos: nat)
    requires v < U64 && At(bytes, pos, VarintBytes(v))
    ensures ReadVarint(bytes, pos) == Ok(Read(v, pos + |VarintBytes(v)|))
  {
    WeightTimesRoom(0);
    GroupsReadBack(v, bytes, pos, 0);
  }

  lemma {:induction false} GroupsAreMinimal(bytes: seq<byte>, pos: nat, index: nat)
    requires index <= 9 && ReadGroups(bytes, pos, index).Ok?
    ensures var r := ReadGroups(bytes, pos, index).value;
            r.value < Room(index) && (index > 0 ==> r.value > 0) && Spans(bytes, pos, r.end, VarintBytes(r.value))
    decreases 9 - index
  {
    var r := ReadGroups(bytes, pos, index).value;
    if bytes[pos] >= 128 {
      assert index < 9;
      var rest := ReadGroups(bytes, pos + 1, index + 1).value;
      GroupsAreMinimal(bytes, pos + 1, index + 1);
      assert r.value / 128 == rest.value && r.value % 128 == bytes[pos] % 128;
      AtJoins(bytes, pos, [bytes[pos]], VarintBytes(rest.value));
    }
  }

  /** Whatever is accepted is the one encoding of a 64-bit value. */
  lemma VarintIsMinimal(bytes: seq<byte>, pos: nat)
    requires ReadVarint(bytes, pos).Ok?
    ensures var r := ReadVarint(bytes, pos).value;
            r.value < U64 && Spans(bytes, pos, r.end, VarintBytes(r.value))
  {
    WeightTimesRoom(0);
    GroupsAreMinimal(bytes, pos, 0);
  }

  // ---- zigzag ----

  predicate FitsI64(x: int) {
    -I64_MAX - 1 <= x <= I64_MAX
  }

  function Zigzag(delta: int): nat
    requires FitsI64(delta)
  {
    if delta >= 0 then delta * 2 else (-delta - 1) * 2 + 1
  }

  function Unzigzag(value: nat): int {
    if value % 2 == 1 then -(value / 2) - 1 else value / 2
  }

  /** Zigzag is a bijection between the signed and the unsigned 64-bit values. */
  lemma ZigzagRoundTrip(delta: int, value: nat)
    requires FitsI64(delta) && value < U64
    ensures Zigzag(delta) < U64 && Unzigzag(Zigzag(delta)) == delta
    ensures FitsI64(Unzigzag(value)) && Zigzag(Unzigzag(value)) == value
  {
  }

  /** Deltas are numbered 0, -1, 1, -2, 2, and so on. */
  lemma ZigzagCounts(d: int)
    requires d >= 0 && FitsI64(d + 1)
    ensures Zigzag(0) == 0 && Zigzag(-1 - d) == Zigzag(d) + 1 && Zigzag(d + 1) == Zigzag(-1 - d) + 1
  {
  }

  /** The delta at `pos` added to `base`, with the overflow check of a signed 64-bit sum. */
  function ReadDelta(base: int, bytes: seq<byte>, pos: nat): Result<Read<int>, BlobError> {
    var v :- ReadVarint(bytes, pos);
    var sum := base + Unzigzag(v.value);
    if FitsI64(sum) then Ok(Read(sum, v.end)) else Err(Range)
  }

  lemma DeltaReadsBack(base: int, x: int, bytes: seq<byte>, pos: nat)
    requires FitsI64(x) && FitsI64(x - base) && At(bytes, pos, VarintBytes(Zigzag(x - base)))
    ensures ReadDelta(base, bytes, pos) == Ok(Read(x, pos + |VarintBytes(Zigzag(x - base))|))
  {
    ZigzagRoundTrip(x - base, 0);
    VarintReadsBack(Zigzag(x - base), bytes, pos);
  }

  lemma DeltaIsMinimal(base: int, bytes: seq<byte>, pos: nat)
    requires ReadDelta(base, bytes, pos).Ok?
    ensures var r := ReadDelta(base, bytes, pos).value;
            && FitsI64(r.value) && FitsI64(r.value - base)
            && Spans(bytes, pos, r.end, VarintBytes(Zigzag(r.value - base)))
  {
    var v := ReadVarint(bytes, pos).value;
    VarintIsMinimal(bytes, pos);
    ZigzagRoundTrip(0, v.value);
  }

  // ---- the loops ----

  /** Pushes the groups of `value` until none is left. */
  method PutVarint(out: seq<byte>, value: nat) returns (r: seq<byte>)
    requires value < U64
    ensures r == out + VarintBytes(value)
  {
    r := out;
    var left := value;
    while left / 128 != 0
      invariant r + VarintBytes(left) == out + VarintBytes(value)
    {
      r := r + [128 + left % 128];
      left := left / 128;
    }
    r := r + [left];
  }

  /** The outcome of a cursor operation, as its specification on the byte string gives it. */
  ghost predicate Reports<T>(spec: Result<Read<T>, BlobError>, r: Result<T, BlobError>, pos: nat) {
    match spec
    case Ok(x) => r == Ok(x.value) && pos == x.end
    case Err(e) => r == Err(e)
  }

  lemma ShiftKeepsGroup(group: nat, index: nat)
    requires index <= 9 && group < 128
    ensures Weight(index) > 0
    ensures (group * Weight(index) % U64) / Weight(index) == group <==> group < Room(index)
    ensures group < Room(index) ==> group * Weight(index) % U64 == group * Weight(index)
  {
    var w, room := Weight(index), Room(index);
    WeightTimesRoom(index);
    if group < room {
      ShiftFits(group, w, room);
    } else {
      ShiftOverflows(group, w, room);
    }
  }

  lemma ShiftFits(group: nat, w: nat, room: nat)
    requires w > 0 && w * room == U64 && group < room
    ensures group * w % U64 == group * w && group * w / w == group
  {
    assert group * w < room * w;
  }

  lemma ShiftOverflows(group: nat, w: nat, room: nat)
    requires w > 0 && w * room == U64 && room <= group
    ensures (group * w % U64) / w != group
  {
    assert (group * w % U64) / w < room;
  }

  /** The position of the decoder in a payload; no read goes past the end. */
  class Reader {
    const bytes: seq<byte>
    var pos: nat

    constructor (bytes: seq<byte>)
      ensures this.bytes == bytes && pos == 0
    {
      this.bytes := bytes;
      pos := 0;
    }

    method Byte() returns (r: Option<byte>)
      modifies this
      ensures r == if old(pos) < |bytes| then Some(bytes[old(pos)]) else None
      ensures pos == if old(pos) < |bytes| then old(pos) + 1 else old(pos)
    {
      if pos >= |bytes| {
        return None;
      }
      r := Some(bytes[pos]);
      pos := pos + 1;
    }

    /** Collects up to ten groups, refusing one whose bits the 64-bit shift would drop. */
    method Varint() returns (r: Result<nat, BlobError>)
      modifies this
      ensures Reports(ReadVarint(bytes, old(pos)), r, pos)
    {
      var value: nat, weight: nat := 0, 1;
      for index := 0 to 10
        invariant weight == Weight(index)
        invariant ReadGroups(bytes, pos, index).Err? ==> ReadVarint(bytes, old(pos)) == ReadGroups(bytes, pos, index)
        invariant var g := ReadGroups(bytes, pos, index);
          g.Ok? ==> ReadVarint(bytes, old(pos)) == Ok(Read(value + g.value.value * weight, g.value.end))
      {
        ghost var here, before := ReadGroups(bytes, pos, index), value;
        var byte := Byte();
        if byte.None? {
          return Err(BadVarint);
        }
        var group := byte.value % 128;
        var shifted := group * weight % U64;
        ShiftKeepsGroup(group, index);
        if shifted / weight != group {
          return Err(BadVarint);
        }
        value := value + shifted;
        if byte.value < 128 {
          if byte.value == 0 && index > 0 {
            return Err(BadVarint);
          }
          return Ok(value);
        }
        ghost var rest := ReadGroups(bytes, pos, index + 1);
        if rest.Ok? {
          GroupJoins(before, group, weight, rest.value.value);
        }
        weight := weight * 128;
      }
      return Err(BadVarint);
    }

    /** An item count, refused when that many items of `minBytes` bytes cannot follow. */
    method Count(minBytes: nat) returns (r: Result<nat, BlobError>)
      modifies this
      ensures Reports(ReadCount(minBytes, bytes, old(pos)), r, pos)
    {
      var count :- Varint();
      VarintIsMinimal(bytes, old(pos));
      if count * minBytes > |bytes| - pos {
        return Err(Range);
      }
      return Ok(count);
    }

    method IdDelta(base: int) returns (r: Result<int, BlobError>)
      requires FitsI64(base)
      modifies this
      ensures Reports(ReadDelta(base, bytes, old(pos)), r, pos)
    {
      var value :- Varint();
      var sum := base + Unzigzag(value);
      return if FitsI64(sum) then Ok(sum) else Err(Range);
    }
  }

  lemma GroupJoins(value: nat, group: nat, weight: nat, rest: nat)
    ensures value + (group + 128 * rest) * weight == value + group * weight + rest * (weight * 128)
  {
  }

  function ReadCount(minBytes: nat, bytes: seq<byte>, pos: nat): Result<Read<nat>, BlobError> {
    var v :- ReadVarint(bytes, pos);
    if v.value * minBytes > |bytes| - v.end then Err(Range) else Ok(v)
  }
}

/** Lists of payload items, each written relative to the one before it. */
module BlobLists {
  import opened Common
  import opened Machine
  import opened Varint

  /** How one item is written after, and read after, the item before it. */
  datatype Shape<!T> = Shape(
    minBytes: nat,
    fits: (Option<T>, T) -> bool,
    write: (Option<T>, T) -> seq<byte>,
    parse: (Option<T>, seq<byte>, nat) -> Result<Read<T>, BlobError>)

  /** Items that fit are read back, and only what would be written is accepted. */
  ghost predicate Faithful<T(!new)>(shape: Shape<T>) {
    && (forall prev, x {:trigger TakesBytes(shape, prev, x)} :: TakesBytes(shape, prev, x))
    && (forall prev, x, bytes, pos {:trigger ReadsBack(shape, prev, x, bytes, pos)} :: ReadsBack(shape, prev, x, bytes, pos))
    && (forall prev, bytes, pos {:trigger IsMinimal(shape, prev, bytes, pos)} :: IsMinimal(shape, prev, bytes, pos))
  }

  ghost predicate TakesBytes<T(!new)>(shape: Shape<T>, prev: Option<T>, x: T) {
    shape.fits(prev, x) ==> |shape.write(prev, x)| >= shape.minBytes
  }

  ghost predicate ReadsBack<T(!new)>(shape: Shape<T>, prev: Option<T>, x: T, bytes: seq<byte>, pos: nat) {
    shape.fits(prev, x) && At(bytes, pos, shape.write(prev, x)) ==>
      shape.parse(prev, bytes, pos) == Ok(Read(x, pos + |shape.write(prev, x)|))
  }

  ghost predicate IsMinimal<T(!new)>(shape: Shape<T>, prev: Option<T>, bytes: seq<byte>, pos: nat) {
    var r := shape.parse(prev, bytes, pos);
    r.Ok? ==> shape.fits(prev, r.value.value) && Spans(bytes, pos, r.value.end, shape.write(prev, r.value.value))
  }

  // ---- lists ----

  function WriteItems<T>(shape: Shape<T>, prev: Option<T>, items: seq<T>): seq<byte>
    decreases items
  {
    if items == [] then [] else shape.write(prev, items[0]) + WriteItems(shape, Some(items[0]), items[1..])
  }

  function ReadItems<T>(shape: Shape<T>, prev: Option<T>, count: nat, bytes: seq<byte>, pos: nat): Result<Read<seq<T>>, BlobError>
    decreases count
  {
    if count == 0 then Ok(Read([], pos))
    else
      var x :- shape.parse(prev, bytes, pos);
      var rest :- ReadItems(shape, Some(x.value), count - 1, bytes, x.end);
      Ok(Read([x.value] + rest.value, rest.end))
  }

  ghost predicate AllFit<T>(shape: Shape<T>, prev: Option<T>, items: seq<T>)
    decreases items
  {
    items == [] || (shape.fits(prev, items[0]) && AllFit(shape, Some(items[0]), items[1..]))
  }

  /** A count and as many items. */
  function WriteList<T>(shape: Shape<T>, items: seq<T>): seq<byte> {
    VarintBytes(|items|) + WriteItems(shape, None, items)
  }

  function ReadList<T>(shape: Shape<T>, bytes: seq<byte>, pos: nat): Result<Read<seq<T>>, BlobError> {
    var count :- ReadCount(shape.minBytes, bytes, pos);
    ReadItems(shape, None, count.value, bytes, count.end)
  }

  // ---- reading inverts writing ----

  lemma {:induction false} ItemsTakeBytes<T(!new)>(shape: Shape<T>, prev: Option<T>, items: seq<T>)
    requires Faithful(shape) && AllFit(shape, prev, items)
    ensures |items| * shape.minBytes <= |WriteItems(shape, prev, items)|
    decreases items
  {
    if items != [] {
      assert TakesBytes(shape, prev, items[0]);
      ItemsTakeBytes(shape, Some(items[0]), items[1..]);
      assert |items| * shape.minBytes == shape.minBytes + |items[1..]| * shape.minBytes;
    }
  }

  lemma {:induction false} ItemsReadBack<T(!new)>(shape: Shape<T>, prev: Option<T>, items: seq<T>, bytes: seq<byte>, pos: nat)
    requires Faithful(shape) && AllFit(shape, prev, items) && At(bytes, pos, WriteItems(shape, prev, items))
    ensures ReadItems(shape, prev, |items|, bytes, pos) == Ok(Read(items, pos + |WriteItems(shape, prev, items)|))
    decreases items
  {
    if items != [] {
      var x, rest := items[0], items[1..];
      var head, tail := shape.write(prev, x), WriteItems(shape, Some(x), rest);
      AtSplits(bytes, pos, head, tail);
      assert ReadsBack(shape, prev, x, bytes, pos);
      ItemsReadBack(shape, Some(x), rest, bytes, pos + |head|);
      assert [x] + rest == items;
    }
  }

  lemma CountBound(count: nat, minBytes: nat, size: nat)
    requires count * minBytes <= size && minBytes >= 1
    ensures count <= size
  {
    assert count * 1 <= count * minBytes;
  }

  lemma ListReadsBack<T(!new)>(shape: Shape<T>, items: seq<T>, bytes: seq<byte>, pos: nat)
    requires Faithful(shape) && shape.minBytes >= 1 && AllFit(shape, None, items)
    requires |bytes| < U64 && At(bytes, pos, WriteList(shape, items))
    ensures ReadList(shape, bytes, pos) == Ok(Read(items, pos + |WriteList(shape, items)|))
  {
    var head, tail := VarintBytes(|items|), WriteItems(shape, None, items);
    AtSplits(bytes, pos, head, tail);
    ItemsTakeBytes(shape, None, items);
    CountBound(|items|, shape.minBytes, |tail|);
    VarintReadsBack(|items|, bytes, pos);
    ItemsReadBack(shape, None, items, bytes, pos + |head|);
  }

  lemma {:induction false} ItemsAreMinimal<T(!new)>(shape: Shape<T>, prev: Option<T>, count: nat, bytes: seq<byte>, pos: nat)
    requires Faithful(shape) && pos <= |bytes| && ReadItems(shape, prev, count, bytes, pos).Ok?
    ensures var r := ReadItems(shape, prev, count, bytes, pos).value;
            && |r.value| == count && AllFit(shape, prev, r.value)
            && Spans(bytes, pos, r.end, WriteItems(shape, prev, r.value))
    decreases count
  {
    if count > 0 {
      var r := ReadItems(shape, prev, count, bytes, pos).value;
      var x := shape.parse(prev, bytes, pos).value;
      assert IsMinimal(shape, prev, bytes, pos);
      ItemsAreMinimal(shape, Some(x.value), count - 1, bytes, x.end);
      assert r.value[1..] == ReadItems(shape, Some(x.value), count - 1, bytes, x.end).value.value;
      AtJoins(bytes, pos, shape.write(prev, x.value), WriteItems(shape, Some(x.value), r.value[1..]));
    }
  }

  lemma ListIsMinimal<T(!new)>(shape: Shape<T>, bytes: seq<byte>, pos: nat)
    requires Faithful(shape) && ReadList(shape, bytes, pos).Ok?
    ensures var r := ReadList(shape, bytes, pos).value;
            AllFit(shape, None, r.value) && Spans(bytes, pos, r.end, WriteList(shape, r.value))
  {
    var count := ReadCount(shape.minBytes, bytes, pos).value;
    VarintIsMinimal(bytes, pos);
    ItemsAreMinimal(shape, None, count.value, bytes, count.end);
    var r := ReadList(shape, bytes, pos).value;
    AtJoins(bytes, pos, VarintBytes(count.value), WriteItems(shape, None, r.value));
  }

  // ---- what the loops carry ----

  function LastOf<T>(items: seq<T>): Option<T> {
    if items == [] then None else Some(items[|items| - 1])
  }

  /** Of a list of `count` items from `start`, `items` are read and `left` are still to come from `pos`. */
  ghost predicate Progress<T>(shape: Shape<T>, count: nat, bytes: seq<byte>, start: nat, items: seq<T>, left: nat, pos: nat) {
    match ReadItems(shape, LastOf(items), left, bytes, pos)
    case Ok(r) => ReadItems(shape, None, count, bytes, start) == Ok(Read(items + r.value, r.end))
    case Err(e) => ReadItems(shape, None, count, bytes, start) == Err(e)
  }

  lemma ProgressStarts<T>(shape: Shape<T>, count: nat, bytes: seq<byte>, start: nat)
    ensures Progress(shape, count, bytes, start, [], count, start) == true
  {
    var all := ReadItems(shape, None, count, bytes, start);
    assert all.Ok? ==> [] + all.value.value == all.value.value;
  }

  lemma ProgressSteps<T>(shape: Shape<T>, count: nat, bytes: seq<byte>, start: nat, items: seq<T>, left: nat, pos: nat)
    requires left > 0 && Progress(shape, count, bytes, start, items, left, pos) == true
    ensures match shape.parse(LastOf(items), bytes, pos)
            case Err(e) => ReadItems(shape, None, count, bytes, start) == Err(e)
            case Ok(x) => Progress(shape, count, bytes, start, items + [x.value], left - 1, x.end) == true
  {
    var one := shape.parse(LastOf(items), bytes, pos);
    if one.Ok? {
      var x := one.value;
      var rest := ReadItems(shape, Some(x.value), left - 1, bytes, x.end);
      assert LastOf(items + [x.value]) == Some(x.value);
      if rest.Ok? {
        assert items + ([x.value] + rest.value.value) == (items + [x.value]) + rest.value.value;
      }
    }
  }

  lemma ProgressEnds<T>(shape: Shape<T>, count: nat, bytes: seq<byte>, start: nat, items: seq<T>, pos: nat)
    requires Progress(shape, count, bytes, start, items, 0, pos)
    ensures ReadItems(shape, None, count, bytes, start) == Ok(Read(items, pos))
  {
    assert items + [] == items;
  }

  lemma {:induction false} FitsAt<T>(shape: Shape<T>, prev: Option<T>, items: seq<T>, k: nat)
    requires AllFit(shape, prev, items) && k < |items|
    ensures shape.fits(if k == 0 then prev else LastOf(items[..k]), items[k])
    decreases k
  {
    if k > 0 {
      FitsAt(shape, Some(items[0]), items[1..], k - 1);
      assert k > 1 ==> items[1..][..k - 1][k - 2] == items[..k][k - 1];
    }
  }

  lemma {:induction false} WriteItemsGrow<T>(shape: Shape<T>, prev: Option<T>, items: seq<T>, x: T)
    ensures WriteItems(shape, prev, items + [x])
         == WriteItems(shape, prev, items) + shape.write(if items == [] then prev else LastOf(items), x)
    decreases items
  {
    var all := items + [x];
    if items == [] {
      assert all[1..] == [];
    } else {
      assert all[1..] == items[1..] + [x];
      WriteItemsGrow(shape, Some(items[0]), items[1..], x);
    }
  }

  /** Writing one more item extends what is written. */
  lemma WriteStep<T>(shape: Shape<T>, items: seq<T>, k: nat, base: seq<byte>, out: seq<byte>)
    requires k < |items| && out == base + WriteItems(shape, None, items[..k])
    ensures out + shape.write(LastOf(items[..k]), items[k]) == base + WriteItems(shape, None, items[..k + 1])
  {
    WriteItemsGrow(shape, None, items[..k], items[k]);
    assert items[..k + 1] == items[..k] + [items[k]];
  }
}

/** The tag-table parser: fields are read as they come and looked up by tag. */
module ParamsTable {
  import opened Common
  import LittleEndian
  import opened Machine
  import opened ParamTypes
  import opened ParamsLockstep
  import ParamsParser
  import opened Sorting
  import opened Varint

  datatype Entry = Entry(tag: nat, raw: seq<byte>)

  function Table(schema: seq<Field>): map<nat, Field>
    requires WellFormed(schema)
  {
    map f: Field | f in schema :: f.tag := f
  }

  /** The field at `pos`: its tag is known to the schema and above the one before. */
  function NextEntry(schema: seq<Field>, data: seq<byte>, pos: nat, previous: nat): Option<Read<Entry>>
    requires WellFormed(schema)
  {
    if pos + 6 > |data| then None
    else
      var tag := LittleEndian.Value(data[pos..pos + 2]);
      var len := LittleEndian.Value(data[pos + 2..pos + 6]);
      if tag <= previous || tag !in Table(schema) || pos + 6 + len > |data| then None
      else
        var raw := data[pos + 6..pos + 6 + len];
        if RawFits(Table(schema)[tag].kind, raw) then Some(Read(Entry(tag, raw), pos + 6 + len)) else None
  }

  function Entries(schema: seq<Field>, data: seq<byte>, pos: nat, previous: nat): Option<seq<Entry>>
    requires WellFormed(schema)
    decreases |data| - pos
  {
    if pos >= |data| then Some([])
    else
      match NextEntry(schema, data, pos, previous)
      case None => None
      case Some(one) =>
        match Entries(schema, data, one.end, one.value.tag)
        case None => None
        case Some(rest) => Some([one.value] + rest)
  }

  function TableLayout(schema: seq<Field>, data: seq<byte>): Option<seq<Entry>>
    requires WellFormed(schema)
  {
    if !ParamsParser.Starts(data) then None
    else
      match Entries(schema, data, 1, 0)
      case None => None
      case Some(es) => if |es| == |schema| then Some(es) else None
  }

  // ---- the table and the lockstep walk agree ----

  function Tags(schema: seq<Field>): (r: seq<nat>)
    ensures |r| == |schema| && forall i :: 0 <= i < |schema| ==> r[i] == schema[i].tag
  {
    seq(|schema|, i requires 0 <= i < |schema| => schema[i].tag)
  }

  function EntryTags(es: seq<Entry>): (r: seq<nat>)
    ensures |r| == |es| && forall i :: 0 <= i < |es| ==> r[i] == es[i].tag
  {
    seq(|es|, i requires 0 <= i < |es| => es[i].tag)
  }

  function Paired(schema: seq<Field>, raws: seq<seq<byte>>): (r: seq<Entry>)
    requires |schema| == |raws|
    ensures |r| == |raws| && forall i :: 0 <= i < |raws| ==> r[i] == Entry(schema[i].tag, raws[i])
  {
    seq(|raws|, i requires 0 <= i < |raws| => Entry(schema[i].tag, raws[i]))
  }

  lemma TableAt(schema: seq<Field>, k: nat)
    requires WellFormed(schema) && k < |schema|
    ensures schema[k].tag in Table(schema) && Table(schema)[schema[k].tag] == schema[k]
  {
    assert schema[k] in schema;
  }

  lemma TagInTable(schema: seq<Field>, tag: nat) returns (k: nat)
    requires WellFormed(schema) && tag in Table(schema)
    ensures k < |schema| && schema[k].tag == tag
  {
    var f := Table(schema)[tag];
    assert f in schema;
    k :| 0 <= k < |schema| && schema[k] == f;
  }

  ghost predicate TagsAscend(schema: seq<Field>, es: seq<Entry>, previous: nat)
    requires WellFormed(schema)
  {
    && (forall i :: 0 <= i < |es| ==> es[i].tag > previous && es[i].tag in Table(schema))
    && (forall i, j :: 0 <= i < j < |es| ==> es[i].tag < es[j].tag)
  }

  lemma {:induction false} EntriesAscend(schema: seq<Field>, data: seq<byte>, pos: nat, previous: nat)
    requires WellFormed(schema) && Entries(schema, data, pos, previous).Some?
    ensures TagsAscend(schema, Entries(schema, data, pos, previous).value, previous)
    decreases |data| - pos
  {
    if pos < |data| {
      var one := NextEntry(schema, data, pos, previous).value;
      EntriesAscend(schema, data, one.end, one.value.tag);
      AscendFromHead(schema, one.value, Entries(schema, data, one.end, one.value.tag).value, previous);
    }
  }

  lemma AscendFromHead(schema: seq<Field>, e: Entry, rest: seq<Entry>, previous: nat)
    requires WellFormed(schema) && e.tag > previous && e.tag in Table(schema) && TagsAscend(schema, rest, e.tag)
    ensures TagsAscend(schema, [e] + rest, previous)
  {
    var es := [e] + rest;
    assert forall i :: 0 < i < |es| ==> es[i] == rest[i - 1];
  }

  /** An ascending list drawn from an ascending list of its length is that list. */
  lemma AscendingFills(s: seq<nat>, t: seq<nat>)
    requires |s| == |t| && (forall i :: 0 <= i < |s| ==> s[i] in t)
    requires (forall i, j :: 0 <= i < j < |s| ==> s[i] < s[j]) && (forall i, j :: 0 <= i < j < |t| ==> t[i] < t[j])
    ensures s == t
  {
    var less := (x: nat, y: nat) => x < y;
    DistinctCard(s);
    DistinctCard(t);
    forall y | y in t
      ensures y in s
    {
      if y !in s {
        assert Elements(s) <= Elements(t) - {y} by {
          assert forall x :: x in s ==> x in t;
        }
        SubsetCard(Elements(s), Elements(t) - {y});
      }
    }
    assert forall x :: x in s ==> x in t;
    AscendingUnique(s, t, less);
  }

  /** One step of either parser where the other stands on the same field. */
  lemma StepsAgree(schema: seq<Field>, k: nat, data: seq<byte>, pos: nat, previous: nat)
    requires WellFormed(schema) && k < |schema| && previous < schema[k].tag
    ensures ReadField(schema[k], data, pos).Some? ==>
      var x := ReadField(schema[k], data, pos).value;
      NextEntry(schema, data, pos, previous) == Some(Read(Entry(schema[k].tag, x.value), x.end))
    ensures NextEntry(schema, data, pos, previous).Some? && NextEntry(schema, data, pos, previous).value.value.tag == schema[k].tag ==>
      ReadField(schema[k], data, pos).Some?
  {
    TableAt(schema, k);
  }

  lemma PairedHead(schema: seq<Field>, raws: seq<seq<byte>>)
    requires |schema| == |raws| > 0
    ensures Paired(schema, raws) == [Entry(schema[0].tag, raws[0])] + Paired(schema[1..], raws[1..])
  {
  }

  /** What the lockstep walk accepts to the end, the table reads as the same fields. */
  lemma {:induction false} LockstepIsTable(schema: seq<Field>, k: nat, data: seq<byte>, pos: nat, previous: nat, raws: seq<seq<byte>>)
    requires WellFormed(schema) && k <= |schema| && (k < |schema| ==> previous < schema[k].tag)
    requires ReadFields(schema[k..], data, pos) == Some(Read(raws, |data|))
    ensures |raws| == |schema| - k && Entries(schema, data, pos, previous) == Some(Paired(schema[k..], raws))
    decreases |schema| - k
  {
    var left := schema[k..];
    if k < |schema| {
      assert left[0] == schema[k] && left[1..] == schema[k + 1..];
      var one := ReadField(schema[k], data, pos).value;
      assert raws[1..] == ReadFields(left[1..], data, one.end).value.value;
      LockstepIsTable(schema, k + 1, data, one.end, schema[k].tag, raws[1..]);
      StepsAgree(schema, k, data, pos, previous);
      PairedHead(left, raws);
    }
  }

  /** The fields come with the tags of the schema from `k` on. */
  ghost predicate TagsMatch(schema: seq<Field>, k: nat, es: seq<Entry>) {
    k + |es| == |schema| && forall i :: 0 <= i < |es| ==> es[i].tag == schema[k + i].tag
  }

  /** Fields that come with the tags of the schema are the fields of the lockstep walk. */
  lemma {:induction false} TableIsLockstep(schema: seq<Field>, k: nat, data: seq<byte>, pos: nat, previous: nat)
    requires WellFormed(schema) && k <= |schema| && pos <= |data| && (k < |schema| ==> previous < schema[k].tag)
    requires Entries(schema, data, pos, previous).Some? && TagsMatch(schema, k, Entries(schema, data, pos, previous).value)
    ensures ReadFields(schema[k..], data, pos).Some? && ReadFields(schema[k..], data, pos).value.end == |data|
    decreases |schema| - k
  {
    var left := schema[k..];
    if k < |schema| {
      assert left[0] == schema[k] && left[1..] == schema[k + 1..];
      var es := Entries(schema, data, pos, previous).value;
      var one := NextEntry(schema, data, pos, previous).value;
      assert es[0] == one.value;
      StepsAgree(schema, k, data, pos, previous);
      MatchRest(schema, k, es, Entries(schema, data, one.end, one.value.tag).value);
      TableIsLockstep(schema, k + 1, data, one.end, schema[k].tag);
    }
  }

  lemma MatchRest(schema: seq<Field>, k: nat, es: seq<Entry>, rest: seq<Entry>)
    requires es != [] && TagsMatch(schema, k, es) && es == [es[0]] + rest
    ensures TagsMatch(schema, k + 1, rest)
  {
    forall i | 0 <= i < |rest|
      ensures rest[i].tag == schema[k + 1 + i].tag
    {
      assert rest[i] == es[i + 1];
    }
  }

  /** Ascending known tags, as many as the schema has, are its tags. */
  lemma CountedTagsMatch(schema: seq<Field>, es: seq<Entry>)
    requires WellFormed(schema) && |es| == |schema| && TagsAscend(schema, es, 0)
    ensures TagsMatch(schema, 0, es)
  {
    var found, wanted := EntryTags(es), Tags(schema);
    forall i | 0 <= i < |es|
      ensures found[i] in wanted
    {
      var k := TagInTable(schema, es[i].tag);
      assert wanted[k] == found[i];
    }
    AscendingFills(found, wanted);
    forall i | 0 <= i < |es|
      ensures es[i].tag == schema[i].tag
    {
      assert found[i] == wanted[i];
    }
  }

  /** Both parsers accept the same layouts and find the same raw values. */
  lemma ParsersAgree(schema: seq<Field>, data: seq<byte>)
    requires WellFormed(schema)
    ensures match Layout(schema, data)
            case None => TableLayout(schema, data).None?
            case Some(raws) => |raws| == |schema| && TableLayout(schema, data) == Some(Paired(schema, raws))
  {
    assert schema[0..] == schema;
    if Layout(schema, data).Some? {
      LockstepIsTable(schema, 0, data, 1, 0, Layout(schema, data).value);
    } else if TableLayout(schema, data).Some? {
      EntriesAscend(schema, data, 1, 0);
      CountedTagsMatch(schema, TableLayout(schema, data).value);
      TableIsLockstep(schema, 0, data, 1, 0);
    }
  }
}

/** Several consecutive blocks at once, one array column for each. */
module Lanes {
  import opened ChaCha
  import opened Machine
  import opened Words

  /** The state of one block. */
  ghost function Lane(state: array2<word>, l: nat): Block
    requires state.Length0 == 16 && l < state.Length1
    reads state
  {
    seq(16, i requires 0 <= i < 16 reads state => state[i, l])
  }

  /** The quarter round on four state words, lane by lane. */
  method QuarterRoundLanes(state: array2<word>, a: nat, b: nat, c: nat, d: nat)
    requires state.Length0 == 16 && Four(a, b, c, d)
    modifies state
    ensures forall l: nat :: l < state.Length1 ==> Lane(state, l) == QuarterAt(old(Lane(state, l)), a, b, c, d)
  {
    for l := 0 to state.Length1
      invariant forall k: nat :: k < l ==> Lane(state, k) == QuarterAt(old(Lane(state, k)), a, b, c, d)
      invariant forall k: nat :: l <= k < state.Length1 ==> Lane(state, k) == old(Lane(state, k))
    {
      QuarterRoundLane(state, l, a, b, c, d);
    }
  }

  method QuarterRoundLane(state: array2<word>, l: nat, a: nat, b: nat, c: nat, d: nat)
    requires state.Length0 == 16 && Four(a, b, c, d) && l < state.Length1
    modifies state
    ensures Lane(state, l) == QuarterAt(old(Lane(state, l)), a, b, c, d)
    ensures forall k: nat :: k < state.Length1 && k != l ==> Lane(state, k) == old(Lane(state, k))
  {
    ghost var before := Lane(state, l);
    state[a, l] := Add(state[a, l], state[b, l]);
    state[d, l] := RotateLeft(XorWord(state[d, l], state[a, l]), 16);
    state[c, l] := Add(state[c, l], state[d, l]);
    state[b, l] := RotateLeft(XorWord(state[b, l], state[c, l]), 12);
    state[a, l] := Add(state[a, l], state[b, l]);
    state[d, l] := RotateLeft(XorWord(state[d, l], state[a, l]), 8);
    state[c, l] := Add(state[c, l], state[d, l]);
    state[b, l] := RotateLeft(XorWord(state[b, l], state[c, l]), 7);
    ghost var q := Quarter(Quad(before[a], before[b], before[c], before[d]));
    assert state[a, l] == q.a && state[b, l] == q.b && state[c, l] == q.c && state[d, l] == q.d;
  }

  /** Every lane has done `n` quarter rounds of a double round that began at `starts`. */
  ghost predicate AllAt(state: array2<word>, starts: seq<Block>, n: nat)
    requires state.Length0 == 16 && n <= 8
    reads state
  {
    |starts| == state.Length1 && forall l: nat :: l < |starts| ==> Lane(state, l) == Quarters(starts[l], n)
  }

  method NextQuarter(state: array2<word>, a: nat, b: nat, c: nat, d: nat, ghost n: nat, ghost starts: seq<Block>)
    requires state.Length0 == 16 && n < 8 && Schedule(n) == Slots(a, b, c, d) && AllAt(state, starts, n)
    modifies state
    ensures AllAt(state, starts, n + 1)
  {
    QuarterRoundLanes(state, a, b, c, d);
  }

  /** One double round of every lane. */
  method MixLanes(state: array2<word>)
    requires state.Length0 == 16
    modifies state
    ensures forall l: nat :: l < state.Length1 ==> Lane(state, l) == Quarters(old(Lane(state, l)), 8)
  {
    ghost var starts: seq<Block> := seq(state.Length1, l requires 0 <= l < state.Length1 reads state => Lane(state, l));
    NextQuarter(state, 0, 4, 8, 12, 0, starts);
    NextQuarter(state, 1, 5, 9, 13, 1, starts);
    NextQuarter(state, 2, 6, 10, 14, 2, starts);
    NextQuarter(state, 3, 7, 11, 15, 3, starts);
    NextQuarter(state, 0, 5, 10, 15, 4, starts);
    NextQuarter(state, 1, 6, 11, 12, 5, starts);
    NextQuarter(state, 2, 7, 8, 13, 6, starts);
    NextQuarter(state, 3, 4, 9, 14, 7, starts);
    assert forall l: nat :: l < state.Length1 ==> starts[l] == old(Lane(state, l));
  }

  /** The words of the block in row `l`. */
  ghost function Row(out: array2<word>, l: nat): Block
    requires out.Length1 == 16 && l < out.Length0
    reads out
  {
    seq(16, i requires 0 <= i < 16 reads out => out[l, i])
  }

  function BlockAt(counter: nat, lane: nat): nat {
    (counter + lane) % U64
  }

  /** Constants, key, and a counter for each lane, word by word. */
  method StartLanes(key: Key, counter: nat, lanes: nat) returns (state: array2<word>)
    ensures fresh(state) && state.Length0 == 16 && state.Length1 == lanes
    ensures forall l: nat :: l < lanes ==> Lane(state, l) == Start(key, BlockAt(counter, l))
  {
    state := new word[16, lanes]((i, l) => 0);
    forall i: nat, l: nat | i < 4 && l < lanes {
      state[i, l] := SIGMA[i];
    }
    forall i: nat, l: nat | 4 <= i < 12 && l < lanes {
      state[i, l] := key[i - 4];
    }
    for l := 0 to lanes
      invariant forall i: nat, k: nat :: i < 4 && k < lanes ==> state[i, k] == SIGMA[i]
      invariant forall i: nat, k: nat :: 4 <= i < 12 && k < lanes ==> state[i, k] == key[i - 4]
      invariant forall i: nat, k: nat :: 14 <= i < 16 && k < lanes ==> state[i, k] == 0
      invariant forall k: nat :: k < l ==> state[12, k] == BlockAt(counter, k) % U32 && state[13, k] == BlockAt(counter, k) / U32
    {
      var block := BlockAt(counter, l);
      state[12, l] := block % U32;
      state[13, l] := block / U32;
    }
    forall l: nat | l < lanes
      ensures Lane(state, l) == Start(key, BlockAt(counter, l))
    {
      StartIs(key, BlockAt(counter, l), Lane(state, l));
    }
  }

  lemma StartIs(key: Key, counter: nat, s: Block)
    requires counter < U64 && s[12] == counter % U32 && s[13] == counter / U32 && s[14] == 0 && s[15] == 0
    requires (forall i: nat :: i < 4 ==> s[i] == SIGMA[i]) && (forall i: nat :: 4 <= i < 12 ==> s[i] == key[i - 4])
    ensures s == Start(key, counter)
  {
  }

  /** The blocks from `counter` on, block by block in stream order. */
  method WideBlocks(key: Key, counter: nat, out: array2<word>)
    requires out.Length1 == 16
    modifies out
    ensures forall l: nat :: l < out.Length0 ==> Row(out, l) == BlockOf(key, BlockAt(counter, l))
  {
    var lanes := out.Length0;
    var state := StartLanes(key, counter, lanes);
    var start := new word[16, lanes]((i, l) requires 0 <= i < 16 && 0 <= l < lanes reads state => state[i, l]);
    assert forall l: nat :: l < lanes ==> Lane(start, l) == Lane(state, l);
    for k := 0 to 4
      invariant forall l: nat :: l < lanes ==> Lane(start, l) == Start(key, BlockAt(counter, l))
      invariant forall l: nat :: l < lanes ==> Lane(state, l) == DoubleRounds(Start(key, BlockAt(counter, l)), k)
    {
      MixLanes(state);
    }
    forall l: nat, i: nat | l < lanes && i < 16 {
      out[l, i] := Add(state[i, l], start[i, l]);
    }
    forall l: nat | l < lanes
      ensures Row(out, l) == BlockOf(key, BlockAt(counter, l))
    {
      SumIsBlock(key, BlockAt(counter, l), Lane(state, l), Lane(start, l), Row(out, l));
    }
  }

  lemma SumIsBlock(key: Key, counter: nat, mixed: Block, start: Block, out: Block)
    requires counter < U64 && start == Start(key, counter) && mixed == DoubleRounds(start, 4)
    requires forall i: nat :: i < 16 ==> out[i] == Add(mixed[i], start[i])
    ensures out == BlockOf(key, counter)
  {
  }
}

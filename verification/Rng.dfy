/** The scalar generator: a keystream read word by word. */
module Rng {
  import opened ChaCha
  import opened Machine
  import opened Words

  method Mix(s: array<word>)
    requires s.Length == 16
    modifies s
    ensures s[..] == Quarters(old(s[..]), 8)
  {
    ghost var start: Block := s[..];
    QuarterRound(s, 0, 4, 8, 12);
    assert s[..] == Quarters(start, 1);
    QuarterRound(s, 1, 5, 9, 13);
    assert s[..] == Quarters(start, 2);
    QuarterRound(s, 2, 6, 10, 14);
    assert s[..] == Quarters(start, 3);
    QuarterRound(s, 3, 7, 11, 15);
    assert s[..] == Quarters(start, 4);
    QuarterRound(s, 0, 5, 10, 15);
    assert s[..] == Quarters(start, 5);
    QuarterRound(s, 1, 6, 11, 12);
    assert s[..] == Quarters(start, 6);
    QuarterRound(s, 2, 7, 8, 13);
    assert s[..] == Quarters(start, 7);
    QuarterRound(s, 3, 4, 9, 14);
    assert s[..] == Quarters(start, 8);
  }

  /** Writes the block of a counter value. */
  method Generate(key: Key, counter: nat, block: array<word>)
    requires counter < U64 && block.Length == 16
    modifies block
    ensures block[..] == BlockOf(key, counter)
  {
    ghost var start := Start(key, counter);
    var initial := SIGMA + key + [counter % U32, counter / U32, 0, 0];
    var s := new word[16](i requires 0 <= i < 16 => initial[i]);
    assert s[..] == start;
    for k := 0 to 4
      invariant s[..] == DoubleRounds(start, k)
    {
      Mix(s);
    }
    ghost var mixed := DoubleRounds(start, 4);
    for i := 0 to 16
      invariant s[..] == mixed
      invariant forall k: nat :: k < i ==> block[k] == Add(mixed[k], start[k])
    {
      block[i] := Add(s[i], initial[i]);
    }
    BlockFrom(key, counter, mixed, block[..]);
  }

  lemma BlockFrom(key: Key, counter: nat, mixed: Block, out: seq<word>)
    requires counter < U64 && |out| == 16 && mixed == DoubleRounds(Start(key, counter), 4)
    requires forall k: nat :: k < 16 ==> out[k] == Add(mixed[k], Start(key, counter)[k])
    ensures out == BlockOf(key, counter)
  {
  }

  lemma CounterAdvances(blocks: nat, counter: nat)
    requires counter == blocks % U64
    ensures (counter + 1) % U64 == (blocks + 1) % U64
  {
  }

  /** `block` holds the last of the first `blocks` blocks of the stream. */
  ghost predicate Last(key: Key, blocks: nat, block: seq<word>) {
    blocks > 0 && block == BlockOf(key, (blocks - 1) % U64)
  }

  lemma NextIsLast(key: Key, blocks: nat, counter: nat, block: seq<word>)
    requires counter == blocks % U64 && block == BlockOf(key, counter)
    ensures Last(key, blocks + 1, block) == true
  {
  }

  lemma LastHolds(key: Key, blocks: nat, block: seq<word>, idx: nat)
    requires Last(key, blocks, block) && idx < 16
    ensures |block| == 16 && block[idx] == KeyStream(key, 16 * blocks + idx - 16)
  {
    WordOfBlock(key, blocks - 1, idx);
  }

  /** A stream of words; `read` counts the words already taken from the front. */
  class ChaCha8Rng {
    const key: Key
    var counter: nat
    const block: array<word>
    var idx: nat
    /** How many blocks have been generated. */
    ghost var blocks: nat

    ghost predicate Valid()
      reads this, block
    {
      && block.Length == 16 && idx <= 16 && counter == blocks % U64
      && (blocks == 0 ==> idx == 16) && (idx < 16 ==> Last(key, blocks, block[..]) == true)
    }

    /** How many words have been read. */
    ghost function Position(): nat
      requires Valid()
      reads this, block
    {
      16 * blocks + idx - 16
    }

    constructor (key: Key)
      ensures Valid() && fresh(block) && this.key == key && Position() == 0
    {
      this.key := key;
      counter := 0;
      block := new word[16](i => 0);
      idx := 16;
      blocks := 0;
    }

    method Regen()
      requires Valid() && idx == 16
      modifies this, block
      ensures Valid() && idx == 0 && Position() == old(Position())
    {
      Generate(key, counter, block);
      CounterAdvances(blocks, counter);
      NextIsLast(key, blocks, counter, block[..]);
      counter := (counter + 1) % U64;
      blocks := blocks + 1;
      idx := 0;
    }

    /** The next keystream word. */
    method NextU32() returns (w: word)
      requires Valid()
      modifies this, block
      ensures Valid() && Position() == old(Position()) + 1
      ensures w == KeyStream(key, old(Position()))
    {
      if idx >= 16 {
        Regen();
      }
      LastHolds(key, blocks, block[..], idx);
      w := block[idx];
      idx := idx + 1;
    }
  }
}

/** Random-access draws from the keystream, several blocks a pass. */
module Draws {
  import opened Arith
  import opened ChaCha
  import opened Common
  import FastMod
  import opened Lanes
  import LittleEndian
  import opened Machine
  import opened Words

  /** What the word `w` selects. */
  function Pick<T>(allowed: seq<T>, w: word): T
    requires allowed != []
  {
    allowed[Remainder(w, |allowed|)]
  }

  /** The word at `i` of rows read one after the other. */
  function FlatWord(keystream: array2<word>, i: nat): word
    requires keystream.Length1 == 16 && i < 16 * keystream.Length0
    reads keystream
  {
    keystream[i / 16, i % 16]
  }

  function SmallIndex(len: nat, w: word): nat
    requires 1 <= len
  {
    if len <= 8 then w % len
    else if len < U32 then FastMod.New(len).Rem(w)
    else w
  }

  /** Every way of taking the remainder gives the same entry. */
  lemma SmallIndexIsRemainder(len: nat, w: word)
    requires 1 <= len
    ensures SmallIndex(len, w) == Remainder(w, len) == w % len
  {
    RemainderIsModulo(w, len);
    if 8 < len < U32 {
      FastMod.RemIsModulo(len, w);
    }
  }

  /** Fills `out[from..from + n]` from the words that start at `skip`. */
  method Select<T>(keystream: array2<word>, skip: nat, allowed: seq<T>, out: array<T>, from: nat, n: nat)
    requires keystream.Length1 == 16 && skip + n <= 16 * keystream.Length0 && from + n <= out.Length && allowed != []
    requires keystream as object != out as object
    modifies out
    ensures forall p: nat :: from <= p < from + n ==> out[p] == Pick(allowed, FlatWord(keystream, skip + (p - from)))
    ensures forall i: nat :: i < from ==> out[i] == old(out[i])
  {
    for k := 0 to n
      invariant forall p: nat :: from <= p < from + k ==> out[p] == Pick(allowed, FlatWord(keystream, skip + (p - from)))
      invariant forall i: nat :: i < from ==> out[i] == old(out[i])
    {
      var w := FlatWord(keystream, skip + k);
      SmallIndexIsRemainder(|allowed|, w);
      out[from + k] := allowed[SmallIndex(|allowed|, w)];
    }
  }

  lemma LaneArithmetic(base: nat, counter: nat, offset: nat)
    requires counter == base % U64
    ensures 16 * base + offset == 16 * (base + offset / 16) + offset % 16
    ensures (base + offset / 16) % U64 == BlockAt(counter, offset / 16)
  {
    WrapAgrees(base, offset / 16);
  }

  lemma WrapAgrees(base: nat, lane: nat)
    ensures (base + lane) % U64 == (base % U64 + lane) % U64
  {
  }

  lemma LaneOfWord(key: Key, base: nat, counter: nat, offset: nat, k: nat)
    requires counter == base % U64 && k == 16 * base + offset
    ensures KeyStream(key, k) == BlockOf(key, BlockAt(counter, offset / 16))[offset % 16]
  {
    LaneArithmetic(base, counter, offset);
    WordOfBlock(key, base + offset / 16, offset % 16);
  }

  /** The words of the generated blocks, in order, are the keystream from word `16 * base` on. */
  lemma FlatIsStream(key: Key, base: nat, counter: nat, keystream: array2<word>, offset: nat)
    requires keystream.Length1 == 16 && offset < 16 * keystream.Length0 && counter == base % U64
    requires forall l: nat :: l < keystream.Length0 ==> Row(keystream, l) == BlockOf(key, BlockAt(counter, l))
    ensures FlatWord(keystream, offset) == KeyStream(key, 16 * base + offset)
  {
    LaneOfWord(key, base, counter, offset, 16 * base + offset);
    assert Row(keystream, offset / 16)[offset % 16] == FlatWord(keystream, offset);
  }

  /** One pass: generates the blocks from `counter` on and draws the next `n` slots. */
  method DrawPass<T>(key: Key, ghost base: nat, counter: nat, skip: nat, firstWord: nat,
      allowed: seq<T>, keystream: array2<word>, out: array<T>, done: nat, n: nat)
    requires keystream.Length1 == 16 && keystream as object != out as object && allowed != []
    requires counter == base % U64 && 16 * base + skip == firstWord + done
    requires skip + n <= 16 * keystream.Length0 && done + n <= out.Length
    modifies keystream, out
    ensures forall i: nat :: done <= i < done + n ==> out[i] == Pick(allowed, KeyStream(key, firstWord + i))
    ensures forall i: nat :: i < done ==> out[i] == old(out[i])
  {
    WideBlocks(key, counter, keystream);
    Select(keystream, skip, allowed, out, done, n);
    forall i: nat | done <= i < done + n
      ensures out[i] == Pick(allowed, KeyStream(key, firstWord + i))
    {
      FlatIsStream(key, base, counter, keystream, skip + (i - done));
    }
  }

  /** Draws every slot of `out` from the keystream words that start at `firstWord`, `lanes` blocks a pass. */
  method DrawLanes<T>(key: Key, firstWord: nat, allowed: seq<T>, out: array<T>, lanes: nat)
    requires lanes >= 1 && allowed != []
    modifies out
    ensures forall i: nat :: i < out.Length ==> out[i] == Pick(allowed, KeyStream(key, firstWord + i))
  {
    var keystream := new word[lanes, 16]((l, i) => 0);
    ghost var base := firstWord / 16;
    var counter := firstWord / 16 % U64;
    var skip: nat, done: nat := firstWord % 16, 0;
    while done < out.Length
      invariant done <= out.Length && skip < 16 && counter == base % U64
      invariant done < out.Length ==> 16 * base + skip == firstWord + done
      invariant forall i: nat :: i < done ==> out[i] == Pick(allowed, KeyStream(key, firstWord + i))
    {
      var words := 16 * lanes - skip;
      var n := if out.Length - done < words then out.Length - done else words;
      DrawPass(key, base, counter, skip, firstWord, allowed, keystream, out, done, n);
      WrapAgrees(base, lanes);
      counter := (counter + lanes) % U64;
      base := base + lanes;
      skip := 0;
      done := done + n;
    }
  }

  // ---- whole draws ----

  datatype DrawError = EmptyAllowedValues

  /** Little-endian key words of a 32-byte nonce. */
  function KeyWords(nonce: seq<byte>): Key
    requires |nonce| == 32
  {
    seq(8, i requires 0 <= i < 8 => KeyWord(nonce[4 * i..4 * i + 4]))
  }

  function KeyWord(bytes: seq<byte>): word
    requires |bytes| == 4
  {
    LittleEndian.Spans248();
    LittleEndian.BytesOfValue(bytes);
    LittleEndian.Value(bytes)
  }

  /** `n` values from keystream word `first` on. */
  function DrawSeq<T>(key: Key, first: nat, allowed: seq<T>, n: nat): seq<T>
    requires allowed != []
  {
    seq(n, i requires 0 <= i < n => Pick(allowed, KeyStream(key, first + i)))
  }

  /** Ranges drawn apart join to the range drawn at once. */
  lemma DrawsConcatenate<T>(key: Key, first: nat, allowed: seq<T>, n: nat, m: nat)
    requires allowed != []
    ensures DrawSeq(key, first, allowed, n) + DrawSeq(key, first + n, allowed, m) == DrawSeq(key, first, allowed, n + m)
  {
    var joined, whole := DrawSeq(key, first, allowed, n) + DrawSeq(key, first + n, allowed, m), DrawSeq(key, first, allowed, n + m);
    forall i: nat | i < n + m
      ensures joined[i] == whole[i]
    {
      assert i >= n ==> first + n + (i - n) == first + i;
    }
  }

  /** Fills `out`; an empty table is an error only when there is something to fill. */
  method DrawInto<T>(nonce: seq<byte>, firstWord: nat, allowed: seq<T>, out: array<T>, lanes: nat) returns (r: Result<(), DrawError>)
    requires |nonce| == 32 && lanes in {4, 8}
    modifies out
    ensures r.Err? <==> out.Length > 0 && allowed == []
    ensures r.Err? ==> out[..] == old(out[..])
    ensures r.Ok? && out.Length > 0 ==> out[..] == DrawSeq(KeyWords(nonce), firstWord, allowed, out.Length)
  {
    if out.Length == 0 {
      return Ok(());
    }
    if allowed == [] {
      return Err(EmptyAllowedValues);
    }
    DrawLanes(KeyWords(nonce), firstWord, allowed, out, lanes);
    return Ok(());
  }

  /** What a model draws: fields from the first words, couplings from the words after them. */
  ghost predicate Drew<T>(key: Key, n: nat, allowed: seq<T>, first: nat, drawn: seq<T>) {
    |drawn| == n && (n > 0 ==> allowed != [] && drawn == DrawSeq(key, first, allowed, n))
  }

  method DrawFresh<T>(nonce: seq<byte>, first: nat, allowed: seq<T>, n: nat, lanes: nat) returns (drawn: seq<T>)
    requires |nonce| == 32 && lanes in {4, 8} && (n > 0 ==> allowed != [])
    ensures Drew(KeyWords(nonce), n, allowed, first, drawn)
  {
    if allowed == [] {
      return [];
    }
    var out := new T[n](i => allowed[0]);
    var done := DrawInto(nonce, first, allowed, out, lanes);
    return out[..];
  }

  method DrawIsing<T>(nonce: seq<byte>, nodes: nat, edges: nat, allowedH: seq<T>, allowedJ: seq<T>, lanes: nat)
    returns (r: Result<(seq<T>, seq<T>), DrawError>)
    requires |nonce| == 32 && lanes in {4, 8}
    ensures r.Err? <==> (nodes > 0 && allowedH == []) || (edges > 0 && allowedJ == [])
    ensures r.Ok? ==>
      && Drew(KeyWords(nonce), nodes, allowedH, 0, r.value.0)
      && Drew(KeyWords(nonce), edges, allowedJ, nodes, r.value.1)
  {
    if (nodes > 0 && allowedH == []) || (edges > 0 && allowedJ == []) {
      return Err(EmptyAllowedValues);
    }
    var h := DrawFresh(nonce, 0, allowedH, nodes, lanes);
    var j := DrawFresh(nonce, nodes, allowedJ, edges, lanes);
    return Ok((h, j));
  }
}

/** The Fisher-Yates shuffle: a bijection between draw vectors and orders. */
module Shuffle {
  import opened Arith
  import opened Common
  import opened Machine
  import opened Rng
  import opened Uniform
  import opened Words

  function Swapped<T>(s: seq<T>, i: nat, j: nat): seq<T>
    requires i < |s| && j < |s|
  {
    s[i := s[j]][j := s[i]]
  }

  /** What is left to shuffle when item `j` goes last. */
  function Kept<T>(items: seq<T>, j: nat): seq<T>
    requires j < |items|
  {
    Swapped(items, |items| - 1, j)[..|items| - 1]
  }

  /** One draw for each position, not above it. */
  ghost predicate IsDraws(draws: seq<nat>) {
    forall i :: 0 <= i < |draws| ==> draws[i] <= i
  }

  /** From the last position down, each is swapped with the position drawn for it. */
  ghost function FisherYates<T>(items: seq<T>, draws: seq<nat>): (r: seq<T>)
    requires |draws| == |items| && IsDraws(draws)
    ensures |r| == |items|
    decreases |items|
  {
    if items == [] then []
    else
      var last := |items| - 1;
      FisherYates(Kept(items, draws[last]), draws[..last]) + [items[draws[last]]]
  }

  lemma SwappedKeeps<T>(s: seq<T>, i: nat, j: nat)
    requires i < |s| && j < |s|
    ensures multiset(Swapped(s, i, j)) == multiset(s)
  {
  }

  lemma LastApart<T>(s: seq<T>)
    requires s != []
    ensures var last := |s| - 1; multiset(s) == multiset(s[..last]) + multiset{s[last]}
  {
    assert s == s[..|s| - 1] + [s[|s| - 1]];
  }

  /** Shuffling permutes its input. */
  lemma {:induction false} ShufflePermutes<T>(items: seq<T>, draws: seq<nat>)
    requires |draws| == |items| && IsDraws(draws)
    ensures multiset(FisherYates(items, draws)) == multiset(items)
    decreases |items|
  {
    if items != [] {
      var last := |items| - 1;
      var s := Swapped(items, last, draws[last]);
      SwappedKeeps(items, last, draws[last]);
      LastApart(s);
      ShufflePermutes(Kept(items, draws[last]), draws[..last]);
    }
  }

  lemma SwappedDistinct<T>(s: seq<T>, i: nat, j: nat)
    requires Distinct(s) && i < |s| && j < |s|
    ensures Distinct(Swapped(s, i, j)) && Distinct(Swapped(s, i, j)[..i])
  {
  }

  lemma LastDraw<T>(items: seq<T>, draws: seq<nat>)
    requires items != [] && |draws| == |items| && IsDraws(draws)
    ensures var last := |items| - 1; var r := FisherYates(items, draws);
            r[last] == items[draws[last]] && r[..last] == FisherYates(Kept(items, draws[last]), draws[..last])
  {
    var last := |items| - 1;
    TakeWhole(FisherYates(Kept(items, draws[last]), draws[..last]), items[draws[last]], FisherYates(items, draws));
  }

  lemma TakeWhole<T>(front: seq<T>, x: T, whole: seq<T>)
    requires whole == front + [x]
    ensures whole[..|front|] == front && whole[|front|] == x
  {
  }

  /** Different draws order distinct items differently. */
  lemma {:induction false} DrawsAreDetermined<T>(items: seq<T>, draws: seq<nat>, others: seq<nat>)
    requires Distinct(items) && |draws| == |others| == |items| && IsDraws(draws) && IsDraws(others)
    requires FisherYates(items, draws) == FisherYates(items, others)
    ensures draws == others
    decreases |items|
  {
    if items != [] {
      var last := |items| - 1;
      LastDraw(items, draws);
      LastDraw(items, others);
      SwappedDistinct(items, last, draws[last]);
      DrawsAreDetermined(Kept(items, draws[last]), draws[..last], others[..last]);
      SplitLast(draws);
      SplitLast(others);
    }
  }

  lemma Cancelled<T>(a: multiset<T>, b: multiset<T>, x: T)
    requires a + multiset{x} == b + multiset{x}
    ensures a == b
  {
    assert a == (a + multiset{x}) - multiset{x};
    assert b == (b + multiset{x}) - multiset{x};
  }

  /** Two lists with the same items and the same last item agree on what comes before it. */
  lemma WithoutLast<T>(s: seq<T>, t: seq<T>)
    requires |s| == |t| > 0 && multiset(s) == multiset(t) && s[|s| - 1] == t[|t| - 1]
    ensures multiset(s[..|s| - 1]) == multiset(t[..|t| - 1])
  {
    LastApart(s);
    LastApart(t);
    Cancelled(multiset(s[..|s| - 1]), multiset(t[..|t| - 1]), s[|s| - 1]);
  }

  lemma SameLength<T>(s: seq<T>, t: seq<T>)
    requires multiset(s) == multiset(t)
    ensures |s| == |t|
  {
    assert |multiset(s)| == |s| && |multiset(t)| == |t|;
  }

  lemma PlaceOf<T>(s: seq<T>, t: seq<T>, k: nat) returns (j: nat)
    requires multiset(s) == multiset(t) && k < |t|
    ensures j < |s| && s[j] == t[k]
  {
    assert t[k] in multiset(s);
    j :| j < |s| && s[j] == t[k];
  }

  /** Every order of the items is reached by some draws. */
  lemma {:induction false} EveryOrderIsReached<T>(items: seq<T>, order: seq<T>) returns (draws: seq<nat>)
    requires multiset(order) == multiset(items)
    ensures |draws| == |items| && IsDraws(draws) && FisherYates(items, draws) == order
    decreases |items|
  {
    SameLength(items, order);
    if items == [] {
      return [];
    }
    var last := |items| - 1;
    var j := PlaceOf(items, order, last);
    var s := Swapped(items, last, j);
    SwappedKeeps(items, last, j);
    WithoutLast(s, order);
    var rest := EveryOrderIsReached(s[..last], order[..last]);
    draws := rest + [j];
    Assembled(items, draws, rest, order, j);
  }

  lemma Assembled<T>(items: seq<T>, draws: seq<nat>, rest: seq<nat>, order: seq<T>, j: nat)
    requires |items| == |order| > 0 && |rest| == |items| - 1 && IsDraws(rest) && j < |items| && draws == rest + [j]
    requires items[j] == order[|items| - 1]
    requires FisherYates(Kept(items, j), rest) == order[..|items| - 1]
    ensures |draws| == |items| && IsDraws(draws) && FisherYates(items, draws) == order
  {
    var last := |items| - 1;
    assert draws[..last] == rest;
    LastDraw(items, draws);
    SplitLast(order);
    SplitLast(FisherYates(items, draws));
  }

  // ---- the shuffle in place ----

  /** The draws a shuffle of `len` items reads from position `pos` on, the last position first. */
  ghost function Drawn(stream: nat -> word, pos: nat, len: nat): (r: (seq<nat>, nat))
    requires len < U32 && Lively(stream)
    ensures |r.0| == len && IsDraws(r.0)
    decreases len
  {
    if len == 0 then ([], pos)
    else if len == 1 then ([0], pos)
    else
      var k := FirstAccepted(stream, pos, len);
      var rest := Drawn(stream, k + 1, len - 1);
      (rest.0 + [Remainder(stream(k), len)], rest.1)
  }

  lemma DrawnStep(stream: nat -> word, pos: nat, len: nat)
    requires 2 <= len < U32 && Lively(stream)
    ensures var k := FirstAccepted(stream, pos, len);
            var all, rest := Drawn(stream, pos, len), Drawn(stream, k + 1, len - 1);
            all.0[..len - 1] == rest.0 && all.0[len - 1] == Remainder(stream(k), len) && all.1 == rest.1
  {
  }

  /** One swap at the end of the part still to shuffle. */
  lemma ShuffleStep<T>(before: seq<T>, after: seq<T>, i: nat, j: nat, draws: seq<nat>)
    requires j <= i < |before| && after == Swapped(before, i, j)
    requires |draws| == i + 1 && IsDraws(draws) && draws[i] == j
    ensures FisherYates(before[..i + 1], draws) + before[i + 1..] == FisherYates(after[..i], draws[..i]) + after[i..]
  {
    var part := before[..i + 1];
    assert Kept(part, j) == after[..i];
    assert after[i..] == [after[i]] + before[i + 1..];
    LastDraw(part, draws);
    var r := FisherYates(part, draws);
    SplitLast(r);
    Regrouped(r[..i], r[i], before[i + 1..], r, after[i..]);
  }

  lemma Regrouped<T>(front: seq<T>, x: T, tail: seq<T>, whole: seq<T>, rest: seq<T>)
    requires whole == front + [x] && rest == [x] + tail
    ensures whole + tail == front + rest
  {
  }

  /** The first `i` items are still to be shuffled, towards `goal`, with words from `pos` up to `end`. */
  ghost predicate Pending<T>(stream: nat -> word, pos: nat, items: seq<T>, i: nat, goal: seq<T>, end: nat) {
    && i <= |items| && i < U32 && Lively(stream)
    && FisherYates(items[..i], Drawn(stream, pos, i).0) + items[i..] == goal
    && Drawn(stream, pos, i).1 == end
  }

  lemma PendingAdvances<T>(stream: nat -> word, pos: nat, before: seq<T>, after: seq<T>, i: nat, goal: seq<T>, end: nat)
    requires 1 <= i < |before| && Pending(stream, pos, before, i + 1, goal, end) == true
    requires after == Swapped(before, i, Remainder(stream(FirstAccepted(stream, pos, i + 1)), i + 1))
    ensures Pending(stream, FirstAccepted(stream, pos, i + 1) + 1, after, i, goal, end) == true
  {
    var k := FirstAccepted(stream, pos, i + 1);
    DrawnStep(stream, pos, i + 1);
    ShuffleStep(before, after, i, Remainder(stream(k), i + 1), Drawn(stream, pos, i + 1).0);
  }

  lemma PendingStarts<T>(stream: nat -> word, pos: nat, items: seq<T>)
    requires |items| < U32 && Lively(stream)
    ensures var drawn := Drawn(stream, pos, |items|);
            Pending(stream, pos, items, |items|, FisherYates(items, drawn.0), drawn.1)
  {
    assert items[..|items|] == items;
  }

  lemma PendingEnds<T>(stream: nat -> word, pos: nat, items: seq<T>, i: nat, goal: seq<T>, end: nat)
    requires i <= 1 && Pending(stream, pos, items, i, goal, end)
    ensures items == goal && pos == end
  {
    ShortShuffle(items[..i], Drawn(stream, pos, i).0);
    assert items == items[..i] + items[i..];
  }

  lemma ShortShuffle<T>(items: seq<T>, draws: seq<nat>)
    requires |items| <= 1 && |draws| == |items| && IsDraws(draws)
    ensures FisherYates(items, draws) == items
  {
    if items != [] {
      LastDraw(items, draws);
    }
  }

  /** Swaps the last item still to shuffle with one drawn at or before it. */
  method SwapDrawn<T>(rng: ChaCha8Rng, items: array<T>, i: nat, ghost stream: nat -> word)
    requires rng.Valid() && IsStream(stream, rng.key) && Lively(stream) && rng.block as object != items as object
    requires 1 <= i < items.Length && i + 1 < U32
    modifies rng, rng.block, items
    ensures rng.Valid()
    ensures var k := FirstAccepted(stream, old(rng.Position()), i + 1);
            rng.Position() == k + 1 && items[..] == Swapped(old(items[..]), i, Remainder(stream(k), i + 1))
  {
    var j := Draw(rng, i + 1, stream);
    items[i], items[j] := items[j], items[i];
  }

  /** One turn of the loop. */
  method SwapPending<T>(rng: ChaCha8Rng, items: array<T>, i: nat, ghost stream: nat -> word, ghost goal: seq<T>, ghost end: nat)
    requires rng.Valid() && IsStream(stream, rng.key) && Lively(stream) && rng.block as object != items as object
    requires 1 <= i < items.Length && i + 1 < U32
    requires Pending(stream, rng.Position(), items[..], i + 1, goal, end) == true
    modifies rng, rng.block, items
    ensures rng.Valid() == true && Pending(stream, rng.Position(), items[..], i, goal, end) == true
  {
    ghost var pos, now := rng.Position(), items[..];
    SwapDrawn(rng, items, i, stream);
    PendingAdvances(stream, pos, now, items[..], i, goal, end);
  }

  /** The loop, from the last position down to the second. */
  method SwapDown<T>(rng: ChaCha8Rng, items: array<T>, ghost stream: nat -> word, ghost goal: seq<T>, ghost end: nat)
    requires rng.Valid() && IsStream(stream, rng.key) && Lively(stream) && rng.block as object != items as object
    requires Pending(stream, rng.Position(), items[..], items.Length, goal, end)
    modifies rng, rng.block, items
    ensures rng.Valid() && rng.Position() == end && items[..] == goal
  {
    var i: nat := items.Length;
    while i > 1
      invariant rng.Valid() && i <= items.Length < U32
      invariant Pending(stream, rng.Position(), items[..], i, goal, end) == true
    {
      i := i - 1;
      SwapPending(rng, items, i, stream, goal, end);
    }
    PendingEnds(stream, rng.Position(), items[..], i, goal, end);
  }

  /** Shuffles in place, or refuses a slice whose length is no 32-bit number before a word is read. */
  method Shuffle<T>(rng: ChaCha8Rng, items: array<T>, ghost stream: nat -> word) returns (ok: bool)
    requires rng.Valid() && IsStream(stream, rng.key) && Lively(stream) && rng.block as object != items as object
    modifies rng, rng.block, items
    ensures rng.Valid() && ok == (items.Length < U32)
    ensures !ok ==> items[..] == old(items[..]) && rng.Position() == old(rng.Position())
    ensures ok ==>
      var drawn := Drawn(stream, old(rng.Position()), items.Length);
      items[..] == FisherYates(old(items[..]), drawn.0) && rng.Position() == drawn.1
  {
    if items.Length >= U32 {
      return false;
    }
    ghost var drawn := Drawn(stream, rng.Position(), items.Length);
    PendingStarts(stream, rng.Position(), items[..]);
    SwapDown(rng, items, stream, FisherYates(items[..], drawn.0), drawn.1);
    return true;
  }
}

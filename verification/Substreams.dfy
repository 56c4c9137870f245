/** What the keystreams of one nonce supply to the three families: shuffles of the sides, and draws below a power of two. */
module Substreams {
  import opened Arith
  import ChargedIceFamily
  import opened Common
  import opened Dimers
  import opened IceFamily
  import IceFieldsFamily
  import opened Machine
  import opened Shuffle
  import TwistedFamily
  import opened Uniform
  import opened Words

  // ---- draws below a power of two ----

  /** Where the bound divides 2^32 every word is accepted, so draw `k` reads word `k`. */
  lemma EveryWordAccepted(stream: nat -> word, pos: nat, n: nat)
    requires 1 <= n < U32 && U32 % n == 0 && Lively(stream)
    ensures FirstAccepted(stream, pos, n) == pos
  {
    assert Limit(n) == U32;
  }

  /** The value of draw `k` below two, and below 256, when all draws before it were below two or 256. */
  lemma DrawIsWord(stream: nat -> word, k: nat)
    requires Lively(stream)
    ensures FirstAccepted(stream, k, 2) == k && Remainder(stream(k), 2) == stream(k) % 2
    ensures FirstAccepted(stream, k, 256) == k && Remainder(stream(k), 256) == stream(k) % 256
  {
    EveryWordAccepted(stream, k, 2);
    EveryWordAccepted(stream, k, 256);
    RemainderIsModulo(stream(k), 2);
    RemainderIsModulo(stream(k), 256);
  }

  // ---- shuffles ----

  /** The positions below `n` in the order that a shuffle of `n` items by the stream leaves them. */
  ghost function OrderBy(stream: nat -> word, n: nat): (order: seq<nat>)
    requires Lively(stream)
  {
    if n < U32 then FisherYates(Unshuffled(n), Shuffle.Drawn(stream, 0, n).0) else Unshuffled(n)
  }

  lemma DrawsPermute(n: nat, draws: seq<nat>)
    requires |draws| == n && IsDraws(draws)
    ensures IsPermutation(FisherYates(Unshuffled(n), draws), n) == true
  {
    IdentityIsPermutation(n);
    ShufflePermutes(Unshuffled(n), draws);
    SameMultiset(Unshuffled(n), FisherYates(Unshuffled(n), draws));
  }

  lemma OrderIsPermutation(stream: nat -> word, n: nat)
    requires Lively(stream)
    ensures IsPermutation(OrderBy(stream, n), n)
  {
    if n < U32 {
      DrawsPermute(n, Shuffle.Drawn(stream, 0, n).0);
    } else {
      IdentityIsPermutation(n);
    }
  }

  lemma SameMultiset(list: seq<nat>, order: seq<nat>)
    requires multiset(order) == multiset(list) && Distinct(list)
    ensures Distinct(order) && forall x: nat :: x in order <==> x in list
  {
    forall x: nat ensures x in order <==> x in list {
      assert x in multiset(order) <==> x in multiset(list);
    }
    forall i, j | 0 <= i < j < |order| ensures order[i] != order[j] {
      if order[i] == order[j] {
        TwiceInOrder(order, i, j);
        OnceInList(list, order[i]);
      }
    }
  }

  lemma TwiceInOrder(order: seq<nat>, i: nat, j: nat)
    requires i < j < |order| && order[i] == order[j]
    ensures multiset(order)[order[i]] >= 2
  {
    assert order == order[..j] + [order[j]] + order[j + 1..];
    assert order[i] in order[..j];
  }

  lemma {:induction false} OnceInList(list: seq<nat>, x: nat)
    requires Distinct(list)
    ensures multiset(list)[x] <= 1
    decreases |list|
  {
    if list != [] {
      assert list == list[..|list| - 1] + [list[|list| - 1]];
      OnceInList(list[..|list| - 1], x);
      if x == list[|list| - 1] {
        assert x !in list[..|list| - 1];
      }
    }
  }

  predicate Places(at: seq<nat>, n: nat) {
    forall i :: 0 <= i < |at| ==> at[i] < n
  }

  function Pick(list: seq<nat>, at: seq<nat>): (r: seq<nat>)
    requires Places(at, |list|)
    ensures |r| == |at| && forall i :: 0 <= i < |at| ==> r[i] == list[at[i]]
  {
    seq(|at|, i requires 0 <= i < |at| => list[at[i]])
  }

  lemma KeptPicks(list: seq<nat>, at: seq<nat>, j: nat)
    requires j < |at| && Places(at, |list|)
    ensures Places(Kept(at, j), |list|) && Kept(Pick(list, at), j) == Pick(list, Kept(at, j))
  {
  }

  lemma PickPush(list: seq<nat>, front: seq<nat>, x: nat)
    requires Places(front, |list|) && x < |list|
    ensures Places(front + [x], |list|) && Pick(list, front + [x]) == Pick(list, front) + [list[x]]
  {
  }

  lemma {:induction false} ShuffledPicks(list: seq<nat>, at: seq<nat>, draws: seq<nat>)
    requires |draws| == |at| && IsDraws(draws) && Places(at, |list|)
    ensures Places(FisherYates(at, draws), |list|)
    ensures FisherYates(Pick(list, at), draws) == Pick(list, FisherYates(at, draws))
    decreases |at|
  {
    if at != [] {
      var last := |at| - 1;
      var j := draws[last];
      KeptPicks(list, at, j);
      ShuffledPicks(list, Kept(at, j), draws[..last]);
      PickPush(list, FisherYates(Kept(at, j), draws[..last]), at[j]);
    }
  }

  lemma PickIsShuffled(list: seq<nat>, order: seq<nat>)
    requires |order| == |list| && Places(order, |list|)
    ensures forall x :: x in order ==> x < |list|
    ensures Pick(list, order) == Shuffled(list, order)
  {
  }

  /** Shuffling a list places its elements as shuffling their positions does. */
  lemma ShuffleMovesPositions(stream: nat -> word, list: seq<nat>)
    requires Lively(stream) && |list| < U32
    ensures IsPermutation(OrderBy(stream, |list|), |list|) && |OrderBy(stream, |list|)| == |list|
    ensures FisherYates(list, Shuffle.Drawn(stream, 0, |list|).0) == Shuffled(list, OrderBy(stream, |list|))
  {
    var positions, draws := Unshuffled(|list|), Shuffle.Drawn(stream, 0, |list|).0;
    OrderIsPermutation(stream, |list|);
    PermutationLength(OrderBy(stream, |list|), |list|);
    ShuffledPicks(list, positions, draws);
    assert Pick(list, positions) == list;
    PickIsShuffled(list, OrderBy(stream, |list|));
  }

  // ---- the streams of the families ----

  ghost function Orders(stream: nat -> word): nat -> seq<nat>
    requires Lively(stream)
  {
    n => OrderBy(stream, n)
  }

  lemma OrdersShuffle(stream: nat -> word)
    requires Lively(stream)
    ensures Shuffles(Orders(stream))
  {
    forall n: nat {:trigger Orders(stream)(n)} ensures IsPermutation(Orders(stream)(n), n) {
      OrderIsPermutation(stream, n);
    }
  }

  /** One draw below two for each of `count` signs. */
  ghost function Signs(stream: nat -> word, count: nat): seq<nat> {
    seq(count, k requires 0 <= k < count => stream(k) % 2)
  }

  /** Four draws below two for each tile, in the order of its nodes. */
  ghost function TileSigns(stream: nat -> word): (nat, nat) -> nat {
    (k: nat, i: nat) => stream(4 * k + i) % 2
  }

  /** For each tile a chance below 256 and then a sign. */
  ghost function ChargedStreams(left: nat -> word, right: nat -> word, charge: nat -> word, gauge: nat -> word, background: nat -> word,
                                count: nat): ChargedIceFamily.Streams
    requires Lively(left) && Lively(right)
  {
    ChargedIceFamily.Streams(Orders(left), Orders(right), (k: nat) => (charge(2 * k) % 256, charge(2 * k + 1) % 2),
                             TileSigns(gauge), Signs(background, count))
  }

  ghost function FieldStreams(left: nat -> word, right: nat -> word, glass: nat -> word, gauge: nat -> word, field: nat -> word,
                              sign: nat -> word, count: nat): IceFieldsFamily.FieldStreams
    requires Lively(left) && Lively(right) && Lively(field)
  {
    IceFieldsFamily.FieldStreams(Orders(left), Orders(right), Signs(glass, count), (k: nat) => gauge(k) % 2, Orders(field),
                                 (k: nat) => sign(k) % 2)
  }

  ghost function TwistedStreams(left: nat -> word, right: nat -> word, gauge: nat -> word, weak: nat -> word, dimer: nat -> word,
                                count: nat): TwistedFamily.TwistedStreams
    requires Lively(left) && Lively(right) && Lively(dimer)
  {
    TwistedFamily.TwistedStreams(Orders(left), Orders(right), TileSigns(gauge), Signs(weak, count), Orders(dimer))
  }

  /** Keystreams supply what all three families ask for. */
  lemma KeystreamsSupply(left: nat -> word, right: nat -> word, a: nat -> word, b: nat -> word, c: nat -> word, d: nat -> word, count: nat)
    requires Lively(left) && Lively(right) && Lively(c)
    ensures var s := ChargedStreams(left, right, a, b, c, count);
            Shuffles(s.leftOrder) && Shuffles(s.rightOrder) && |s.background| == count
    ensures var s := FieldStreams(left, right, a, b, c, d, count);
            Shuffles(s.leftOrder) && Shuffles(s.rightOrder) && Shuffles(s.field) && |s.glass| == count
    ensures var s := TwistedStreams(left, right, a, b, c, count);
            Shuffles(s.leftOrder) && Shuffles(s.rightOrder) && Shuffles(s.dimer) && |s.weak| == count
  {
    OrdersShuffle(left);
    OrdersShuffle(right);
    OrdersShuffle(c);
  }
}

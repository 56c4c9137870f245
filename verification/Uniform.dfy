/** Unbiased draws by rejection. */
module Uniform {
  import opened Arith
  import opened ChaCha
  import opened Common
  import opened Machine
  import opened Rng
  import opened Words

  // ---- rejection ----

  /** The largest multiple of `n` that a 32-bit word can stay below. */
  function Limit(n: nat): nat
    requires 1 <= n < U32
  {
    U32 - U32 % n
  }

  lemma LimitIsHigh(n: nat)
    requires 1 <= n < U32
    ensures Limit(n) == U32 / n * n && 0x8000_0000 <= Limit(n) <= U32
  {
    DivModForm(U32, n);
    var q := U32 / n;
    if q < 1 {
      MulMonotone(q, 0, n);
    } else {
      MulMonotone(1, q, n);
    }
  }

  ghost function Residue(n: nat, r: nat): (s: set<nat>)
    requires 1 <= n < U32
  {
    set x: nat | x < Limit(n) && x % n == r
  }

  function Spread(q: nat, n: nat, r: nat): nat {
    MulNonNegative(q, n);
    q * n + r
  }

  lemma QuotientOfWord(x: nat, n: nat, r: nat)
    requires 1 <= n < U32 && x in Residue(n, r)
    ensures Quotient(x, n) < U32 / n && x == Spread(Quotient(x, n), n, r)
  {
    LimitIsHigh(n);
    DivModForm(x, n);
    QuotientBound(x, n, U32 / n);
  }

  lemma WordOfQuotient(q: nat, n: nat, r: nat)
    requires 1 <= n < U32 && r < n && q < U32 / n
    ensures Spread(q, n, r) in Residue(n, r) && Quotient(Spread(q, n, r), n) == q
  {
    LimitIsHigh(n);
    DigitBound(q, n, r, U32 / n);
    DivModUnique(Spread(q, n, r), n, q, r);
  }

  /** Every residue is given by the same number of accepted words. */
  lemma ResiduesAreEquallyLikely(n: nat, r: nat)
    requires 1 <= n < U32 && r < n
    ensures |Residue(n, r)| == U32 / n
  {
    DivModForm(U32, n);
    QuotientBound(U32, n, U32 + 1);
    var count: nat := Quotient(U32, n);
    var words, quotients := Residue(n, r), Below(count);
    var toQuotient, toWord := (x: nat) => Quotient(x, n), (q: nat) => Spread(q, n, r);
    forall x | x in words
      ensures toQuotient(x) in quotients && toWord(toQuotient(x)) == x
    {
      QuotientOfWord(x, n, r);
    }
    forall q | q in quotients
      ensures toWord(q) in words && toQuotient(toWord(q)) == q
    {
      WordOfQuotient(q, n, r);
    }
    BijectionCard(words, quotients, toQuotient, toWord);
  }

  lemma BijectionCard(s: set<nat>, t: set<nat>, f: nat -> nat, g: nat -> nat)
    requires forall x :: x in s ==> f(x) in t && g(f(x)) == x
    requires forall y :: y in t ==> g(y) in s && f(g(y)) == y
    ensures |s| == |t|
  {
    InjectionBound(s, t, f);
    InjectionBound(t, s, g);
  }

  // ---- the draw ----

  /** `stream` lists the words a key gives, in order. */
  ghost predicate IsStream(stream: nat -> word, key: Key) {
    forall k: nat {:trigger KeyStream(key, k)} :: stream(k) == KeyStream(key, k)
  }

  ghost predicate LowWordFrom(stream: nat -> word, p: nat) {
    exists k: nat :: p <= k && stream(k) < 0x8000_0000
  }

  /** Words with a clear top bit never run out; every draw accepts such a word. */
  ghost predicate Lively(stream: nat -> word) {
    forall p: nat {:trigger LowWordFrom(stream, p)} :: LowWordFrom(stream, p)
  }

  /** The counter wraps, so one low word anywhere in the stream comes back for ever. */
  lemma OneLowWordIsEnough(stream: nat -> word, key: Key, k: nat)
    requires IsStream(stream, key) && KeyStream(key, k) < 0x8000_0000
    ensures Lively(stream)
  {
    forall p: nat
      ensures LowWordFrom(stream, p)
    {
      var again := k + p * 16 * U64;
      StreamRepeats(key, k, p);
      assert p <= again && stream(again) == KeyStream(key, again);
    }
  }

  lemma StreamRepeats(key: Key, k: nat, turns: nat)
    ensures KeyStream(key, k + turns * 16 * U64) == KeyStream(key, k)
  {
    var again := k + turns * 16 * U64;
    var block := k / 16;
    assert again == (turns * U64 + block) * 16 + k % 16;
    DivModUnique(again, 16, turns * U64 + block, k % 16);
    DivModForm(block, U64);
    assert turns * U64 + block == (turns + block / U64) * U64 + block % U64;
    DivModUnique(turns * U64 + block, U64, turns + block / U64, block % U64);
  }

  ghost predicate IsFirst(stream: nat -> word, pos: nat, n: nat, k: nat)
    requires 1 <= n < U32
  {
    pos <= k && stream(k) < Limit(n) && forall i: nat :: pos <= i < k ==> stream(i) >= Limit(n)
  }

  ghost function FirstBefore(stream: nat -> word, pos: nat, n: nat, end: nat): (k: nat)
    requires 1 <= n < U32 && pos <= end && stream(end) < Limit(n)
    ensures IsFirst(stream, pos, n, k)
    decreases end - pos
  {
    if stream(pos) < Limit(n) then pos else FirstBefore(stream, pos + 1, n, end)
  }

  /** Where the first word a draw below `n` accepts stands. */
  ghost function FirstAccepted(stream: nat -> word, pos: nat, n: nat): (k: nat)
    requires 1 <= n < U32 && Lively(stream)
    ensures IsFirst(stream, pos, n, k)
  {
    assert LowWordFrom(stream, pos);
    var end: nat :| pos <= end && stream(end) < 0x8000_0000;
    LimitIsHigh(n);
    FirstBefore(stream, pos, n, end)
  }

  /** Reads words until one lies below the limit. */
  method Draw(rng: ChaCha8Rng, n: nat, ghost stream: nat -> word) returns (x: nat)
    requires rng.Valid() && 1 <= n < U32 && IsStream(stream, rng.key) && Lively(stream)
    modifies rng, rng.block
    ensures rng.Valid()
    ensures var k := FirstAccepted(stream, old(rng.Position()), n);
            rng.Position() == k + 1 && x == Remainder(stream(k), n)
  {
    var limit := Limit(n);
    ghost var pos := rng.Position();
    ghost var first := FirstAccepted(stream, pos, n);
    while true
      invariant rng.Valid() && pos <= rng.Position() <= first
      decreases first - rng.Position()
    {
      ghost var at := rng.Position();
      assert at < first ==> stream(at) >= limit;
      var w := rng.NextU32();
      assert w == stream(at);
      if w < limit {
        RemainderIsModulo(w, n);
        return w % n;
      }
    }
  }
}

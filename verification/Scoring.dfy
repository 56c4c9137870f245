/** Spin vectors and the flip-invariant Hamming distance. */
module Scoring {
  import opened Machine

  type Spins = seq<int>

  function Min(x: nat, y: nat): nat {
    if x <= y then x else y
  }

  /** Positions where the signs differ; a spin above zero is +1 and any other is -1. */
  function Disagreements(a: Spins, b: Spins): nat
    requires |a| == |b|
  {
    if a == [] then 0
    else Disagreements(a[..|a| - 1], b[..|b| - 1]) + if (a[|a| - 1] > 0) != (b[|b| - 1] > 0) then 1 else 0
  }

  lemma {:induction false} DisagreementsBounded(a: Spins, b: Spins)
    requires |a| == |b|
    ensures Disagreements(a, b) <= |a| && Disagreements(a, b) == Disagreements(b, a)
  {
    if a != [] {
      DisagreementsBounded(a[..|a| - 1], b[..|b| - 1]);
    }
  }

  /** Widths differ gives 0; the count is narrowed to 32 bits. */
  function HammingFlipInvariant(a: Spins, b: Spins): nat {
    if |a| != |b| then 0
    else
      DisagreementsBounded(a, b);
      Min(Disagreements(a, b), |a| - Disagreements(a, b)) % U32
  }

  lemma HammingSymmetric(a: Spins, b: Spins)
    ensures HammingFlipInvariant(a, b) == HammingFlipInvariant(b, a)
  {
    if |a| == |b| {
      DisagreementsBounded(a, b);
    }
  }

  lemma {:induction false} NoDisagreement(a: Spins)
    ensures Disagreements(a, a) == 0
  {
    if a != [] {
      NoDisagreement(a[..|a| - 1]);
    }
  }

  lemma HammingToSelf(a: Spins)
    ensures HammingFlipInvariant(a, a) == 0
  {
    NoDisagreement(a);
  }

  /** At each position the three pairs disagree not at all or exactly twice. */
  lemma {:induction false} DisagreementTriangle(a: Spins, b: Spins, c: Spins)
    requires |a| == |b| == |c|
    ensures Disagreements(a, c) <= Disagreements(a, b) + Disagreements(b, c)
    ensures Disagreements(a, b) <= Disagreements(a, c) + Disagreements(b, c)
    ensures Disagreements(b, c) <= Disagreements(a, b) + Disagreements(a, c)
    ensures Disagreements(a, b) + Disagreements(b, c) + Disagreements(a, c) <= 2 * |a|
  {
    if a != [] {
      DisagreementTriangle(a[..|a| - 1], b[..|b| - 1], c[..|c| - 1]);
    }
  }

  /** Vectors narrow enough for the distance, at most half the width, to fit 32 bits. */
  predicate Narrow(width: nat) {
    width < 2 * U32
  }

  /** The triangle inequality of the flip-invariant distance. */
  lemma HammingTriangle(a: Spins, b: Spins, c: Spins)
    requires |a| == |b| == |c| && Narrow(|a|)
    ensures HammingFlipInvariant(a, c) <= HammingFlipInvariant(a, b) + HammingFlipInvariant(b, c)
  {
    DisagreementTriangle(a, b, c);
    FitsNarrow(a, b);
    FitsNarrow(b, c);
    FitsNarrow(a, c);
    FoldTriangle(Disagreements(a, c), Disagreements(a, b), Disagreements(b, c), |a|);
  }

  /** The vector whose first `k` spins point down and whose others point up. */
  ghost function Steps(n: nat, k: nat): (s: Spins)
    requires k <= n
    ensures |s| == n
  {
    seq(n, i => if i < k then -1 else 1)
  }

  lemma {:induction false} StepsDisagree(n: nat, k: nat, j: nat)
    requires j <= k <= n
    ensures Disagreements(Steps(n, k), Steps(n, j)) == k - j
  {
    if n > 0 {
      var m := n - 1;
      StepsDisagree(m, if k < n then k else m, if j < n then j else m);
      assert Steps(n, k)[..m] == Steps(m, if k < n then k else m);
      assert Steps(n, j)[..m] == Steps(m, if j < n then j else m);
    }
  }

  /** Wider vectors break the triangle inequality: a distance of 2^32 is narrowed to zero. */
  lemma WideTriangleFails(n: nat)
    requires !Narrow(n)
    ensures exists a: Spins, b: Spins, c: Spins :: |a| == |b| == |c| == n && BreaksTriangle(a, b, c)
  {
    var a, b, c := Steps(n, U32), Steps(n, 0), Steps(n, 1);
    StepsDisagree(n, U32, 0);
    StepsDisagree(n, U32, 1);
    StepsDisagree(n, 1, 0);
    HammingSymmetric(b, c);
    assert BreaksTriangle(a, c, b) || BreaksTriangle(a, b, c);
  }

  ghost predicate BreaksTriangle(a: Spins, b: Spins, c: Spins) {
    HammingFlipInvariant(a, c) > HammingFlipInvariant(a, b) + HammingFlipInvariant(b, c)
  }

  /** The triangle inequality holds for all vectors of a width exactly when the width is below 2^33. */
  lemma TriangleExactly(n: nat)
    ensures (exists a: Spins, b: Spins, c: Spins :: |a| == |b| == |c| == n && BreaksTriangle(a, b, c)) <==> !Narrow(n)
  {
    if Narrow(n) {
      forall a: Spins, b: Spins, c: Spins | |a| == |b| == |c| == n ensures !BreaksTriangle(a, b, c) {
        HammingTriangle(a, b, c);
      }
    } else {
      WideTriangleFails(n);
    }
  }

  lemma FitsNarrow(a: Spins, b: Spins)
    requires |a| == |b| && Narrow(|a|)
    ensures Disagreements(a, b) <= |a|
    ensures HammingFlipInvariant(a, b) == Min(Disagreements(a, b), |a| - Disagreements(a, b))
  {
    DisagreementsBounded(a, b);
  }

  lemma FoldTriangle(x: nat, y: nat, z: nat, n: nat)
    requires x <= y + z && y <= x + z && z <= x + y && x + y + z <= 2 * n && x <= n && y <= n && z <= n
    ensures Min(x, n - x) <= Min(y, n - y) + Min(z, n - z)
  {
  }

  lemma HammingAtMostHalf(a: Spins, b: Spins)
    ensures 2 * HammingFlipInvariant(a, b) <= |a|
  {
    if |a| == |b| {
      DisagreementsBounded(a, b);
    }
  }

  /** Flipping every spin of one side changes nothing. */
  lemma FlipInvariant(a: Spins, b: Spins, flipped: Spins)
    requires |a| == |b| == |flipped|
    requires forall i :: 0 <= i < |b| ==> (flipped[i] > 0) == !(b[i] > 0)
    ensures HammingFlipInvariant(a, flipped) == HammingFlipInvariant(a, b)
  {
    FlipComplements(a, b, flipped);
    DisagreementsBounded(a, b);
  }

  lemma {:induction false} FlipComplements(a: Spins, b: Spins, flipped: Spins)
    requires |a| == |b| == |flipped|
    requires forall i :: 0 <= i < |b| ==> (flipped[i] > 0) == !(b[i] > 0)
    ensures Disagreements(a, flipped) == |a| - Disagreements(a, b)
  {
    if a != [] {
      FlipComplements(a[..|a| - 1], b[..|b| - 1], flipped[..|flipped| - 1]);
    }
  }
}

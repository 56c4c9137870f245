/** Spin vectors of known distances: rows of a Sylvester matrix, stretched and joined. */
module SpinRows {
  import opened Common
  import opened Machine
  import opened Scoring

  function Two(k: nat): (p: nat)
    ensures p >= 1
  {
    if k == 0 then 1 else 2 * Two(k - 1)
  }

  predicate AllSigns(a: Spins) {
    forall p :: 0 <= p < |a| ==> IsSign(a[p])
  }

  function Negated(a: Spins): (b: Spins)
    ensures |b| == |a|
    ensures AllSigns(a) ==> AllSigns(b)
  {
    seq(|a|, p requires 0 <= p < |a| => -a[p])
  }

  /** A row of the next order: the half repeated, plain or negated. */
  function Doubled(a: Spins, plain: bool): (b: Spins)
    ensures |b| == 2 * |a|
    ensures AllSigns(a) ==> AllSigns(b)
  {
    a + if plain then a else Negated(a)
  }

  /** Which row of the half order row `i` of order 2^k doubles. */
  function HalfRow(k: nat, i: nat): (h: nat)
    requires k > 0 && i < Two(k)
    ensures h < Two(k - 1)
  {
    if i < Two(k - 1) then i else i - Two(k - 1)
  }

  /** Row `i` of the Sylvester matrix of order 2^k. */
  function Row(k: nat, i: nat): (row: Spins)
    requires i < Two(k)
    ensures |row| == Two(k) && AllSigns(row)
    decreases k, i
  {
    if k == 0 then [1] else Doubled(Row(k - 1, HalfRow(k, i)), i < Two(k - 1))
  }

  lemma {:induction false} JoinedDisagree(a: Spins, b: Spins, c: Spins, d: Spins)
    requires |a| == |c| && |b| == |d|
    ensures Disagreements(a + b, c + d) == Disagreements(a, c) + Disagreements(b, d)
    decreases |b|
  {
    var left, right := a + b, c + d;
    if b == [] {
      assert left == a && right == c;
    } else {
      var m := |b| - 1;
      JoinedDisagree(a, b[..m], c, d[..m]);
      assert left[..|left| - 1] == a + b[..m] && right[..|right| - 1] == c + d[..m];
    }
  }

  lemma NegatedDisagree(a: Spins, b: Spins)
    requires |a| == |b| && AllSigns(b)
    ensures Disagreements(a, Negated(b)) == |a| - Disagreements(a, b)
  {
    FlipComplements(a, b, Negated(b));
  }

  lemma BothNegatedDisagree(a: Spins, b: Spins)
    requires |a| == |b| && AllSigns(a) && AllSigns(b)
    ensures Disagreements(Negated(a), Negated(b)) == Disagreements(a, b)
  {
    NegatedDisagree(Negated(a), b);
    DisagreementsBounded(Negated(a), b);
    NegatedDisagree(b, a);
    DisagreementsBounded(a, b);
  }

  /** Different rows disagree in exactly half of their places. */
  lemma {:induction false} RowsDisagree(k: nat, i: nat, j: nat)
    requires i < Two(k) && j < Two(k)
    ensures 2 * Disagreements(Row(k, i), Row(k, j)) == if i == j then 0 else Two(k)
    decreases k, i
  {
    if i == j {
      NoDisagreement(Row(k, i));
    } else if k > 0 {
      RowsDisagree(k - 1, HalfRow(k, i), HalfRow(k, j));
      RowsDouble(k, i, j);
    }
  }

  lemma RowsDouble(k: nat, i: nat, j: nat)
    requires k > 0 && i < Two(k) && j < Two(k)
    ensures var d := Disagreements(Row(k - 1, HalfRow(k, i)), Row(k - 1, HalfRow(k, j)));
            Disagreements(Row(k, i), Row(k, j)) == if i < Two(k - 1) <==> j < Two(k - 1) then 2 * d else Two(k - 1)
  {
    HalvesDisagree(Row(k - 1, HalfRow(k, i)), Row(k - 1, HalfRow(k, j)), i < Two(k - 1), j < Two(k - 1));
  }

  lemma HalvesDisagree(a: Spins, b: Spins, p: bool, q: bool)
    requires |a| == |b| && AllSigns(a) && AllSigns(b)
    ensures Disagreements(Doubled(a, p), Doubled(b, q)) == if p == q then 2 * Disagreements(a, b) else |a|
  {
    JoinedDisagree(a, if p then a else Negated(a), b, if q then b else Negated(b));
    NegatedDisagree(a, b);
    NegatedDisagree(b, a);
    DisagreementsBounded(a, b);
    DisagreementsBounded(Negated(a), b);
    BothNegatedDisagree(a, b);
  }

  // ---- stretched patterns ----

  function Level(s: int, r: nat): (a: Spins)
    ensures |a| == r
    ensures IsSign(s) ==> AllSigns(a)
  {
    seq(r, _ => s)
  }

  lemma {:induction false} LevelsDisagree(s: int, t: int, r: nat)
    ensures Disagreements(Level(s, r), Level(t, r)) == if (s > 0) != (t > 0) then r else 0
  {
    if r > 0 {
      LevelsDisagree(s, t, r - 1);
      assert Level(s, r)[..r - 1] == Level(s, r - 1) && Level(t, r)[..r - 1] == Level(t, r - 1);
    }
  }

  /** Every spin of `a` repeated `r` times. */
  function Stretched(a: Spins, r: nat): (b: Spins)
    ensures |b| == Times(|a|, r)
    ensures AllSigns(a) ==> AllSigns(b)
  {
    if a == [] then [] else Stretched(a[..|a| - 1], r) + Level(a[|a| - 1], r)
  }

  /** `n * r`, by repeated addition. */
  function Times(n: nat, r: nat): nat {
    if n == 0 then 0 else Times(n - 1, r) + r
  }

  lemma {:induction false} TimesIsProduct(n: nat, r: nat)
    ensures Times(n, r) == n * r
  {
    if n > 0 {
      TimesIsProduct(n - 1, r);
    }
  }

  lemma {:induction false} TimesAdds(n: nat, m: nat, r: nat)
    ensures Times(n + m, r) == Times(n, r) + Times(m, r)
  {
    if n > 0 {
      TimesAdds(n - 1, m, r);
    }
  }

  lemma {:induction false} StretchedDisagree(a: Spins, b: Spins, r: nat)
    requires |a| == |b|
    ensures Disagreements(Stretched(a, r), Stretched(b, r)) == Times(Disagreements(a, b), r)
  {
    if a != [] {
      var m := |a| - 1;
      StretchedDisagree(a[..m], b[..m], r);
      LevelsDisagree(a[m], b[m], r);
      JoinedDisagree(Stretched(a[..m], r), Level(a[m], r), Stretched(b[..m], r), Level(b[m], r));
    }
  }

  /** A difference of at most half the width, below 2^32, is the distance. */
  lemma PlainDistance(a: Spins, b: Spins)
    requires |a| == |b| && 2 * Disagreements(a, b) <= |a| && Disagreements(a, b) < U32
    ensures HammingFlipInvariant(a, b) == Disagreements(a, b)
  {
  }
}

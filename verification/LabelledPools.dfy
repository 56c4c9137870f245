/** Pools of equally distant and of equal reads, and what the greedy rule picks from them. */
module LabelledPools {
  import opened Common
  import opened Diversity
  import opened PairSums
  import opened Scoring
  import opened SpinRows

  function Upto(n: nat): (p: seq<nat>)
    ensures |p| == n
  {
    seq(n, i => i)
  }

  lemma UptoFacts(sols: seq<Spins>, n: nat)
    requires n <= |sols|
    ensures Indices(sols, Upto(n)) && Distinct(Upto(n)) && forall x: nat :: x in Upto(n) <==> x < n
    ensures n > 0 ==> Upto(n) == Upto(n - 1) + [n - 1]
    ensures Picked(sols, Upto(n)) == sols[..n]
  {
    forall x: nat ensures x in Upto(n) <==> x < n {
      if x < n {
        assert Upto(n)[x] == x;
      }
    }
  }

  // ---- reading order as greedy order ----

  lemma NearAtMost(sols: seq<Spins>, j: nat, c: nat, i: nat)
    requires i < j <= |sols| && c < |sols|
    ensures Indices(sols, Upto(j)) && NearestDist(sols, Upto(j), c) <= Dist(sols, c, i)
  {
    UptoFacts(sols, j);
    NearestIsLeast(sols, Upto(j), c);
    assert i in Upto(j);
  }

  lemma NearAtLeast(sols: seq<Spins>, j: nat, c: nat, b: nat)
    requires 0 < j <= |sols| && c < |sols| && forall i: nat :: i < j ==> Dist(sols, c, i) >= b
    ensures Indices(sols, Upto(j)) && NearestDist(sols, Upto(j), c) >= b
  {
    UptoFacts(sols, j);
    NearestIsLeast(sols, Upto(j), c);
  }

  /** No solution from `j` on is farther from those before `j` than `j` itself. */
  ghost predicate NextIsFarthest(sols: seq<Spins>, j: nat)
    requires 0 < j < |sols|
  {
    Indices(sols, Upto(j)) && forall c: nat :: j <= c < |sols| ==> NearestDist(sols, Upto(j), c) <= NearestDist(sols, Upto(j), j)
  }

  /** Where every solution is a farthest next one, the greedy rule picks in reading order. */
  lemma ReadingOrderIsGreedy(sols: seq<Spins>, n: nat)
    requires 2 <= n <= |sols| && MostDistant(sols, 0, 1)
    requires forall j :: 2 <= j < n ==> NextIsFarthest(sols, j)
    ensures GreedyOrder(sols, Upto(n))
  {
    UptoFacts(sols, n);
    forall j | 2 <= j < n ensures PickAt(sols, Upto(n), j) {
      assert Upto(n)[..j] == Upto(j);
      UptoFacts(sols, j);
      assert NextIsFarthest(sols, j);
    }
  }

  lemma ReadingOrderIsSelected(sols: seq<Spins>, n: nat)
    requires 2 <= n <= |sols| && (n < |sols| ==> GreedyOrder(sols, Upto(n)))
    ensures IsSelection(sols, n, Upto(n))
  {
    UptoFacts(sols, n);
  }

  // ---- labels ----

  /** Solutions with one tag are alike, and any others are `h` apart. */
  ghost predicate Labelled(sols: seq<Spins>, tag: seq<nat>, h: nat) {
    && |tag| == |sols|
    && forall i: nat, j: nat :: i < |sols| && j < |sols| ==> Dist(sols, i, j) == if tag[i] == tag[j] then 0 else h
  }

  /** The first `m` labels are new, and all later ones repeat one of them. */
  ghost predicate NewThenOld(tag: seq<nat>, m: nat) {
    && 1 <= m <= |tag|
    && (forall j: nat :: j < m ==> tag[j] == j)
    && forall j: nat :: m <= j < |tag| ==> tag[j] < m
  }

  lemma LabelsAreGreedy(sols: seq<Spins>, tag: seq<nat>, h: nat, m: nat, n: nat)
    requires Labelled(sols, tag, h) && NewThenOld(tag, m) && 2 <= n <= |sols|
    ensures GreedyOrder(sols, Upto(n))
  {
    forall j | 2 <= j < n ensures NextIsFarthest(sols, j) {
      LabelIsFarthest(sols, tag, h, m, j);
    }
    FirstPair(sols, tag, h, m);
    ReadingOrderIsGreedy(sols, n);
  }

  lemma FirstPair(sols: seq<Spins>, tag: seq<nat>, h: nat, m: nat)
    requires Labelled(sols, tag, h) && NewThenOld(tag, m) && 2 <= |sols|
    ensures MostDistant(sols, 0, 1)
  {
    if m == 1 {
      assert forall j: nat :: j < |tag| ==> tag[j] == 0;
    } else {
      assert Dist(sols, 0, 1) == h;
    }
  }

  lemma LabelIsFarthest(sols: seq<Spins>, tag: seq<nat>, h: nat, m: nat, j: nat)
    requires Labelled(sols, tag, h) && NewThenOld(tag, m) && 1 <= j < |sols|
    ensures NextIsFarthest(sols, j)
  {
    UptoFacts(sols, j);
    forall c: nat | j <= c < |sols| ensures NearestDist(sols, Upto(j), c) <= NearestDist(sols, Upto(j), j) {
      if j < m {
        NearAtLeast(sols, j, j, h);
        NearAtMost(sols, j, c, 0);
      } else {
        NearAtMost(sols, j, c, tag[c]);
      }
    }
  }

  // ---- their sums ----

  /** How many of the first `k` labels are `l`. */
  ghost function CountTag(tag: seq<nat>, k: nat, l: nat): (c: nat)
    requires k <= |tag|
    ensures c <= k
  {
    if k == 0 then 0 else CountTag(tag, k - 1, l) + if tag[k - 1] == l then 1 else 0
  }

  /** The pairs of different labels among the first `k`. */
  ghost function DifferingPairs(tag: seq<nat>, k: nat): nat
    requires k <= |tag|
  {
    if k == 0 then 0 else DifferingPairs(tag, k - 1) + (k - 1 - CountTag(tag, k - 1, tag[k - 1]))
  }

  /** The distances from the first `k` solutions to solution `x`. */
  ghost function RowTo(sols: seq<Spins>, k: nat, x: nat): nat
    requires k <= |sols| && x < |sols|
  {
    if k == 0 then 0 else RowTo(sols, k - 1, x) + Dist(sols, k - 1, x)
  }

  /** The distances over all pairs of the first `k` solutions. */
  ghost function PairTo(sols: seq<Spins>, k: nat): nat
    requires k <= |sols|
  {
    if k == 0 then 0 else PairTo(sols, k - 1) + RowTo(sols, k - 1, k - 1)
  }

  lemma {:induction false} RowSumIsRowTo(sols: seq<Spins>, k: nat, x: nat)
    requires k <= |sols| && x < |sols|
    ensures Indices(sols, Upto(k)) && RowSum(sols, Upto(k), x) == RowTo(sols, k, x)
  {
    UptoFacts(sols, k);
    if k > 0 {
      RowSumIsRowTo(sols, k - 1, x);
      Unpush(sols, Upto(k), Upto(k - 1), k - 1);
    }
  }

  lemma {:induction false} PairSumIsPairTo(sols: seq<Spins>, k: nat)
    requires k <= |sols|
    ensures Indices(sols, Upto(k)) && PairSum(sols, Upto(k)) == PairTo(sols, k)
  {
    UptoFacts(sols, k);
    if k > 0 {
      PairSumIsPairTo(sols, k - 1);
      RowSumIsRowTo(sols, k - 1, k - 1);
      Unpush(sols, Upto(k), Upto(k - 1), k - 1);
    }
  }

  /** The sum over the first `k` solutions and one more. */
  lemma UptoPlus(sols: seq<Spins>, k: nat, x: nat)
    requires k <= |sols| && x < |sols|
    ensures Indices(sols, Upto(k) + [x]) && PairSum(sols, Upto(k) + [x]) == PairTo(sols, k) + RowTo(sols, k, x)
  {
    UptoFacts(sols, k);
    PairSumIsPairTo(sols, k);
    RowSumIsRowTo(sols, k, x);
    Unpush(sols, Upto(k) + [x], Upto(k), x);
  }

  lemma UptoPlusDistinct(sols: seq<Spins>, k: nat, x: nat)
    requires k <= x < |sols|
    ensures Indices(sols, Upto(k) + [x]) && Distinct(Upto(k) + [x])
  {
    UptoFacts(sols, k);
  }

  lemma {:induction false} RowOfLabels(sols: seq<Spins>, tag: seq<nat>, h: nat, k: nat, x: nat)
    requires Labelled(sols, tag, h) && k <= |sols| && x < |sols|
    ensures RowTo(sols, k, x) == Times(k - CountTag(tag, k, tag[x]), h)
  {
    if k > 0 {
      RowOfLabels(sols, tag, h, k - 1, x);
    }
  }

  lemma {:induction false} PairsOfLabels(sols: seq<Spins>, tag: seq<nat>, h: nat, k: nat)
    requires Labelled(sols, tag, h) && k <= |sols|
    ensures PairTo(sols, k) == Times(DifferingPairs(tag, k), h)
  {
    if k > 0 {
      PairsOfLabels(sols, tag, h, k - 1);
      RowOfLabels(sols, tag, h, k - 1, k - 1);
      TimesAdds(DifferingPairs(tag, k - 1), k - 1 - CountTag(tag, k - 1, tag[k - 1]), h);
    }
  }

  lemma {:induction false} NewCounts(tag: seq<nat>, m: nat, k: nat, l: nat)
    requires k <= m <= |tag| && forall j: nat :: j < m ==> tag[j] == j
    ensures CountTag(tag, k, l) == if l < k then 1 else 0
    ensures DifferingPairs(tag, k) == Pairs(k)
  {
    if k > 0 {
      NewCounts(tag, m, k - 1, l);
      NewCounts(tag, m, k - 1, k - 1);
    }
  }

  /** From position `m` up to `n` every label is `g`, which stands once before. */
  ghost predicate RepeatsOne(tag: seq<nat>, m: nat, g: nat, n: nat) {
    m <= n <= |tag| && CountTag(tag, m, g) == 1 && forall j: nat :: m <= j < n ==> tag[j] == g
  }

  lemma {:induction false} CountRepeated(tag: seq<nat>, m: nat, g: nat, n: nat, k: nat, l: nat)
    requires RepeatsOne(tag, m, g, n) && m <= k <= n
    ensures CountTag(tag, k, l) == CountTag(tag, m, l) + if l == g then k - m else 0
  {
    if k > m {
      CountRepeated(tag, m, g, n, k - 1, l);
    }
  }

  /** All later pairs differ but those within the repeated label. */
  lemma {:induction false} DifferingRepeated(tag: seq<nat>, m: nat, g: nat, n: nat, k: nat)
    requires RepeatsOne(tag, m, g, n) && m <= k <= n
    ensures DifferingPairs(tag, k) == DifferingPairs(tag, m) + Pairs(k) - Pairs(m) - Pairs(k - m + 1)
  {
    assert Pairs(1) == 0;
    if k > m {
      DifferingRepeated(tag, m, g, n, k - 1);
      CountRepeated(tag, m, g, n, k - 1, g);
    }
  }
}

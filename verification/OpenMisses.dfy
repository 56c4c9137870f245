/** Pools on which a miss is not final, for every target outside the condition for finality. */
module OpenMisses {
  import Arith
  import opened Diversity
  import opened LabelledPools
  import opened Ladders
  import opened Machine
  import opened PairSums
  import opened Scoring
  import opened SpinRows
  import opened Target

  /** Some pool with that many reads below the ceiling misses the diversity gate although another set passes. */
  ghost predicate DiversityOpen(target: Difficulty, below: nat) {
    exists pool, least ::
      |BelowCeiling(pool, target)| == below && DiversityMiss(pool, target, least) && Attainable(pool, target)
  }

  // ---- solutions of one height ----

  const HALF: nat := 0x8000_0000

  lemma OrderOf32()
    ensures Two(32) == U32 == 2 * HALF
  {
    assert Two(8) == 0x100;
    assert Two(16) == 0x1_0000 by {
      assert Two(12) == 0x1000;
    }
    assert Two(24) == 0x100_0000 by {
      assert Two(20) == 0x10_0000;
    }
    assert Two(28) == 0x1000_0000;
  }

  /** One row of order 2^o for each label, followed by equal places. */
  function Tagged(o: nat, pad: nat, tag: seq<nat>): (sols: seq<Spins>)
    requires forall i :: 0 <= i < |tag| ==> tag[i] < Two(o)
    ensures |sols| == |tag|
  {
    seq(|tag|, i requires 0 <= i < |tag| => Row(o, tag[i]) + Level(1, pad))
  }

  lemma TaggedDistance(o: nat, pad: nat, x: nat, y: nat)
    requires Two(o) == U32 && x < U32 && y < U32
    ensures HammingFlipInvariant(Row(o, x) + Level(1, pad), Row(o, y) + Level(1, pad)) == if x == y then 0 else HALF
  {
    RowsDisagree(o, x, y);
    LevelsDisagree(1, 1, pad);
    JoinedDisagree(Row(o, x), Level(1, pad), Row(o, y), Level(1, pad));
    PlainDistance(Row(o, x) + Level(1, pad), Row(o, y) + Level(1, pad));
  }

  lemma TaggedIsLabelled(o: nat, pad: nat, tag: seq<nat>)
    requires Two(o) == U32 && forall i :: 0 <= i < |tag| ==> tag[i] < U32
    ensures Labelled(Tagged(o, pad, tag), tag, HALF) && Shapely(Tagged(o, pad, tag), U32 + pad)
  {
    var sols := Tagged(o, pad, tag);
    forall i: nat, j: nat | i < |sols| && j < |sols| ensures Dist(sols, i, j) == if tag[i] == tag[j] then 0 else HALF {
      TaggedDistance(o, pad, tag[i], tag[j]);
    }
  }

  /** The most pairs of equal solutions among `n` with which the gate, `rho` out of a thousand, is passed. */
  ghost function Slack(n: nat, rho: nat): nat
    requires rho <= 1000
  {
    Arith.MulNonNegative(1000 - rho, Pairs(n));
    ((1000 - rho) * Pairs(n)) / 1000
  }

  lemma WithinSlack(n: nat, rho: nat, equal: nat)
    requires rho <= 1000 && equal <= Pairs(n)
    ensures 1000 * (Pairs(n) - equal) >= rho * Pairs(n) <==> equal <= Slack(n, rho)
  {
    Arith.MulNonNegative(1000 - rho, Pairs(n));
    assert (1000 - rho) * Pairs(n) == 1000 * Pairs(n) - rho * Pairs(n);
  }

  lemma HeightCancels(u: nat, d: nat, n: nat, c: nat)
    requires d >= 1
    ensures Reaches(Times(u, HALF), d, n, 2 * HALF * c) <==> 1000 * u >= (2 * d - 1) * c * n
  {
    TimesIsProduct(u, HALF);
    var k := (2 * d - 1) * c * n;
    assert n * (2 * HALF * c) == 2 * HALF * (c * n) by {
      Regrouped(n, 2 * HALF, c);
    }
    assert (2 * d - 1) * (2 * HALF * (c * n)) == 2 * HALF * k by {
      Regrouped(2 * d - 1, 2 * HALF, c * n);
      assert (2 * d - 1) * (c * n) == k by {
        Associates(2 * d - 1, c, n);
      }
    }
  }

  lemma Regrouped(x: int, y: int, z: int)
    ensures x * (y * z) == y * (x * z) && x * (y * z) == y * (z * x)
  {
  }

  lemma Associates(x: int, y: int, z: int)
    ensures x * (y * z) == x * y * z
  {
  }

  /** The share of differing pairs, out of a thousand, that the gate `d` asks of solutions padded to `c` times their width. */
  ghost function Rho(d: nat, c: nat): nat
    requires d >= 1
  {
    (2 * d - 1) * c
  }

  lemma GateIsSlack(n: nat, d: nat, c: nat, equal: nat, total: nat)
    requires 1 <= d && Rho(d, c) <= 1000 && equal <= Pairs(n) && total == Times(Pairs(n) - equal, HALF)
    ensures Reaches(total, d, Pairs(n), 2 * HALF * c) <==> equal <= Slack(n, Rho(d, c))
  {
    HeightCancels(Pairs(n) - equal, d, Pairs(n), c);
    WithinSlack(n, Rho(d, c), equal);
  }

  /** The gate in terms of equal pairs. */
  lemma PassesWithin(sols: seq<Spins>, p: seq<nat>, d: nat, c: nat, equal: nat, width: nat)
    requires OneWidth(sols, p, width) && width == 2 * HALF * c
    requires |p| >= 2 && 1 <= d <= 500 && Rho(d, c) <= 1000
    requires equal <= Pairs(|p|) && PairSum(sols, p) == Times(Pairs(|p|) - equal, HALF)
    ensures DiversityMilli(Picked(sols, p)) >= d <==> equal <= Slack(|p|, Rho(d, c))
  {
    ReachesExactly(sols, p, width, d);
    GateIsSlack(|p|, d, c, equal, PairSum(sols, p));
  }

  // ---- labelled pools ----

  ghost predicate GateFits(d: nat, c: nat, width: nat) {
    1 <= d <= 500 && width > 0 && width == 2 * HALF * c && Rho(d, c) <= 1000
  }

  lemma {:induction false} DifferingAtMost(tag: seq<nat>, k: nat)
    requires k <= |tag|
    ensures DifferingPairs(tag, k) <= Pairs(k)
  {
    if k > 0 {
      DifferingAtMost(tag, k - 1);
    }
  }

  lemma PrefixMean(sols: seq<Spins>, tag: seq<nat>, k: nat, d: nat, c: nat, width: nat)
    requires Labelled(sols, tag, HALF) && Shapely(sols, width) && 2 <= k <= |sols| && GateFits(d, c, width)
    ensures DiversityMilli(sols[..k]) >= d <==> Pairs(k) - DifferingPairs(tag, k) <= Slack(k, Rho(d, c))
  {
    PairsOfLabels(sols, tag, HALF, k);
    PairSumIsPairTo(sols, k);
    UptoFacts(sols, k);
    DifferingAtMost(tag, k);
    PassesWithin(sols, Upto(k), d, c, Pairs(k) - DifferingPairs(tag, k), width);
  }

  /** The equal pairs among the first `k - 1` solutions and solution `x`. */
  ghost function EqualWith(tag: seq<nat>, k: nat, x: nat): int
    requires 1 <= k <= |tag| && x < |tag|
  {
    Pairs(k) - (DifferingPairs(tag, k - 1) + (k - 1 - CountTag(tag, k - 1, tag[x])))
  }

  lemma SwappedTo(sols: seq<Spins>, tag: seq<nat>, h: nat, k: nat, x: nat)
    requires Labelled(sols, tag, h) && 2 <= k <= |sols| && x < |sols|
    ensures EqualWith(tag, k, x) <= Pairs(k)
    ensures PairTo(sols, k - 1) + RowTo(sols, k - 1, x) == Times(Pairs(k) - EqualWith(tag, k, x), h)
  {
    var u, v := DifferingPairs(tag, k - 1), k - 1 - CountTag(tag, k - 1, tag[x]);
    PairsOfLabels(sols, tag, h, k - 1);
    RowOfLabels(sols, tag, h, k - 1, x);
    TimesAdds(u, v, h);
    assert Pairs(k) - EqualWith(tag, k, x) == u + v;
  }

  lemma SwappedSum(sols: seq<Spins>, tag: seq<nat>, h: nat, k: nat, x: nat)
    requires Labelled(sols, tag, h) && 2 <= k <= |sols| && x < |sols|
    ensures Indices(sols, Upto(k - 1) + [x]) && EqualWith(tag, k, x) <= Pairs(k)
    ensures PairSum(sols, Upto(k - 1) + [x]) == Times(Pairs(k) - EqualWith(tag, k, x), h)
  {
    SwappedTo(sols, tag, h, k, x);
    UptoPlus(sols, k - 1, x);
  }

  lemma EqualIsNatural(tag: seq<nat>, k: nat, x: nat)
    requires 1 <= k <= |tag| && x < |tag|
    ensures EqualWith(tag, k, x) >= 0
  {
    DifferingAtMost(tag, k - 1);
  }

  lemma SwappedMean(sols: seq<Spins>, tag: seq<nat>, k: nat, x: nat, d: nat, c: nat, width: nat)
    requires Labelled(sols, tag, HALF) && Shapely(sols, width) && 2 <= k <= |sols| && x < |sols| && GateFits(d, c, width)
    ensures Indices(sols, Upto(k - 1) + [x])
    ensures DiversityMilli(Picked(sols, Upto(k - 1) + [x])) >= d <==> EqualWith(tag, k, x) <= Slack(k, Rho(d, c))
  {
    SwappedSum(sols, tag, HALF, k, x);
    EqualIsNatural(tag, k, x);
    PassesWithin(sols, Upto(k - 1) + [x], d, c, EqualWith(tag, k, x), width);
  }

  lemma PrefixLabelled(sols: seq<Spins>, tag: seq<nat>, h: nat, n: nat)
    requires Labelled(sols, tag, h) && n <= |sols|
    ensures Labelled(sols[..n], tag[..n], h)
  {
    forall i: nat, j: nat | i < n && j < n ensures Dist(sols[..n], i, j) == if tag[..n][i] == tag[..n][j] then 0 else h {
      assert Dist(sols[..n], i, j) == Dist(sols, i, j);
    }
  }

  lemma PrefixSelected(sols: seq<Spins>, tag: seq<nat>, h: nat, n: nat, m: nat, k: nat)
    requires Labelled(sols, tag, h) && 2 <= k <= n <= |sols| && NewThenOld(tag[..n], m)
    ensures IsSelection(sols[..n], k, Upto(k))
  {
    PrefixLabelled(sols, tag, h, n);
    if k < n {
      LabelsAreGreedy(sols[..n], tag[..n], h, m, k);
    }
    ReadingOrderIsSelected(sols[..n], k);
  }

  /** The reported reads miss when their first `minSolutions` hold more equal pairs than the slack. */
  lemma LabelledMisses(target: Difficulty, sols: seq<Spins>, tag: seq<nat>, c: nat, width: nat, m: nat)
    requires Labelled(sols, tag, HALF) && Shapely(sols, width) && GateFits(target.minDiversity, c, width)
    requires 2 <= target.minSolutions <= Min(|sols|, target.maxProofSolutions)
    requires NewThenOld(tag[..Min(|sols|, target.maxProofSolutions)], m)
    requires Pairs(target.minSolutions) - DifferingPairs(tag, target.minSolutions) > Slack(target.minSolutions, Rho(target.minDiversity, c))
    ensures DiversityMiss(Ladder(sols, target), target, Upto(Min(|sols|, target.maxProofSolutions)))
  {
    PrefixSelected(sols, tag, HALF, Min(|sols|, target.maxProofSolutions), m, target.minSolutions);
    PrefixMean(sols, tag, target.minSolutions, target.minDiversity, c, width);
    LeastMiss(sols, target, width);
  }

  /** Some other reads pass when swapping the last of them for read `x` leaves few enough equal pairs. */
  lemma LabelledPasses(target: Difficulty, sols: seq<Spins>, tag: seq<nat>, c: nat, width: nat, x: nat)
    requires Labelled(sols, tag, HALF) && Shapely(sols, width) && GateFits(target.minDiversity, c, width)
    requires 2 <= target.minSolutions <= target.maxProofSolutions && target.minSolutions - 1 <= x < |sols|
    requires EqualWith(tag, target.minSolutions, x) <= Slack(target.minSolutions, Rho(target.minDiversity, c))
    ensures Attainable(Ladder(sols, target), target)
  {
    SwappedMean(sols, tag, target.minSolutions, x, target.minDiversity, c, width);
    UptoPlusDistinct(sols, target.minSolutions - 1, x);
    ShapelyPicks(sols, width, Upto(target.minSolutions - 1) + [x]);
    PicksPass(sols, target, Upto(target.minSolutions - 1) + [x], width);
  }

  /** A labelled pool whose reported reads miss, and of which some other reads pass. */
  lemma LabelledIsOpen(target: Difficulty, sols: seq<Spins>, tag: seq<nat>, c: nat, width: nat, m: nat, x: nat)
    requires Labelled(sols, tag, HALF) && Shapely(sols, width) && GateFits(target.minDiversity, c, width)
    requires 2 <= target.minSolutions <= Min(|sols|, target.maxProofSolutions)
    requires NewThenOld(tag[..Min(|sols|, target.maxProofSolutions)], m)
    requires target.minSolutions - 1 <= x < |sols|
    requires Pairs(target.minSolutions) - DifferingPairs(tag, target.minSolutions) > Slack(target.minSolutions, Rho(target.minDiversity, c))
    requires EqualWith(tag, target.minSolutions, x) <= Slack(target.minSolutions, Rho(target.minDiversity, c))
    ensures DiversityOpen(target, |sols|)
  {
    LabelledMisses(target, sols, tag, c, width, m);
    LabelledPasses(target, sols, tag, c, width, x);
    LadderBelow(sols, target);
  }

  // ---- fewer reads reported than lie below the ceiling ----

  lemma {:induction false} PairsGrow(n: nat, m: nat)
    requires n <= m
    ensures Pairs(n) <= Pairs(m)
  {
    if n < m {
      PairsGrow(n, m - 1);
    }
  }

  lemma {:induction false} PairsIsProduct(n: nat)
    ensures 2 * Pairs(n) == n * (n - 1)
  {
    if n > 0 {
      PairsIsProduct(n - 1);
      assert n * (n - 1) == (n - 1) * (n - 2) + 2 * (n - 1);
    }
  }

  lemma {:induction false} Between(e: nat, top: nat) returns (z: nat)
    requires e < Pairs(top)
    ensures 2 <= z <= top && Pairs(z - 1) <= e < Pairs(z)
  {
    assert Pairs(1) == 0;
    if top >= 2 && e < Pairs(top - 1) {
      z := Between(e, top - 1);
    } else {
      z := top;
    }
  }

  lemma SlackBelowPairs(n: nat, rho: nat)
    requires 1 <= rho <= 1000 && n >= 2
    ensures Slack(n, rho) < Pairs(n)
  {
    assert Pairs(2) == 1;
    PairsGrow(2, n);
    WithinSlack(n, rho, Pairs(n));
    Arith.MulMonotone(1, rho, Pairs(n));
  }

  /** The first `m` labels are new, then comes 0, and at position `last` one more new label. */
  function SpareTags(below: nat, m: nat, last: nat): (tag: seq<nat>)
    ensures |tag| == below
  {
    seq(below, j => if 0 <= j < m then j else if j == last then m else 0)
  }

  lemma SpareCounts(below: nat, m: nat, last: nat, k: nat)
    requires 1 <= m < k <= last < below
    ensures var tag := SpareTags(below, m, last);
            && DifferingPairs(tag, k) == Pairs(k) - Pairs(k - m + 1)
            && EqualWith(tag, k, last) == Pairs(k - m)
            && NewThenOld(tag[..last], m)
  {
    var tag := SpareTags(below, m, last);
    NewCounts(tag, m, m, 0);
    NewCounts(tag, m, m, m);
    assert RepeatsOne(tag, m, 0, last);
    DifferingRepeated(tag, m, 0, last, k);
    DifferingRepeated(tag, m, 0, last, k - 1);
    CountRepeated(tag, m, 0, last, k - 1, m);
  }

  lemma SpareReadIsOpen(target: Difficulty, below: nat, o: nat)
    requires Two(o) == U32 && WireTarget(target) && 1 <= target.minDiversity <= 500
    requires 2 <= target.minSolutions <= target.maxProofSolutions < below
    ensures DiversityOpen(target, below)
  {
    var k, last, rho := target.minSolutions, target.maxProofSolutions, Rho(target.minDiversity, 1);
    SlackBelowPairs(k, rho);
    var z := Between(Slack(k, rho), k);
    var m := k - z + 1;
    var tag := SpareTags(below, m, last);
    SpareCounts(below, m, last, k);
    TaggedIsLabelled(o, 0, tag);
    LabelledIsOpen(target, Tagged(o, 0, tag), tag, 1, U32, m, last);
  }

  // ---- every read reported: many reads needed ----

  /** Padding, in units of the width, that brings the gate close below 1000. */
  lemma Padding(d: nat) returns (c: nat)
    requires 1 <= d <= 500
    ensures c >= 1 && 500 <= Rho(d, c) <= 999
  {
    c := 999 / (2 * d - 1);
    Arith.DivModForm(999, 2 * d - 1);
    assert Rho(d, c) == (2 * d - 1) * c == c * (2 * d - 1);
    if c < 1 {
      Arith.MulMonotone(c, 0, 2 * d - 1);
    }
    Arith.MulMonotone(1, c, 2 * d - 1);
  }

  /** New labels, perhaps a second 2, then label 1 up to position `k`, then 0. */
  function TieTags(below: nat, m: nat, extra: bool, k: nat): (tag: seq<nat>)
    ensures |tag| == below
  {
    seq(below, j => if 0 <= j < m then j else if j == m && extra then 2 else if j < k then 1 else 0)
  }

  lemma TieStart(below: nat, m: nat, extra: bool, k: nat)
    requires 3 <= m && m + 2 <= k < below
    ensures var tag, t := TieTags(below, m, extra, k), m + if extra then 1 else 0;
            && CountTag(tag, t, 0) == 1 && RepeatsOne(tag, t, 1, k)
            && DifferingPairs(tag, t) == Pairs(t) - if extra then 1 else 0
  {
    var tag := TieTags(below, m, extra, k);
    NewCounts(tag, m, m, 0);
    NewCounts(tag, m, m, 1);
    NewCounts(tag, m, m, 2);
  }

  lemma TieCounts(below: nat, m: nat, extra: bool, k: nat)
    requires 3 <= m && m + (if extra then 2 else 1) < k < below
    ensures var tag := TieTags(below, m, extra, k);
            var x := if extra then 1 else 0;
            && Pairs(k) - DifferingPairs(tag, k) == Pairs(k - m - x + 1) + x
            && EqualWith(tag, k, k) == Pairs(k - m - x) + x + 1
            && NewThenOld(tag, m)
  {
    var tag, t := TieTags(below, m, extra, k), m + if extra then 1 else 0;
    TieStart(below, m, extra, k);
    DifferingRepeated(tag, t, 1, k, k);
    DifferingRepeated(tag, t, 1, k, k - 1);
    CountRepeated(tag, t, 1, k, k - 1, 0);
    assert tag[k] == 0 && Pairs(k) == Pairs(k - 1) + (k - 1);
  }

  lemma SlackBounds(n: nat, rho: nat)
    requires 500 <= rho <= 999 && n >= 64
    ensures 2 <= Slack(n, rho) <= Pairs(n - 4)
  {
    PairsIsProduct(n);
    PairsIsProduct(n - 4);
    PairsIsProduct(64);
    PairsGrow(64, n);
    assert Pairs(64) == 2016;
    assert n * (n - 1) <= 2 * ((n - 4) * (n - 5)) by {
      assert 2 * ((n - 4) * (n - 5)) - n * (n - 1) == n * n - 17 * n + 40 == n * (n - 17) + 40;
      Arith.MulNonNegative(n, n - 17);
    }
    Arith.MulMonotone(1, 1000 - rho, Pairs(n));
    Arith.MulMonotone(1000 - rho, 500, Pairs(n));
  }

  /** Whatever the slack is, some mix of repeated labels has more equal pairs and the swapped one has not. */
  lemma TieChoice(k: nat, e: nat) returns (m: nat, extra: bool)
    requires k >= 64 && 2 <= e <= Pairs(k - 4)
    ensures 3 <= m && m + (if extra then 2 else 1) < k
    ensures var x := if extra then 1 else 0; Pairs(k - m - x) + x + 1 <= e < Pairs(k - m - x + 1) + x
  {
    assert Pairs(2) == 1;
    var z := Between(e - 1, k - 4);
    if z == 2 {
      assert false;
    }
    extra := e == Pairs(z);
    m := k - z + 1 - if extra then 1 else 0;
  }

  lemma ManyNeededIsOpen(target: Difficulty, below: nat, o: nat)
    requires Two(o) == U32 && WireTarget(target) && 1 <= target.minDiversity <= 500
    requires 64 <= target.minSolutions < below <= target.maxProofSolutions
    ensures DiversityOpen(target, below)
  {
    var k := target.minSolutions;
    var c := Padding(target.minDiversity);
    SlackBounds(k, Rho(target.minDiversity, c));
    var m, extra := TieChoice(k, Slack(k, Rho(target.minDiversity, c)));
    var tag := TieTags(below, m, extra, k);
    TieCounts(below, m, extra, k);
    var pad := U32 * (c - 1);
    TaggedIsLabelled(o, pad, tag);
    assert tag[..below] == tag;
    LabelledIsOpen(target, Tagged(o, pad, tag), tag, c, U32 + pad, m, k);
  }
}

/** When a miss of the reported set is final: no other set of the same reads passes either. */
module Finality {
  import opened Common
  import opened Diversity
  import opened Machine
  import opened PairSums
  import opened Scoring
  import opened Sorting
  import opened Target

  /** Targets and numbers of reads below the ceiling for which every diversity miss is final. */
  predicate DiversityIsFinal(target: Difficulty, below: nat) {
    || target.minDiversity == 0 || target.minDiversity > 500
    || target.minSolutions <= 1 || below <= target.minSolutions
    || target.maxProofSolutions < target.minSolutions
    || (target.minSolutions == 2 && below <= target.maxProofSolutions)
  }

  // ---- selections over the pool ----

  /** The pool indices of a selection from the valid picks. */
  ghost predicate SelectsFrom(pool: seq<Read>, target: Difficulty, v: seq<nat>, q: seq<nat>, d: nat) {
    && Indices(SpinsOf(pool), v) && Indices(SpinsOf(pool), q) && Distinct(q) && (forall x :: x in q ==> x in v)
    && |q| == Min(|v|, if target.minSolutions >= 1 then target.minSolutions else 1)
    && d == DiversityMilli(Picked(SpinsOf(pool), q))
    && (|v| == |q| ==> q == v)
    && (2 == |q| < |v| ==> Widest(pool, v, q[0], q[1]))
  }

  function Composed(v: seq<nat>, sel: seq<nat>): (q: seq<nat>)
    requires forall i :: i in sel ==> i < |v|
    ensures |q| == |sel|
  {
    seq(|sel|, i requires 0 <= i < |sel| => assert sel[i] in sel; v[sel[i]])
  }

  lemma ComposedFacts(pool: seq<Read>, v: seq<nat>, sel: seq<nat>)
    requires Distinct(v) && Distinct(sel) && (forall i :: i in sel ==> i < |v|) && forall i :: i in v ==> i < |pool|
    ensures Distinct(Composed(v, sel)) && forall x :: x in Composed(v, sel) ==> x in v
    ensures Indices(SpinsOf(ReadsAt(pool, v)), sel) && Indices(SpinsOf(pool), Composed(v, sel))
    ensures Picked(SpinsOf(ReadsAt(pool, v)), sel) == Picked(SpinsOf(pool), Composed(v, sel))
  {
    var q := Composed(v, sel);
    forall i, j | 0 <= i < j < |q| ensures q[i] != q[j] {
      assert sel[i] in sel && sel[j] in sel;
    }
    forall x | x in q ensures x in v {
      var i :| 0 <= i < |q| && q[i] == x;
      assert sel[i] in sel;
    }
    var a, b := Picked(SpinsOf(ReadsAt(pool, v)), sel), Picked(SpinsOf(pool), q);
    forall i | 0 <= i < |a| ensures a[i] == b[i] {
      assert sel[i] in sel && q[i] in q && q[i] in v;
    }
  }

  lemma DistAt(pool: seq<Read>, v: seq<nat>, i: nat, j: nat)
    requires (forall x :: x in v ==> x < |pool|) && i < |v| && j < |v|
    ensures v[i] < |pool| && v[j] < |pool|
    ensures Dist(SpinsOf(ReadsAt(pool, v)), i, j) == Dist(SpinsOf(pool), v[i], v[j])
  {
    assert v[i] in v && v[j] in v;
  }

  /** No two of the listed reads are farther apart than `a` and `b`. */
  ghost predicate Widest(pool: seq<Read>, v: seq<nat>, a: nat, b: nat) {
    && a < |pool| && b < |pool|
    && forall x, y :: x in v && y in v && x != y ==>
         x < |pool| && y < |pool| && Dist(SpinsOf(pool), x, y) <= Dist(SpinsOf(pool), a, b)
  }

  lemma MostDistantOverPool(pool: seq<Read>, v: seq<nat>, a: nat, b: nat)
    requires (forall x :: x in v ==> x < |pool|) && MostDistant(SpinsOf(ReadsAt(pool, v)), a, b)
    ensures Widest(pool, v, v[a], v[b])
  {
    DistAt(pool, v, a, b);
    forall x, y | x in v && y in v && x != y
      ensures x < |pool| && y < |pool| && Dist(SpinsOf(pool), x, y) <= Dist(SpinsOf(pool), v[a], v[b])
    {
      var i :| 0 <= i < |v| && v[i] == x;
      var j :| 0 <= j < |v| && v[j] == y;
      DistAt(pool, v, i, j);
      DistFacts(SpinsOf(pool), x, y);
      DistAt(pool, v, j, i);
    }
  }

  lemma SelectedOverPool(pool: seq<Read>, target: Difficulty, picks: seq<nat>, d: nat) returns (q: seq<nat>)
    requires DistinctReads(pool, picks) && SelectedDiversity(Valid(ReadsAt(pool, picks), target), target, d)
    ensures SelectsFrom(pool, target, ValidPicks(pool, target, picks), q, d)
  {
    var v := ValidPicks(pool, target, picks);
    ValidIsPicked(pool, target, picks);
    ValidPicksFacts(pool, target, picks);
    var valid := ReadsAt(pool, v);
    var sel :| DiversityBy(valid, target, sel, d);
    q := Composed(v, sel);
    ComposedFacts(pool, v, sel);
    if |v| == |sel| {
      assert q == v;
    } else if |sel| == 2 {
      MostDistantOverPool(pool, v, sel[0], sel[1]);
    }
  }

  // ---- why these misses are final ----

  lemma WidthsAgree(pool: seq<Read>, picks: seq<nat>, q: seq<nat>)
    requires DistinctReads(pool, picks) && picks != [] && ShapesFit(ReadsAt(pool, picks)) && forall x :: x in q ==> x in picks
    ensures OneWidth(SpinsOf(pool), q, |ReadsAt(pool, picks)[0].spins|)
  {
    forall x | x in q ensures |SpinsOf(pool)[x]| == |ReadsAt(pool, picks)[0].spins| {
      var i :| 0 <= i < |picks| && picks[i] == x;
      assert WellShaped(ReadsAt(pool, picks)[i], |ReadsAt(pool, picks)[0].spins|);
    }
    assert WellShaped(ReadsAt(pool, picks)[0], |ReadsAt(pool, picks)[0].spins|);
  }

  /** Distinct picks below the ceiling, as many as there are, are all of them. */
  lemma AllBelow(pool: seq<Read>, target: Difficulty, v: seq<nat>)
    requires Distinct(v) && |v| >= |BelowCeiling(pool, target)| && forall x :: x in v ==> x in BelowCeiling(pool, target)
    ensures forall x :: x in BelowCeiling(pool, target) ==> x in v
  {
    var all := BelowCeiling(pool, target);
    DistinctCard(v);
    DistinctCard(all);
    forall x | x in all ensures x in v {
      if x !in v {
        SubsetCard(Elements(v) + {x}, Elements(all));
      }
    }
  }

  lemma NoBetter(sols: seq<Spins>, p: seq<nat>, q: seq<nat>, width: nat, d: nat)
    requires OneWidth(sols, p, width) && OneWidth(sols, q, width) && |p| == |q| >= 2 && 1 <= d < U32
    requires PairSum(sols, q) <= PairSum(sols, p) && DiversityMilli(Picked(sols, p)) < d
    ensures DiversityMilli(Picked(sols, q)) < d
  {
    ReachesExactly(sols, p, width, d);
    ReachesExactly(sols, q, width, d);
  }

  lemma PairSumOfTwo(sols: seq<Spins>, p: seq<nat>)
    requires Indices(sols, p) && |p| == 2
    ensures p[0] < |sols| && p[1] < |sols| && PairSum(sols, p) == Dist(sols, p[0], p[1])
  {
    assert p[0] in p && p[1] in p;
    assert [p[0]] == [] + [p[0]];
    Unpush(sols, [p[0]], [], p[0]);
    Unpush(sols, p, [p[0]], p[1]);
  }

  /** With no read to spare, every passing set holds the same valid reads. */
  lemma NoneToSpare(pool: seq<Read>, target: Difficulty, v: seq<nat>, w: seq<nat>, width: nat, d: nat)
    requires Distinct(v) && Distinct(w) && |v| >= |BelowCeiling(pool, target)| && |w| >= |BelowCeiling(pool, target)| >= 2
    requires forall x :: x in v || x in w ==> x in BelowCeiling(pool, target)
    requires OneWidth(SpinsOf(pool), v, width) && 1 <= d < U32 && DiversityMilli(Picked(SpinsOf(pool), v)) < d
    ensures Indices(SpinsOf(pool), w) && DiversityMilli(Picked(SpinsOf(pool), w)) < d
  {
    AllBelow(pool, target, v);
    AllBelow(pool, target, w);
    assert SameIndices(SpinsOf(pool), v, w);
    PairSumOrder(SpinsOf(pool), v, w);
    NoBetter(SpinsOf(pool), v, w, width, d);
  }

  /** The pair chosen from all reads is the best pair there is. */
  lemma NoBetterPair(pool: seq<Read>, v: seq<nat>, p: seq<nat>, q: seq<nat>, width: nat, d: nat)
    requires OneWidth(SpinsOf(pool), v, width) && |p| == |q| == 2 && q[0] != q[1] && (forall x :: x in p || x in q ==> x in v)
    requires Widest(pool, v, p[0], p[1]) && 1 <= d < U32
    requires Indices(SpinsOf(pool), p) && DiversityMilli(Picked(SpinsOf(pool), p)) < d
    ensures Indices(SpinsOf(pool), q) && DiversityMilli(Picked(SpinsOf(pool), q)) < d
  {
    assert q[0] in q && q[1] in q;
    PairSumOfTwo(SpinsOf(pool), p);
    PairSumOfTwo(SpinsOf(pool), q);
    NoBetter(SpinsOf(pool), p, q, width, d);
  }

  /** A selection from `v` misses the diversity gate, and one from `w` would pass it. */
  ghost predicate Rivals(pool: seq<Read>, target: Difficulty, v: seq<nat>, p: seq<nat>, w: seq<nat>, q: seq<nat>) {
    && (exists d: nat :: SelectsFrom(pool, target, v, p, d) && d < target.minDiversity)
    && (exists d: nat :: SelectsFrom(pool, target, w, q, d) && d >= target.minDiversity)
    && Distinct(v) && Distinct(w)
    && (forall x :: x in v || x in w ==> x in BelowCeiling(pool, target))
    && |v| >= target.minSolutions && |w| >= target.minSolutions
  }

  lemma RivalsAreTwoOrMore(pool: seq<Read>, target: Difficulty, v: seq<nat>, p: seq<nat>, w: seq<nat>, q: seq<nat>)
    requires Rivals(pool, target, v, p, w, q)
    ensures 1 <= target.minDiversity <= 500 && target.minSolutions >= 2 && |p| == |q| == target.minSolutions
  {
    DiversityAtMostHalf(Picked(SpinsOf(pool), q));
    assert !HasMean(Picked(SpinsOf(pool), q)) ==> target.minDiversity == 0;
  }

  lemma NoRivals(pool: seq<Read>, target: Difficulty, v: seq<nat>, p: seq<nat>, w: seq<nat>, q: seq<nat>, width: nat)
    requires OneWidth(SpinsOf(pool), v, width) && target.minDiversity < U32
    requires |BelowCeiling(pool, target)| <= target.minSolutions || (target.minSolutions == 2 && |v| >= |BelowCeiling(pool, target)|)
    ensures !Rivals(pool, target, v, p, w, q)
  {
    if Rivals(pool, target, v, p, w, q) {
      RivalsAreTwoOrMore(pool, target, v, p, w, q);
      if |BelowCeiling(pool, target)| <= target.minSolutions {
        BelowBound(pool, target, v);
        BelowBound(pool, target, w);
        NoneToSpare(pool, target, v, w, width, target.minDiversity);
      } else {
        AllBelow(pool, target, v);
        NoBetterPair(pool, v, p, q, width, target.minDiversity);
      }
    }
  }

  lemma BelowBound(pool: seq<Read>, target: Difficulty, v: seq<nat>)
    requires Distinct(v) && forall x :: x in v ==> x in BelowCeiling(pool, target)
    ensures |v| <= |BelowCeiling(pool, target)|
  {
    DistinctCard(v);
    DistinctCard(BelowCeiling(pool, target));
    SubsetCard(Elements(v), Elements(BelowCeiling(pool, target)));
  }

  /** Under the condition no set of distinct reads passes once the reported set misses the diversity gate. */
  lemma DiversityMissIsFinal(pool: seq<Read>, target: Difficulty, least: seq<nat>)
    requires WireTarget(target) && DiversityMiss(pool, target, least)
    requires DiversityIsFinal(target, |BelowCeiling(pool, target)|)
    ensures !Attainable(pool, target)
  {
    forall picks | DistinctReads(pool, picks) ensures !PassesAll(ReadsAt(pool, picks), target) {
      NoOtherPasses(pool, target, least, picks);
    }
  }

  /** The counts and the distinctness that two sets of valid picks share. */
  lemma PicksFacts(pool: seq<Read>, target: Difficulty, picks: seq<nat>)
    requires DistinctReads(pool, picks) && PassesCounts(ReadsAt(pool, picks), target)
    ensures var v := ValidPicks(pool, target, picks);
            && Distinct(v) && (forall x :: x in v ==> x in picks && x in BelowCeiling(pool, target))
            && |v| >= target.minSolutions && v != [] && |v| <= target.maxProofSolutions
            && OneWidth(SpinsOf(pool), v, |ReadsAt(pool, picks)[0].spins|)
  {
    ValidIsPicked(pool, target, picks);
    ValidPicksFacts(pool, target, picks);
    WidthsAgree(pool, picks, ValidPicks(pool, target, picks));
  }

  lemma LeastIsDistinct(pool: seq<Read>, target: Difficulty, least: seq<nat>)
    requires LeastReads(pool, target, least)
    ensures DistinctReads(pool, least) && ValidPicks(pool, target, least) == least
  {
    ReadOrder(pool);
    AscendingDistinct(least, ReadLess(pool));
    AllPicksValid(pool, target, least);
  }

  lemma {:induction false} AllPicksValid(pool: seq<Read>, target: Difficulty, picks: seq<nat>)
    requires forall i :: i in picks ==> i < |pool| && pool[i].energy < target.maxEnergy
    ensures ValidPicks(pool, target, picks) == picks
  {
    if picks != [] {
      var front, x := picks[..|picks| - 1], picks[|picks| - 1];
      SplitLast(picks);
      assert forall i :: i in front ==> i in picks;
      AllPicksValid(pool, target, front);
      ValidPicksPush(pool, target, front, x, picks);
    }
  }

  lemma ValidPicksPush(pool: seq<Read>, target: Difficulty, front: seq<nat>, x: nat, picks: seq<nat>)
    requires (forall i :: i in front ==> i < |pool|) && x < |pool| && pool[x].energy < target.maxEnergy && picks == front + [x]
    ensures forall i :: i in picks ==> i < |pool|
    ensures ValidPicks(pool, target, picks) == ValidPicks(pool, target, front) + [x]
  {
    assert picks[..|picks| - 1] == front && picks[|picks| - 1] == x;
  }

  /** A reported set that misses and another set that passes give rival selections. */
  lemma MissAndPassAreRivals(pool: seq<Read>, target: Difficulty, least: seq<nat>, picks: seq<nat>) returns (p: seq<nat>, q: seq<nat>)
    requires DiversityMiss(pool, target, least) && DistinctReads(pool, picks) && PassesAll(ReadsAt(pool, picks), target)
    ensures Rivals(pool, target, least, p, ValidPicks(pool, target, picks), q)
  {
    var d: nat :| SelectedDiversity(Valid(ReadsAt(pool, least), target), target, d) && d < target.minDiversity;
    var e: nat :| SelectedDiversity(Valid(ReadsAt(pool, picks), target), target, e) && e >= target.minDiversity;
    LeastIsDistinct(pool, target, least);
    PicksFacts(pool, target, least);
    PicksFacts(pool, target, picks);
    p := SelectedOverPool(pool, target, least, d);
    q := SelectedOverPool(pool, target, picks, e);
  }

  lemma NoOtherPasses(pool: seq<Read>, target: Difficulty, least: seq<nat>, picks: seq<nat>)
    requires WireTarget(target) && DiversityMiss(pool, target, least) && DistinctReads(pool, picks)
    requires DiversityIsFinal(target, |BelowCeiling(pool, target)|)
    ensures !PassesAll(ReadsAt(pool, picks), target)
  {
    if PassesAll(ReadsAt(pool, picks), target) {
      LeastIsDistinct(pool, target, least);
      PicksFacts(pool, target, least);
      var p, q := MissAndPassAreRivals(pool, target, least, picks);
      RivalsAreTwoOrMore(pool, target, least, p, ValidPicks(pool, target, picks), q);
      NoRivals(pool, target, least, p, ValidPicks(pool, target, picks), q, |ReadsAt(pool, least)[0].spins|);
    }
  }

  // ---- malformed reads ----

  function Needed(target: Difficulty): nat {
    if target.minSolutions >= 1 then target.minSolutions else 1
  }

  /** Targets and numbers of reads below the ceiling for which a malformed reported read is final. */
  predicate MalformedIsFinal(target: Difficulty, below: nat) {
    || target.minDiversity > 500 || (target.minSolutions <= 1 && target.minDiversity >= 1)
    || below <= Needed(target) || target.maxProofSolutions < Needed(target)
  }

  lemma PassingDiversity(pool: seq<Read>, target: Difficulty, picks: seq<nat>)
    requires DistinctReads(pool, picks) && PassesAll(ReadsAt(pool, picks), target)
    ensures target.minDiversity <= 500 && (target.minSolutions <= 1 ==> target.minDiversity == 0)
  {
    var e: nat :| SelectedDiversity(Valid(ReadsAt(pool, picks), target), target, e) && e >= target.minDiversity;
    var q := SelectedOverPool(pool, target, picks, e);
    DiversityAtMostHalf(Picked(SpinsOf(pool), q));
  }

  lemma ShapesInherit(pool: seq<Read>, picks: seq<nat>, least: seq<nat>)
    requires DistinctReads(pool, picks) && ShapesFit(ReadsAt(pool, picks)) && forall i :: i in least ==> i in picks
    ensures ShapesFit(ReadsAt(pool, least))
  {
    var set_, chosen := ReadsAt(pool, picks), ReadsAt(pool, least);
    forall k | 0 <= k < |chosen| ensures set_ != [] && WellShaped(chosen[k], |set_[0].spins|) {
      assert least[k] in least;
      var i :| 0 <= i < |picks| && picks[i] == least[k];
      assert WellShaped(set_[i], |set_[0].spins|);
    }
  }

  lemma MalformedHolds(pool: seq<Read>, target: Difficulty, least: seq<nat>, picks: seq<nat>)
    requires MalformedMiss(pool, target, least) && DistinctReads(pool, picks)
    requires MalformedIsFinal(target, |BelowCeiling(pool, target)|)
    ensures !PassesAll(ReadsAt(pool, picks), target)
  {
    if PassesAll(ReadsAt(pool, picks), target) {
      PassingDiversity(pool, target, picks);
      PicksFacts(pool, target, picks);
      AllBelow(pool, target, ValidPicks(pool, target, picks));
      ShapesInherit(pool, picks, least);
    }
  }

  /** Under the condition no set of distinct reads passes once the reported set holds a malformed read. */
  lemma MalformedMissIsFinal(pool: seq<Read>, target: Difficulty, least: seq<nat>)
    requires MalformedMiss(pool, target, least) && MalformedIsFinal(target, |BelowCeiling(pool, target)|)
    ensures !Attainable(pool, target)
  {
    forall picks | DistinctReads(pool, picks) ensures !PassesAll(ReadsAt(pool, picks), target) {
      MalformedHolds(pool, target, least, picks);
    }
  }
}

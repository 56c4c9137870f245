/** Pools whose reads stand in order of energy, all below the ceiling: what is reported, and what passes. */
module Ladders {
  import opened Common
  import opened Diversity
  import opened Finality
  import opened LabelledPools
  import opened PairSums
  import opened Scoring
  import opened SpinRows
  import opened Target

  /** Reads with the given spins, in ascending energy, all below the ceiling. */
  function Ladder(sols: seq<Spins>, target: Difficulty): (pool: seq<Read>)
    ensures |pool| == |sols|
  {
    seq(|sols|, i requires 0 <= i < |sols| => Read(sols[i], target.maxEnergy - |sols| + i))
  }

  ghost predicate Shapely(sols: seq<Spins>, width: nat) {
    width > 0 && forall i :: 0 <= i < |sols| ==> |sols[i]| == width && AllSigns(sols[i])
  }

  lemma LadderBelow(sols: seq<Spins>, target: Difficulty)
    ensures |BelowCeiling(Ladder(sols, target), target)| == |sols|
  {
    var list := BelowCeiling(Ladder(sols, target), target);
    DistinctCard(list);
    assert Elements(list) == Below(|sols|);
  }

  lemma LadderLeast(sols: seq<Spins>, target: Difficulty)
    ensures LeastReads(Ladder(sols, target), target, Upto(Min(|sols|, target.maxProofSolutions)))
  {
    LadderBelow(sols, target);
    UptoFacts(sols, Min(|sols|, target.maxProofSolutions));
  }

  lemma PickedReads(sols: seq<Spins>, target: Difficulty, picks: seq<nat>)
    requires Indices(sols, picks)
    ensures Valid(ReadsAt(Ladder(sols, target), picks), target) == ReadsAt(Ladder(sols, target), picks)
    ensures SpinsOf(ReadsAt(Ladder(sols, target), picks)) == Picked(sols, picks)
  {
    var set_ := ReadsAt(Ladder(sols, target), picks);
    forall k | 0 <= k < |set_| ensures set_[k].energy < target.maxEnergy && set_[k].spins == Picked(sols, picks)[k] {
      assert picks[k] in picks;
    }
    AllBelowAreValid(set_, target);
  }

  lemma PickedShapes(sols: seq<Spins>, target: Difficulty, picks: seq<nat>, width: nat)
    requires Indices(sols, picks) && width > 0 && forall x :: x in picks ==> |sols[x]| == width && AllSigns(sols[x])
    ensures ShapesFit(ReadsAt(Ladder(sols, target), picks))
  {
    var set_ := ReadsAt(Ladder(sols, target), picks);
    forall k | 0 <= k < |set_| ensures WellShaped(set_[k], width) {
      assert picks[k] in picks;
    }
  }

  lemma WholeSelection(valid: seq<Read>, target: Difficulty)
    requires |valid| == Needed(target)
    ensures SelectedDiversity(valid, target, DiversityMilli(SpinsOf(valid)))
  {
    var sel := Upto(|valid|);
    UptoFacts(SpinsOf(valid), |valid|);
    assert SpinsOf(valid)[..|valid|] == SpinsOf(valid);
    assert DiversityBy(valid, target, sel, DiversityMilli(SpinsOf(valid)));
  }

  /** As many picks as a proof needs, spread widely enough, pass every gate. */
  lemma PicksPass(sols: seq<Spins>, target: Difficulty, picks: seq<nat>, width: nat)
    requires Indices(sols, picks) && Distinct(picks) && width > 0 && forall x :: x in picks ==> |sols[x]| == width && AllSigns(sols[x])
    requires |picks| == Needed(target) <= target.maxProofSolutions
    requires DiversityMilli(Picked(sols, picks)) >= target.minDiversity
    ensures Attainable(Ladder(sols, target), target)
  {
    PickedReads(sols, target, picks);
    PickedShapes(sols, target, picks, width);
    WholeSelection(ReadsAt(Ladder(sols, target), picks), target);
    assert DistinctReads(Ladder(sols, target), picks);
    assert PassesAll(ReadsAt(Ladder(sols, target), picks), target);
  }

  lemma ShapelyPicks(sols: seq<Spins>, width: nat, picks: seq<nat>)
    requires Shapely(sols, width) && Indices(sols, picks)
    ensures OneWidth(sols, picks, width) && forall x :: x in picks ==> |sols[x]| == width && AllSigns(sols[x])
  {
  }

  lemma PartSelection(valid: seq<Read>, target: Difficulty)
    requires 1 <= target.minSolutions <= |valid| && IsSelection(SpinsOf(valid), target.minSolutions, Upto(target.minSolutions))
    ensures SelectedDiversity(valid, target, DiversityMilli(SpinsOf(valid)[..target.minSolutions]))
  {
    UptoFacts(SpinsOf(valid), target.minSolutions);
    assert DiversityBy(valid, target, Upto(target.minSolutions), DiversityMilli(SpinsOf(valid)[..target.minSolutions]));
  }

  /** The reported reads miss the diversity gate when the first of them, in reading order, are the selection and too close. */
  lemma LeastMiss(sols: seq<Spins>, target: Difficulty, width: nat)
    requires Shapely(sols, width) && 1 <= target.minSolutions <= Min(|sols|, target.maxProofSolutions)
    requires IsSelection(sols[..Min(|sols|, target.maxProofSolutions)], target.minSolutions, Upto(target.minSolutions))
    requires DiversityMilli(sols[..target.minSolutions]) < target.minDiversity
    ensures DiversityMiss(Ladder(sols, target), target, Upto(Min(|sols|, target.maxProofSolutions)))
  {
    var n := Min(|sols|, target.maxProofSolutions);
    LadderLeast(sols, target);
    UptoFacts(sols, n);
    PickedReads(sols, target, Upto(n));
    PickedShapes(sols, target, Upto(n), width);
    assert sols[..n][..target.minSolutions] == sols[..target.minSolutions];
    PartSelection(ReadsAt(Ladder(sols, target), Upto(n)), target);
  }
}

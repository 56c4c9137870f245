/** The chain's gates on a proof set, and the set a miner reports for one salt. */
module Target {
  import opened Common
  import opened Diversity
  import opened Machine
  import opened Scoring
  import opened Sorting

  /** One read: a spin vector and its energy in milli. */
  datatype Read = Read(spins: Spins, energy: int)

  datatype Difficulty = Difficulty(maxEnergy: int, minSolutions: nat, minDiversity: nat, maxProofSolutions: nat)

  datatype Miss =
    | InsufficientEnergy
    | InsufficientSolutions
    | InsufficientDiversity
    | TooManySolutions
    | MalformedSolutions

  datatype Stats = Stats(bestEnergy: int, diversity: nat, validCount: nat)

  predicate WellShaped(r: Read, width: nat) {
    |r.spins| != 0 && |r.spins| == width && forall k :: 0 <= k < |r.spins| ==> IsSign(r.spins[k])
  }

  predicate ShapesFit(set_: seq<Read>) {
    set_ != [] ==> forall k :: 0 <= k < |set_| ==> WellShaped(set_[k], |set_[0].spins|)
  }

  /** The reads below the ceiling, in order. */
  function Valid(set_: seq<Read>, target: Difficulty): seq<Read> {
    if set_ == [] then []
    else
      var last := |set_| - 1;
      Valid(set_[..last], target) + if set_[last].energy < target.maxEnergy then [set_[last]] else []
  }

  function SpinsOf(pool: seq<Read>): (s: seq<Spins>)
    ensures |s| == |pool|
  {
    seq(|pool|, i requires 0 <= i < |pool| => pool[i].spins)
  }

  ghost predicate IsLeastEnergy(pool: seq<Read>, e: int) {
    (exists r :: r in pool && r.energy == e) && forall r :: r in pool ==> e <= r.energy
  }

  /** The gates up to the solution count. */
  ghost predicate PassesCounts(set_: seq<Read>, target: Difficulty) {
    && |set_| <= target.maxProofSolutions && ShapesFit(set_)
    && Valid(set_, target) != [] && |Valid(set_, target)| >= target.minSolutions
  }

  /** The diversity of the solutions the greedy rule picks. */
  ghost predicate SelectedDiversity(valid: seq<Read>, target: Difficulty, d: nat) {
    exists selected :: DiversityBy(valid, target, selected, d)
  }

  function SelectionSize(valid: seq<Read>, target: Difficulty): nat {
    Min(|valid|, if target.minSolutions >= 1 then target.minSolutions else 1)
  }

  ghost predicate DiversityBy(valid: seq<Read>, target: Difficulty, selected: seq<nat>, d: nat) {
    && IsSelection(SpinsOf(valid), SelectionSize(valid, target), selected)
    && d == DiversityMilli(Picked(SpinsOf(valid), selected))
  }

  /** The selected diversity is determined by the valid reads. */
  lemma SelectedDiversityUnique(valid: seq<Read>, target: Difficulty, d: nat, d': nat)
    requires SelectedDiversity(valid, target, d) && SelectedDiversity(valid, target, d')
    ensures d == d'
  {
    var s :| DiversityBy(valid, target, s, d);
    var t :| DiversityBy(valid, target, t, d');
    SelectionUnique(SpinsOf(valid), SelectionSize(valid, target), s, t);
  }

  lemma OneDiversity(valid: seq<Read>, target: Difficulty, diversity: nat)
    requires SelectedDiversity(valid, target, diversity)
    ensures forall d: nat :: SelectedDiversity(valid, target, d) ==> d == diversity
  {
    forall d: nat | SelectedDiversity(valid, target, d) ensures d == diversity {
      SelectedDiversityUnique(valid, target, d, diversity);
    }
  }

  ghost predicate PassesAll(set_: seq<Read>, target: Difficulty) {
    PassesCounts(set_, target) && exists d: nat :: SelectedDiversity(Valid(set_, target), target, d) && d >= target.minDiversity
  }

  method LeastEnergy(pool: seq<Read>) returns (e: int)
    requires pool != []
    ensures IsLeastEnergy(pool, e)
  {
    e := pool[0].energy;
    for k := 1 to |pool|
      invariant forall i :: 0 <= i < k ==> e <= pool[i].energy
      invariant exists i :: 0 <= i < k && pool[i].energy == e
    {
      if pool[k].energy < e {
        e := pool[k].energy;
      }
    }
  }

  method ValidateProofSet(set_: seq<Read>, target: Difficulty) returns (r: Result<Stats, Miss>)
    ensures r == Err(TooManySolutions) <==> |set_| > target.maxProofSolutions
    ensures r == Err(MalformedSolutions) <==> |set_| <= target.maxProofSolutions && !ShapesFit(set_)
    ensures r == Err(InsufficientEnergy) <==>
      |set_| <= target.maxProofSolutions && ShapesFit(set_) && Valid(set_, target) == []
    ensures r == Err(InsufficientSolutions) <==>
      |set_| <= target.maxProofSolutions && ShapesFit(set_) && Valid(set_, target) != [] &&
      Min(|Valid(set_, target)|, U32 - 1) < target.minSolutions
    ensures WireTarget(target) ==> (r == Err(InsufficientDiversity) <==>
      PassesCounts(set_, target) && exists d: nat :: SelectedDiversity(Valid(set_, target), target, d) && d < target.minDiversity)
    ensures r == Err(InsufficientDiversity) ==>
      PassesCounts(set_, target) && exists d: nat :: SelectedDiversity(Valid(set_, target), target, d) && d < target.minDiversity
    ensures WireTarget(target) ==> (r.Ok? <==> PassesAll(set_, target))
    ensures r.Ok? ==> PassesCounts(set_, target) && IsLeastEnergy(Valid(set_, target), r.value.bestEnergy)
    ensures r.Ok? ==> SelectedDiversity(Valid(set_, target), target, r.value.diversity) && r.value.diversity >= target.minDiversity
    ensures r.Ok? ==> r.value.validCount == Min(|Valid(set_, target)|, U32 - 1)
  {
    if |set_| > target.maxProofSolutions {
      return Err(TooManySolutions);
    }
    if !ShapesFit(set_) {
      return Err(MalformedSolutions);
    }
    var valid := Valid(set_, target);
    if valid == [] {
      return Err(InsufficientEnergy);
    }
    var best := LeastEnergy(valid);
    var selected := SelectDiverse(SpinsOf(valid), SelectionSize(valid, target));
    var diversity := DiversityOf(Picked(SpinsOf(valid), selected));
    assert DiversityBy(valid, target, selected, diversity);
    assert SelectedDiversity(Valid(set_, target), target, diversity);
    OneDiversity(valid, target, diversity);
    var validCount := Min(|valid|, U32 - 1);
    if validCount < target.minSolutions {
      return Err(InsufficientSolutions);
    }
    if diversity < target.minDiversity {
      return Err(InsufficientDiversity);
    }
    return Ok(Stats(best, diversity, validCount));
  }

  // ---- the miner's choice ----

  function EnergyAt(pool: seq<Read>, i: nat): int {
    if i < |pool| then pool[i].energy else 0
  }

  /** Lower energy first; equal energies keep read order, as a stable sort does. */
  function ReadLess(pool: seq<Read>): (nat, nat) -> bool {
    (i: nat, j: nat) => EnergyAt(pool, i) < EnergyAt(pool, j) || (EnergyAt(pool, i) == EnergyAt(pool, j) && i < j)
  }

  lemma ReadOrder(pool: seq<Read>)
    ensures StrictOrder(ReadLess(pool))
  {
  }

  /** Indices of the reads below the ceiling, in read order. */
  function BelowCeiling(pool: seq<Read>, target: Difficulty): (list: seq<nat>)
    ensures forall i: nat :: i in list <==> i < |pool| && pool[i].energy < target.maxEnergy
    ensures Distinct(list)
  {
    if pool == [] then []
    else
      var last := |pool| - 1;
      var rest := BelowCeiling(pool[..last], target);
      assert forall i: nat :: i in rest <==> i < last && pool[i].energy < target.maxEnergy by {
        assert forall i: nat :: i < last ==> pool[..last][i] == pool[i];
      }
      if pool[last].energy < target.maxEnergy then rest + [last] else rest
  }

  function ReadsAt(pool: seq<Read>, indices: seq<nat>): (r: seq<Read>)
    requires forall i :: i in indices ==> i < |pool|
    ensures |r| == |indices|
  {
    seq(|indices|, k requires 0 <= k < |indices| => assert indices[k] in indices; pool[indices[k]])
  }

  /** The least reads below the ceiling, up to the proof limit, in order. */
  ghost predicate LeastReads(pool: seq<Read>, target: Difficulty, indices: seq<nat>) {
    && (forall i :: i in indices ==> i < |pool| && pool[i].energy < target.maxEnergy)
    && |indices| == Min(|BelowCeiling(pool, target)|, target.maxProofSolutions)
    && (forall a, b :: 0 <= a < b < |indices| ==> ComesFirst(pool, indices[a], indices[b]))
    && forall i: nat, k :: i < |pool| && pool[i].energy < target.maxEnergy && i !in indices && k in indices ==> ComesFirst(pool, k, i)
  }

  /** The read at `i` has the lower energy, or it was read first and neither has. */
  ghost predicate ComesFirst(pool: seq<Read>, i: nat, j: nat) {
    && i < |pool| && j < |pool| && pool[i].energy <= pool[j].energy
    && (pool[i].energy == pool[j].energy ==> i < j)
  }

  lemma SortedComesFirst(pool: seq<Read>, sorted: seq<nat>, x: nat, y: nat)
    requires Ascending(sorted, ReadLess(pool)) && x < y < |sorted| && sorted[x] < |pool| && sorted[y] < |pool|
    ensures ComesFirst(pool, sorted[x], sorted[y]) == true
  {
    assert ReadLess(pool)(sorted[x], sorted[y]);
  }

  lemma SortedPrefixIsLeast(pool: seq<Read>, target: Difficulty, sorted: seq<nat>, n: nat)
    requires Ascending(sorted, ReadLess(pool)) && n == Min(|sorted|, target.maxProofSolutions)
    requires |sorted| == |BelowCeiling(pool, target)|
    requires forall i: nat :: i in sorted <==> i < |pool| && pool[i].energy < target.maxEnergy
    ensures LeastReads(pool, target, sorted[..n]) == true
  {
    var kept := sorted[..n];
    assert forall x :: 0 <= x < |sorted| ==> sorted[x] in sorted;
    forall a, b | 0 <= a < b < n ensures ComesFirst(pool, kept[a], kept[b]) == true {
      SortedComesFirst(pool, sorted, a, b);
    }
    forall i: nat, k | i < |pool| && pool[i].energy < target.maxEnergy && i !in kept && k in kept
      ensures ComesFirst(pool, k, i) == true
    {
      assert i in sorted;
      var x :| 0 <= x < |sorted| && sorted[x] == i;
      var y :| 0 <= y < |kept| && kept[y] == k;
      assert x >= n ==> sorted[y] == k;
      SortedComesFirst(pool, sorted, y, x);
    }
  }

  lemma SortKeepsLength(list: seq<nat>, pool: seq<Read>)
    requires Distinct(list)
    ensures |SortDistinct(list, ReadLess(pool))| == |list|
  {
    var sorted := SortDistinct(list, ReadLess(pool));
    ReadOrder(pool);
    SortAscending(list, ReadLess(pool));
    AscendingDistinct(sorted, ReadLess(pool));
    DistinctCard(sorted);
    DistinctCard(list);
    assert Elements(sorted) == Elements(list);
  }

  lemma {:induction false} AllBelowAreValid(set_: seq<Read>, target: Difficulty)
    requires forall k :: 0 <= k < |set_| ==> set_[k].energy < target.maxEnergy
    ensures Valid(set_, target) == set_
  {
    if set_ != [] {
      AllBelowAreValid(set_[..|set_| - 1], target);
    }
  }

  /** The picks below the ceiling. */
  ghost function ValidPicks(pool: seq<Read>, target: Difficulty, picks: seq<nat>): (v: seq<nat>)
    requires forall i :: i in picks ==> i < |pool|
    ensures forall i :: i in v ==> i in picks && pool[i].energy < target.maxEnergy
  {
    if picks == [] then []
    else
      var last := |picks| - 1;
      assert picks[last] in picks && forall i :: i in picks[..last] ==> i in picks;
      ValidPicks(pool, target, picks[..last]) + if pool[picks[last]].energy < target.maxEnergy then [picks[last]] else []
  }

  lemma ValidPush(set_: seq<Read>, r: Read, target: Difficulty, more: seq<Read>)
    requires more == set_ + [r]
    ensures Valid(more, target) == Valid(set_, target) + if r.energy < target.maxEnergy then [r] else []
  {
    assert more[..|more| - 1] == set_ && more[|more| - 1] == r;
  }

  lemma ReadsPush(pool: seq<Read>, picks: seq<nat>, x: nat, more: seq<nat>)
    requires more == picks + [x] && x < |pool| && forall i :: i in picks ==> i < |pool|
    ensures (forall i :: i in more ==> i < |pool|) && ReadsAt(pool, more) == ReadsAt(pool, picks) + [pool[x]]
  {
  }

  /** The valid reads of a set are the reads of its valid picks. */
  lemma {:induction false} ValidIsPicked(pool: seq<Read>, target: Difficulty, picks: seq<nat>)
    requires forall i :: i in picks ==> i < |pool|
    ensures Valid(ReadsAt(pool, picks), target) == ReadsAt(pool, ValidPicks(pool, target, picks))
  {
    if picks != [] {
      var front, x := picks[..|picks| - 1], picks[|picks| - 1];
      SplitLast(picks);
      assert forall i :: i in front ==> i in picks;
      ValidIsPicked(pool, target, front);
      ReadsPush(pool, front, x, picks);
      ValidPush(ReadsAt(pool, front), pool[x], target, ReadsAt(pool, picks));
      if pool[x].energy < target.maxEnergy {
        ReadsPush(pool, ValidPicks(pool, target, front), x, ValidPicks(pool, target, picks));
      }
    }
  }

  lemma {:induction false} ValidPicksFacts(pool: seq<Read>, target: Difficulty, picks: seq<nat>)
    requires Distinct(picks) && forall i :: i in picks ==> i < |pool|
    ensures |ValidPicks(pool, target, picks)| <= |picks| && Distinct(ValidPicks(pool, target, picks))
    ensures forall i :: i in ValidPicks(pool, target, picks) ==> i in picks && i in BelowCeiling(pool, target)
  {
    if picks != [] {
      var front, x := picks[..|picks| - 1], picks[|picks| - 1];
      SplitLast(picks);
      assert forall i :: i in front ==> i in picks;
      assert x !in front;
      ValidPicksFacts(pool, target, front);
    }
  }

  /** No set of distinct reads has more valid reads than the chosen set. */
  lemma ChosenSetIsLargest(pool: seq<Read>, target: Difficulty, picks: seq<nat>)
    requires Distinct(picks) && forall i :: i in picks ==> i < |pool|
    requires |picks| <= target.maxProofSolutions
    ensures |Valid(ReadsAt(pool, picks), target)| <= Min(|BelowCeiling(pool, target)|, target.maxProofSolutions)
  {
    ValidIsPicked(pool, target, picks);
    ValidPicksFacts(pool, target, picks);
    var valid := ValidPicks(pool, target, picks);
    DistinctCard(valid);
    DistinctCard(BelowCeiling(pool, target));
    SubsetCard(Elements(valid), Elements(BelowCeiling(pool, target)));
  }

  /** No set of distinct reads can pass the gates up to the solution count. */
  ghost predicate Hopeless(pool: seq<Read>, target: Difficulty) {
    forall picks :: DistinctReads(pool, picks) ==> !PassesCounts(ReadsAt(pool, picks), target)
  }

  ghost predicate DistinctReads(pool: seq<Read>, picks: seq<nat>) {
    Distinct(picks) && forall i :: i in picks ==> i < |pool|
  }

  /** Some set of distinct reads passes every gate. */
  ghost predicate Attainable(pool: seq<Read>, target: Difficulty) {
    exists picks :: DistinctReads(pool, picks) && PassesAll(ReadsAt(pool, picks), target)
  }

  lemma TooFewIsHopeless(pool: seq<Read>, target: Difficulty)
    requires var n := Min(|BelowCeiling(pool, target)|, target.maxProofSolutions); n == 0 || n < target.minSolutions
    ensures Hopeless(pool, target)
  {
    forall picks | DistinctReads(pool, picks) ensures !PassesCounts(ReadsAt(pool, picks), target) {
      if |picks| <= target.maxProofSolutions {
        ChosenSetIsLargest(pool, target, picks);
      }
    }
  }

  lemma BestOverall(pool: seq<Read>, target: Difficulty, indices: seq<nat>, e: int)
    requires LeastReads(pool, target, indices) && indices != [] && IsLeastEnergy(ReadsAt(pool, indices), e)
    ensures forall i :: 0 <= i < |pool| && pool[i].energy < target.maxEnergy ==> e <= pool[i].energy
    ensures exists i :: 0 <= i < |pool| && pool[i].energy < target.maxEnergy && pool[i].energy == e
  {
    var set_ := ReadsAt(pool, indices);
    forall i | 0 <= i < |pool| && pool[i].energy < target.maxEnergy ensures e <= pool[i].energy {
      if i in indices {
        var k :| 0 <= k < |indices| && indices[k] == i;
        assert set_[k] in set_;
      } else {
        assert indices[0] in indices && set_[0] in set_;
      }
    }
    var r :| r in set_ && r.energy == e;
    var k :| 0 <= k < |set_| && set_[k] == r;
    assert indices[k] in indices;
  }

  /** The reported set passes every gate but the diversity. */
  ghost predicate DiversityMiss(pool: seq<Read>, target: Difficulty, least: seq<nat>) {
    && LeastReads(pool, target, least) && PassesCounts(ReadsAt(pool, least), target)
    && exists d: nat :: SelectedDiversity(Valid(ReadsAt(pool, least), target), target, d) && d < target.minDiversity
  }

  /** The reported set holds a read of a wrong shape. */
  ghost predicate MalformedMiss(pool: seq<Read>, target: Difficulty, least: seq<nat>) {
    LeastReads(pool, target, least) && !ShapesFit(ReadsAt(pool, least))
  }

  /** `u32` bounds of the wire target. */
  predicate WireTarget(target: Difficulty) {
    target.minSolutions < U32 && target.minDiversity < U32 && target.maxProofSolutions < U32
  }

  /** Sorts the reads below the ceiling and keeps as many as a proof may hold. */
  method LeastBelow(pool: seq<Read>, target: Difficulty) returns (indices: seq<nat>)
    ensures LeastReads(pool, target, indices)
    ensures |indices| == Min(|BelowCeiling(pool, target)|, target.maxProofSolutions)
    ensures forall k :: 0 <= k < |ReadsAt(pool, indices)| ==> ReadsAt(pool, indices)[k].energy < target.maxEnergy
  {
    var below := BelowCeiling(pool, target);
    var sorted := SortDistinct(below, ReadLess(pool));
    ReadOrder(pool);
    SortAscending(below, ReadLess(pool));
    SortKeepsLength(below, pool);
    var n := Min(|sorted|, target.maxProofSolutions);
    SortedPrefixIsLeast(pool, target, sorted, n);
    indices := sorted[..n];
    var chosen := ReadsAt(pool, indices);
    forall k | 0 <= k < |chosen| ensures chosen[k].energy < target.maxEnergy {
      assert indices[k] in indices;
    }
  }

  /** The least reads are determined, so what is said of them is said of the pool. */
  lemma LeastUnique(pool: seq<Read>, target: Difficulty, least: seq<nat>, also: seq<nat>)
    requires LeastReads(pool, target, least) && LeastReads(pool, target, also)
    ensures least == also
  {
    ReadOrder(pool);
    AscendingDistinct(least, ReadLess(pool));
    AscendingDistinct(also, ReadLess(pool));
    LeastWithin(pool, target, least, also);
    LeastWithin(pool, target, also, least);
    AscendingUnique(least, also, ReadLess(pool));
  }

  lemma LeastWithin(pool: seq<Read>, target: Difficulty, least: seq<nat>, also: seq<nat>)
    requires LeastReads(pool, target, least) && LeastReads(pool, target, also) && Distinct(least) && Distinct(also)
    ensures forall i :: i in least ==> i in also
  {
    DistinctCard(least);
    DistinctCard(also);
    forall i | i in least ensures i in also {
      assert forall k :: k in also && k !in least ==> ComesFirst(pool, i, k);
      assert i !in also ==> forall k :: k in also ==> ComesFirst(pool, k, i);
      if i !in also {
        SubsetCard(Elements(also) + {i}, Elements(least));
      }
    }
  }

  /** The one answer for a pool: the first gate that its least reads fail, or their statistics. */
  ghost predicate IsAnswer(pool: seq<Read>, target: Difficulty, least: seq<nat>, r: Result<(seq<nat>, Stats), Miss>) {
    && LeastReads(pool, target, least)
    && r != Err(TooManySolutions)
    && (r == Err(MalformedSolutions) <==> !ShapesFit(ReadsAt(pool, least)))
    && (r == Err(InsufficientEnergy) <==> least == [])
    && (r == Err(InsufficientSolutions) <==> ShapesFit(ReadsAt(pool, least)) && 0 < |least| < target.minSolutions)
    && (r == Err(InsufficientDiversity) <==> DiversityMiss(pool, target, least))
    && (r.Ok? <==> PassesAll(ReadsAt(pool, least), target))
    && (r.Ok? ==> r.value.0 == least && StatsOf(ReadsAt(pool, least), target, r.value.1))
  }

  /** The statistics of a set whose reads all lie below the ceiling. */
  ghost predicate StatsOf(set_: seq<Read>, target: Difficulty, stats: Stats) {
    && IsLeastEnergy(set_, stats.bestEnergy) && SelectedDiversity(set_, target, stats.diversity) && stats.validCount == |set_|
  }

  /** A pool has one answer. */
  lemma AnswerUnique(pool: seq<Read>, target: Difficulty, least: seq<nat>, also: seq<nat>,
                     r: Result<(seq<nat>, Stats), Miss>, q: Result<(seq<nat>, Stats), Miss>)
    requires IsAnswer(pool, target, least, r) && IsAnswer(pool, target, also, q)
    ensures r == q
  {
    LeastUnique(pool, target, least, also);
    if r.Ok? {
      SelectedDiversityUnique(ReadsAt(pool, least), target, r.value.1.diversity, q.value.1.diversity);
    } else {
      assert r.error.MalformedSolutions? || r.error.InsufficientEnergy? || r.error.InsufficientSolutions? || r.error.InsufficientDiversity?;
    }
  }

  method JudgeLeast(pool: seq<Read>, target: Difficulty, indices: seq<nat>) returns (r: Result<(seq<nat>, Stats), Miss>)
    requires WireTarget(target) && LeastReads(pool, target, indices)
    ensures IsAnswer(pool, target, indices, r)
  {
    var set_ := ReadsAt(pool, indices);
    AllBelowAreValid(set_, target);
    var stats := ValidateProofSet(set_, target);
    return if stats.Err? then Err(stats.error) else Ok((indices, stats.value));
  }

  method MeetsTarget(pool: seq<Read>, target: Difficulty) returns (r: Result<(seq<nat>, Stats), Miss>)
    requires WireTarget(target)
    ensures exists least :: IsAnswer(pool, target, least, r)
    ensures r == Err(InsufficientEnergy) || r == Err(InsufficientSolutions) ==> Hopeless(pool, target)
    ensures r.Ok? ==> forall i :: 0 <= i < |pool| && pool[i].energy < target.maxEnergy ==> r.value.1.bestEnergy <= pool[i].energy
    ensures r.Ok? ==> exists i :: 0 <= i < |pool| && pool[i].energy < target.maxEnergy && pool[i].energy == r.value.1.bestEnergy
  {
    var indices := LeastBelow(pool, target);
    r := JudgeLeast(pool, target, indices);
    if r.Ok? {
      BestOverall(pool, target, indices, r.value.1.bestEnergy);
    } else if r == Err(InsufficientEnergy) || r == Err(InsufficientSolutions) {
      TooFewIsHopeless(pool, target);
    }
  }
}

/** Exactly when a miss of the reported set is final, by the target and the number of reads below the ceiling. */
module MissesExactly {
  import opened Common
  import opened Diversity
  import opened Finality
  import opened FlaggedPools
  import opened LabelledPools
  import opened Ladders
  import opened Machine
  import opened OpenMisses
  import opened PairSums
  import opened Scoring
  import opened SpinRows
  import opened Target

  lemma OrderOf6()
    ensures Two(6) == 64
  {
  }

  lemma DiversityIsOpen(target: Difficulty, below: nat)
    requires WireTarget(target) && !DiversityIsFinal(target, below)
    ensures DiversityOpen(target, below)
  {
    OrderOf6();
    OrderOf32();
    if target.maxProofSolutions < below {
      SpareReadIsOpen(target, below, 32);
    } else if target.minSolutions == 3 {
      ThreeNeededIsOpen(target, below, 6);
    } else if target.minSolutions < 64 {
      FewNeededIsOpen(target, below, 6);
    } else {
      ManyNeededIsOpen(target, below, 32);
    }
  }

  /** A diversity miss is final on every pool with that many reads below the ceiling, exactly under the condition. */
  lemma DiversityFinalExactly(target: Difficulty, below: nat)
    requires WireTarget(target)
    ensures DiversityIsFinal(target, below) <==>
            forall pool, least :: |BelowCeiling(pool, target)| == below && DiversityMiss(pool, target, least) ==> !Attainable(pool, target)
  {
    if DiversityIsFinal(target, below) {
      forall pool, least | |BelowCeiling(pool, target)| == below && DiversityMiss(pool, target, least)
        ensures !Attainable(pool, target)
      {
        DiversityMissIsFinal(pool, target, least);
      }
    } else {
      DiversityIsOpen(target, below);
    }
  }

  // ---- the smallest case ----

  /** Three reads, the two lowest alike; two reads may be reported, and both are needed. */
  function SampleSpins(): (sols: seq<Spins>)
    ensures |sols| == 3
  {
    [[1, 1], [1, 1], [1, -1]]
  }

  function SampleTarget(): Difficulty {
    Difficulty(0, 2, 1, 2)
  }

  lemma SampleDistances()
    ensures Dist(SampleSpins(), 0, 1) == 0 && Dist(SampleSpins(), 0, 2) == 1
  {
    HammingToSelf([1, 1]);
    var a: Spins, b: Spins := [1, 1], [1, -1];
    assert Disagreements(a[..1], b[..1]) == 0 by {
      assert a[..1] == b[..1];
      NoDisagreement(a[..1]);
    }
    assert Disagreements(a, b) == 1;
  }

  lemma SamplePair(x: nat, width: nat)
    requires 1 <= x < 3 && width == 2
    ensures Indices(SampleSpins(), [0, x])
    ensures DiversityMilli(Picked(SampleSpins(), [0, x])) >= 1 <==> Dist(SampleSpins(), 0, x) >= 1
  {
    ReachesExactly(SampleSpins(), [0, x], width, 1);
    PairSumOfTwo(SampleSpins(), [0, x]);
    assert Pairs(2) == 1;
  }

  /** The reported set can miss the diversity gate although another set of the same reads passes every gate. */
  lemma DiversityMissIsNotFinal()
    ensures var pool, target := Ladder(SampleSpins(), SampleTarget()), SampleTarget();
            WireTarget(target) && DiversityMiss(pool, target, Upto(2)) && Attainable(pool, target)
  {
    SampleDistances();
    SamplePair(1, 2);
    SamplePair(2, 2);
    assert Picked(SampleSpins(), [0, 1]) == SampleSpins()[..2];
    UptoFacts(SampleSpins()[..2], 2);
    LeastMiss(SampleSpins(), SampleTarget(), 2);
    PicksPass(SampleSpins(), SampleTarget(), [0, 2], 2);
  }

  // ---- malformed reads ----

  /** A malformed read before rows that are all equally distant, as many as are needed. */
  function MalformedFirst(o: nat, n: nat, k: nat): (sols: seq<Spins>)
    requires Two(o) == U32 && k < U32
    ensures |sols| == n + 1
  {
    [[]] + Tagged(o, 0, NewTags(n, k))
  }

  function NewTags(n: nat, k: nat): (tag: seq<nat>)
    requires k < U32
    ensures |tag| == n && forall i :: 0 <= i < n ==> tag[i] < U32
  {
    seq(n, j => if 0 <= j < k then j else 0)
  }

  function AfterFirst(k: nat): (p: seq<nat>)
    ensures |p| == k
  {
    seq(k, i => i + 1)
  }

  lemma AfterFirstFacts(o: nat, n: nat, k: nat)
    requires Two(o) == U32 && k < U32 && k <= n
    ensures Indices(MalformedFirst(o, n, k), AfterFirst(k)) && Distinct(AfterFirst(k))
    ensures forall x :: x in AfterFirst(k) ==> |MalformedFirst(o, n, k)[x]| == U32 && AllSigns(MalformedFirst(o, n, k)[x])
    ensures Picked(MalformedFirst(o, n, k), AfterFirst(k)) == Tagged(o, 0, NewTags(n, k))[..k]
  {
    var sols := MalformedFirst(o, n, k);
    TaggedIsLabelled(o, 0, NewTags(n, k));
    forall x | x in AfterFirst(k) ensures 1 <= x <= k && |sols[x]| == U32 && AllSigns(sols[x]) {
      assert sols[x] == Tagged(o, 0, NewTags(n, k))[x - 1];
    }
  }

  lemma NewRowsPass(o: nat, n: nat, k: nat, d: nat)
    requires Two(o) == U32 && k < U32 && k <= n && d <= 500 && (d >= 1 ==> k >= 2)
    ensures DiversityMilli(Tagged(o, 0, NewTags(n, k))[..k]) >= d
  {
    if d >= 1 {
      TaggedIsLabelled(o, 0, NewTags(n, k));
      NewCounts(NewTags(n, k), k, k, 0);
      PrefixMean(Tagged(o, 0, NewTags(n, k)), NewTags(n, k), k, d, 1, U32);
    }
  }

  lemma EmptyIsMalformed(sols: seq<Spins>, target: Difficulty, n: nat)
    requires 0 < n <= |sols| && sols[0] == []
    ensures Indices(sols, Upto(n)) && !ShapesFit(ReadsAt(Ladder(sols, target), Upto(n)))
  {
    UptoFacts(sols, n);
    assert !WellShaped(ReadsAt(Ladder(sols, target), Upto(n))[0], 0);
  }

  lemma MalformedIsOpen(target: Difficulty, below: nat, o: nat)
    requires Two(o) == U32 && WireTarget(target) && !MalformedIsFinal(target, below)
    ensures exists pool, least ::
              |BelowCeiling(pool, target)| == below && MalformedMiss(pool, target, least) && Attainable(pool, target)
  {
    var k := Needed(target);
    var sols := MalformedFirst(o, below - 1, k);
    AfterFirstFacts(o, below - 1, k);
    NewRowsPass(o, below - 1, k, target.minDiversity);
    PicksPass(sols, target, AfterFirst(k), U32);
    LadderBelow(sols, target);
    LadderLeast(sols, target);
    EmptyIsMalformed(sols, target, Min(|sols|, target.maxProofSolutions));
    assert MalformedMiss(Ladder(sols, target), target, Upto(Min(|sols|, target.maxProofSolutions)));
  }

  /** A malformed reported read is final on every pool with that many reads below the ceiling, exactly under the condition. */
  lemma MalformedFinalExactly(target: Difficulty, below: nat)
    requires WireTarget(target)
    ensures MalformedIsFinal(target, below) <==>
            forall pool, least :: |BelowCeiling(pool, target)| == below && MalformedMiss(pool, target, least) ==> !Attainable(pool, target)
  {
    if MalformedIsFinal(target, below) {
      forall pool, least | |BelowCeiling(pool, target)| == below && MalformedMiss(pool, target, least)
        ensures !Attainable(pool, target)
      {
        MalformedMissIsFinal(pool, target, least);
      }
    } else {
      OrderOf32();
      MalformedIsOpen(target, below, 32);
    }
  }
}

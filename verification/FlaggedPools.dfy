/** Pools of nearly equal distances, set apart by flags, in which the greedy rule passes over a better read. */
module FlaggedPools {
  import Arith
  import opened Diversity
  import opened LabelledPools
  import opened Ladders
  import opened Machine
  import opened OpenMisses
  import opened PairSums
  import opened Scoring
  import opened SpinRows
  import opened Target

  // ---- reads with flags ----

  type Flags = seq<bool>

  function Side(flag: bool): int {
    if flag then -1 else 1
  }

  /** A flag, `s` places wide, before what follows. */
  function Flagged(flag: bool, s: nat, rest: Spins): (b: Spins)
    ensures |b| == s + |rest|
    ensures AllSigns(rest) ==> AllSigns(b)
  {
    Level(Side(flag), s) + rest
  }

  function Block(f: Flags, s: nat): (b: Spins)
    ensures |b| == Times(|f|, s) && AllSigns(b)
  {
    if f == [] then [] else Flagged(f[0], s, Block(f[1..], s))
  }

  function Gap(f: Flags, g: Flags, s: nat): nat
    requires |f| == |g|
  {
    if f == [] then 0 else (if f[0] != g[0] then s else 0) + Gap(f[1..], g[1..], s)
  }

  lemma SidesDisagree(f: bool, g: bool, s: nat, a: Spins, b: Spins)
    requires |a| == |b|
    ensures Disagreements(Flagged(f, s, a), Flagged(g, s, b)) == (if f != g then s else 0) + Disagreements(a, b)
  {
    LevelsDisagree(Side(f), Side(g), s);
    JoinedDisagree(Level(Side(f), s), a, Level(Side(g), s), b);
  }

  lemma {:induction false} BlocksDisagree(f: Flags, g: Flags, s: nat)
    requires |f| == |g|
    ensures Disagreements(Block(f, s), Block(g, s)) == Gap(f, g, s)
  {
    if f != [] {
      BlocksDisagree(f[1..], g[1..], s);
      SidesDisagree(f[0], g[0], s, Block(f[1..], s), Block(g[1..], s));
    }
  }

  /** Row `i` of order 2^o, each place `r` times, then the flags, `s` places each, then equal places. */
  function FlaggedSpins(o: nat, i: nat, r: nat, f: Flags, s: nat, pad: nat): (a: Spins)
    requires i < Two(o)
    ensures |a| == Times(Two(o), r) + Times(|f|, s) + pad && AllSigns(a)
  {
    Stretched(Row(o, i), r) + (Block(f, s) + Level(1, pad))
  }

  lemma FlaggedDisagree(o: nat, i: nat, j: nat, r: nat, f: Flags, g: Flags, s: nat, pad: nat)
    requires i < Two(o) == 64 && j < 64 && |f| == |g|
    ensures Disagreements(FlaggedSpins(o, i, r, f, s, pad), FlaggedSpins(o, j, r, g, s, pad)) ==
            (if i == j then 0 else 32 * r) + Gap(f, g, s)
  {
    RowsDisagree(o, i, j);
    StretchedDisagree(Row(o, i), Row(o, j), r);
    TimesIsProduct(32, r);
    BlocksDisagree(f, g, s);
    LevelsDisagree(1, 1, pad);
    JoinedDisagree(Block(f, s), Level(1, pad), Block(g, s), Level(1, pad));
    JoinedDisagree(Stretched(Row(o, i), r), Block(f, s) + Level(1, pad), Stretched(Row(o, j), r), Block(g, s) + Level(1, pad));
  }

  lemma FlaggedDistance(o: nat, i: nat, j: nat, r: nat, f: Flags, g: Flags, s: nat, pad: nat)
    requires i < Two(o) == 64 && j < 64 && |f| == |g|
    requires 2 * (32 * r + Gap(f, g, s)) <= 64 * r + Times(|f|, s) + pad && 32 * r + Gap(f, g, s) < U32
    ensures HammingFlipInvariant(FlaggedSpins(o, i, r, f, s, pad), FlaggedSpins(o, j, r, g, s, pad)) ==
            (if i == j then 0 else 32 * r) + Gap(f, g, s)
  {
    FlaggedDisagree(o, i, j, r, f, g, s, pad);
    TimesIsProduct(64, r);
    PlainDistance(FlaggedSpins(o, i, r, f, s, pad), FlaggedSpins(o, j, r, g, s, pad));
  }

  // ---- pools of them ----

  /** Flags of one length for the different reads of a pool. */
  ghost predicate FlagRows(flags: seq<Flags>, l: nat) {
    0 < |flags| <= 64 && forall i :: 0 <= i < |flags| ==> |flags[i]| == l
  }

  /** One read for each row of flags, then copies of the first. */
  function Base(i: nat, n: nat): nat {
    if i < n then i else 0
  }

  function FlaggedPool(o: nat, r: nat, s: nat, pad: nat, flags: seq<Flags>, n: nat): (sols: seq<Spins>)
    requires 0 < |flags| <= Two(o)
    ensures |sols| == n
  {
    seq(n, i requires 0 <= i < n => FlaggedSpins(o, Base(i, |flags|), r, flags[Base(i, |flags|)], s, pad))
  }

  ghost function FlagGap(flags: seq<Flags>, l: nat, s: nat, i: nat, j: nat): nat
    requires FlagRows(flags, l)
  {
    Gap(flags[Base(i, |flags|)], flags[Base(j, |flags|)], s)
  }

  /** The distances: `h` between different reads, and what the flags add. */
  ghost predicate Apart(sols: seq<Spins>, flags: seq<Flags>, l: nat, h: nat, s: nat)
    requires FlagRows(flags, l)
  {
    forall i: nat, j: nat :: i < |sols| && j < |sols| ==>
      Dist(sols, i, j) == (if Base(i, |flags|) == Base(j, |flags|) then 0 else h) + FlagGap(flags, l, s, i, j)
  }

  lemma FlaggedPoolApart(o: nat, r: nat, s: nat, pad: nat, flags: seq<Flags>, l: nat, n: nat, width: nat)
    requires FlagRows(flags, l) && Two(o) == 64 && width == 64 * r + Times(l, s) + pad && width > 0
    requires forall i: nat, j: nat :: 2 * (32 * r + FlagGap(flags, l, s, i, j)) <= width && 32 * r + FlagGap(flags, l, s, i, j) < U32
    ensures Apart(FlaggedPool(o, r, s, pad, flags, n), flags, l, 32 * r, s)
    ensures Shapely(FlaggedPool(o, r, s, pad, flags, n), width)
  {
    var sols := FlaggedPool(o, r, s, pad, flags, n);
    TimesIsProduct(64, r);
    forall i: nat, j: nat | i < n && j < n
      ensures Dist(sols, i, j) == (if Base(i, |flags|) == Base(j, |flags|) then 0 else 32 * r) + FlagGap(flags, l, s, i, j)
    {
      var x, y := Base(i, |flags|), Base(j, |flags|);
      assert FlagGap(flags, l, s, i, j) == Gap(flags[x], flags[y], s);
      FlaggedDistance(o, x, y, r, flags[x], flags[y], s, pad);
    }
  }

  /** The greedy rule picks the first `k` reads, which miss, and `k` in place of `k - 1` would pass. */
  lemma GreedyIsOpen(target: Difficulty, sols: seq<Spins>, k: nat, width: nat)
    requires Shapely(sols, width) && 1 <= target.minDiversity < U32
    requires 2 <= k == target.minSolutions < |sols| <= target.maxProofSolutions && GreedyOrder(sols, Upto(k))
    requires !Reaches(PairTo(sols, k), target.minDiversity, Pairs(k), width)
    requires Reaches(PairTo(sols, k - 1) + RowTo(sols, k - 1, k), target.minDiversity, Pairs(k), width)
    ensures DiversityOpen(target, |sols|)
  {
    assert sols[..|sols|] == sols;
    ReadingOrderIsSelected(sols, k);
    UptoFacts(sols, k);
    PairSumIsPairTo(sols, k);
    ReachesExactly(sols, Upto(k), width, target.minDiversity);
    LeastMiss(sols, target, width);
    SwapPasses(target, sols, k, width);
    LadderBelow(sols, target);
  }

  lemma SwapPasses(target: Difficulty, sols: seq<Spins>, k: nat, width: nat)
    requires Shapely(sols, width) && 1 <= target.minDiversity < U32
    requires 2 <= k == target.minSolutions < |sols| && k <= target.maxProofSolutions
    requires Reaches(PairTo(sols, k - 1) + RowTo(sols, k - 1, k), target.minDiversity, Pairs(k), width)
    ensures Attainable(Ladder(sols, target), target)
  {
    var p := Upto(k - 1) + [k];
    UptoPlusDistinct(sols, k - 1, k);
    ShapelyPicks(sols, width, p);
    UptoPlus(sols, k - 1, k);
    ReachesExactly(sols, p, width, target.minDiversity);
    PicksPass(sols, target, p, width);
  }

  // ---- four to sixty-three reads needed ----

  /** The first read and read `k` carry the flag. */
  function TwoFlags(k: nat): (flags: seq<Flags>)
    ensures |flags| == k + 1
  {
    seq(k + 1, i => [i == 0 || i == k])
  }

  lemma TwoFlagsGap(k: nat, s: nat, i: nat, j: nat)
    requires k < 64
    ensures FlagRows(TwoFlags(k), 1)
    ensures FlagGap(TwoFlags(k), 1, s, i, j) == if (i == 0 || i >= k) != (j == 0 || j >= k) then s else 0
  {
    var f, g := TwoFlags(k)[Base(i, k + 1)], TwoFlags(k)[Base(j, k + 1)];
    assert Gap(f[1..], g[1..], s) == 0;
  }

  ghost predicate TwoApart(sols: seq<Spins>, h: nat, s: nat, k: nat) {
    forall i: nat, j: nat :: i < |sols| && j < |sols| ==>
      Dist(sols, i, j) == (if Base(i, k + 1) == Base(j, k + 1) then 0 else h)
                          + if (i == 0 || i >= k) != (j == 0 || j >= k) then s else 0
  }

  lemma TwoFlagsNext(sols: seq<Spins>, h: nat, s: nat, k: nat, j: nat)
    requires TwoApart(sols, h, s, k) && 2 <= j < k < |sols|
    ensures NextIsFarthest(sols, j)
  {
    UptoFacts(sols, j);
    NearAtLeast(sols, j, j, h);
    forall c: nat | j <= c < |sols| ensures NearestDist(sols, Upto(j), c) <= NearestDist(sols, Upto(j), j) {
      var i := if c < k then 1 else 0;
      NearAtMost(sols, j, c, i);
      assert Dist(sols, c, i) <= h;
    }
  }

  lemma TwoFlagsGreedy(sols: seq<Spins>, h: nat, s: nat, k: nat)
    requires TwoApart(sols, h, s, k) && 4 <= k < |sols|
    ensures GreedyOrder(sols, Upto(k))
  {
    assert Dist(sols, 0, 1) == h + s;
    forall j | 2 <= j < k ensures NextIsFarthest(sols, j) {
      TwoFlagsNext(sols, h, s, k, j);
    }
    assert MostDistant(sols, 0, 1);
    ReadingOrderIsGreedy(sols, k);
  }

  lemma {:induction false} TwoFlagsRow(sols: seq<Spins>, h: nat, s: nat, k: nat, n: nat, x: nat)
    requires TwoApart(sols, h, s, k) && 1 <= n <= x <= k < |sols|
    ensures RowTo(sols, n, x) == n * h + if x == k then (n - 1) * s else s
  {
    if n > 1 {
      TwoFlagsRow(sols, h, s, k, n - 1, x);
      Arith.MulNext(n - 1, h);
      Arith.MulNext(n - 2, s);
    } else {
      assert RowTo(sols, 1, x) == RowTo(sols, 0, x) + Dist(sols, 0, x);
    }
  }

  lemma {:induction false} TwoFlagsPairs(sols: seq<Spins>, h: nat, s: nat, k: nat, n: nat)
    requires TwoApart(sols, h, s, k) && 1 <= n <= k < |sols|
    ensures PairTo(sols, n) == Pairs(n) * h + (n - 1) * s
  {
    assert Pairs(1) == 0;
    if n > 1 {
      TwoFlagsPairs(sols, h, s, k, n - 1);
      TwoFlagsRow(sols, h, s, k, n - 1, n - 1);
      Distributes(Pairs(n - 1), n - 1, h);
      Arith.MulNext(n - 2, s);
    }
  }

  lemma Distributes(x: int, y: int, h: int)
    ensures (x + y) * h == x * h + y * h
  {
  }

  /** A total of `2 d - 1` times `x` against a width of `2000 b`. */
  lemma ScaledGate(x: nat, d: nat, n: nat, b: nat)
    requires 1 <= d
    ensures Reaches((2 * d - 1) * x, d, n, 2000 * b) <==> x >= n * b
  {
    var q := 2 * d - 1;
    assert 2000 * (q * x) == (2000 * q) * x;
    assert q * (n * (2000 * b)) == (2000 * q) * (n * b) by {
      Regrouped(n, 2000, b);
      Regrouped(q, 2000, n * b);
      assert 2000 * (q * (n * b)) == (2000 * q) * (n * b);
    }
    if x >= n * b {
      Arith.MulMonotone(n * b, x, 2000 * q);
    } else {
      Arith.MulMonotone(x + 1, n * b, 2000 * q);
      Arith.MulNext(x, 2000 * q);
    }
  }

  lemma TwoFlagsTotals(sols: seq<Spins>, h: nat, s: nat, k: nat)
    requires TwoApart(sols, h, s, k) && 4 <= k < |sols|
    ensures PairTo(sols, k) == Pairs(k) * h + (k - 1) * s
    ensures PairTo(sols, k - 1) + RowTo(sols, k - 1, k) == Pairs(k) * h + (2 * k - 4) * s
  {
    TwoFlagsPairs(sols, h, s, k, k);
    TwoFlagsPairs(sols, h, s, k, k - 1);
    TwoFlagsRow(sols, h, s, k, k - 1, k);
    Distributes(Pairs(k - 1), k - 1, h);
    Distributes(k - 2, k - 2, s);
  }

  lemma TwoFlagsTurn(k: nat, p: nat)
    requires 4 <= k && 2 * p == k * (k - 1)
    ensures 128000 * p + (k - 1) * (2 * k - 1) < p * 128004 <= 128000 * p + (2 * k - 4) * (2 * k - 1)
  {
    assert (k - 1) * (2 * k - 1) == 2 * (k * (k - 1)) - (k - 1);
    assert (2 * k - 4) * (2 * k - 1) == 2 * (k * (k - 1)) + 2 * (k * k) - 8 * k + 4;
    assert k * k >= 4 * k;
  }

  lemma Factored(p: int, q: int, x: int, y: int)
    ensures p * (128000 * q) + x * (q * y) == q * (128000 * p + x * y)
  {
    Regrouped(x, q, y);
    assert p * (128000 * q) == q * (128000 * p);
    Distributes(128000 * p, x * y, q);
  }

  lemma TwoFlagsGates(k: nat, d: nat, h: nat, s: nat, low: nat, high: nat)
    requires 4 <= k && 1 <= d && h == 128000 * (2 * d - 1) && s == (2 * d - 1) * (2 * k - 1)
    requires low == Pairs(k) * h + (k - 1) * s && high == Pairs(k) * h + (2 * k - 4) * s
    ensures !Reaches(low, d, Pairs(k), 256008000) && Reaches(high, d, Pairs(k), 256008000)
  {
    PairsIsProduct(k);
    TwoFlagsTurn(k, Pairs(k));
    Factored(Pairs(k), 2 * d - 1, k - 1, 2 * k - 1);
    Factored(Pairs(k), 2 * d - 1, 2 * k - 4, 2 * k - 1);
    ScaledGate(128000 * Pairs(k) + (k - 1) * (2 * k - 1), d, Pairs(k), 128004);
    ScaledGate(128000 * Pairs(k) + (2 * k - 4) * (2 * k - 1), d, Pairs(k), 128004);
  }

  lemma TwoFlagsPool(o: nat, k: nat, q: nat, s: nat, below: nat) returns (sols: seq<Spins>)
    requires Two(o) == 64 && k < 64 && 1 <= q <= 999 && s <= q * 125
    ensures |sols| == below && Shapely(sols, 256008000) && TwoApart(sols, 128000 * q, s, k)
  {
    var r := 4000 * q;
    var pad := 256008000 - 64 * r - s;
    assert Times(1, s) == s;
    forall i: nat, j: nat ensures FlagRows(TwoFlags(k), 1) && FlagGap(TwoFlags(k), 1, s, i, j) <= s {
      TwoFlagsGap(k, s, i, j);
    }
    sols := FlaggedPool(o, r, s, pad, TwoFlags(k), below);
    FlaggedPoolApart(o, r, s, pad, TwoFlags(k), 1, below, 256008000);
    FlagsAreTwoApart(sols, k, 32 * r, s);
  }

  lemma FewNeededIsOpen(target: Difficulty, below: nat, o: nat)
    requires Two(o) == 64 && WireTarget(target) && 1 <= target.minDiversity <= 500
    requires 4 <= target.minSolutions < 64 && target.minSolutions < below <= target.maxProofSolutions
    ensures DiversityOpen(target, below)
  {
    var k, q := target.minSolutions, 2 * target.minDiversity - 1;
    Arith.MulNonNegative(q, 2 * k - 1);
    var h, s := 128000 * q, q * (2 * k - 1);
    Arith.MulMonotone(2 * k - 1, 125, q);
    var sols := TwoFlagsPool(o, k, q, s, below);
    TwoFlagsGreedy(sols, h, s, k);
    TwoFlagsTotals(sols, h, s, k);
    TwoFlagsGates(k, target.minDiversity, h, s, PairTo(sols, k), PairTo(sols, k - 1) + RowTo(sols, k - 1, k));
    GreedyIsOpen(target, sols, k, 256008000);
  }

  lemma FlagsAreTwoApart(sols: seq<Spins>, k: nat, h: nat, s: nat)
    requires k < 64 && FlagRows(TwoFlags(k), 1) && Apart(sols, TwoFlags(k), 1, h, s)
    ensures TwoApart(sols, h, s, k)
  {
    forall i: nat, j: nat | i < |sols| && j < |sols|
      ensures Dist(sols, i, j) == (if Base(i, k + 1) == Base(j, k + 1) then 0 else h)
                                  + if (i == 0 || i >= k) != (j == 0 || j >= k) then s else 0
    {
      TwoFlagsGap(k, s, i, j);
    }
  }

  // ---- three reads needed ----

  /** Reads 0 and 1 differ most, 2 lies between them, and 3 is as far from 1 as 0 is. */
  function FourFlags(): (flags: seq<Flags>)
    ensures |flags| == 4
  {
    [[false, false, false, false, false],
     [true, true, true, true, false],
     [true, true, false, false, false],
     [true, false, false, false, true]]
  }

  function FourGap(x: nat, y: nat, s: nat): nat {
    if x == y then 0 else if x + y == 1 || x + y == 4 then 4 * s else 2 * s
  }

  lemma GapOfFive(f: Flags, g: Flags, s: nat)
    requires |f| == |g| == 5
    ensures Gap(f, g, s) ==
            (if f[0] != g[0] then s else 0) + ((if f[1] != g[1] then s else 0) + ((if f[2] != g[2] then s else 0)
            + ((if f[3] != g[3] then s else 0) + if f[4] != g[4] then s else 0)))
  {
    var f1, g1 := f[1..], g[1..];
    var f2, g2 := f1[1..], g1[1..];
    var f3, g3 := f2[1..], g2[1..];
    var f4, g4 := f3[1..], g3[1..];
    assert Gap(f4, g4, s) == (if f4[0] != g4[0] then s else 0) + Gap(f4[1..], g4[1..], s);
    assert Gap(f3, g3, s) == (if f3[0] != g3[0] then s else 0) + Gap(f4, g4, s);
    assert Gap(f2, g2, s) == (if f2[0] != g2[0] then s else 0) + Gap(f3, g3, s);
  }

  lemma FourFlagsGap(s: nat, i: nat, j: nat)
    ensures FlagRows(FourFlags(), 5) && FlagGap(FourFlags(), 5, s, i, j) == FourGap(Base(i, 4), Base(j, 4), s)
  {
    GapOfFive(FourFlags()[Base(i, 4)], FourFlags()[Base(j, 4)], s);
  }

  ghost predicate FourApart(sols: seq<Spins>, h: nat, s: nat) {
    forall i: nat, j: nat :: i < |sols| && j < |sols| ==>
      Dist(sols, i, j) == (if Base(i, 4) == Base(j, 4) then 0 else h) + FourGap(Base(i, 4), Base(j, 4), s)
  }

  lemma FourDistances(sols: seq<Spins>, h: nat, s: nat)
    requires FourApart(sols, h, s) && 4 <= |sols|
    ensures Dist(sols, 0, 1) == h + 4 * s && Dist(sols, 0, 2) == h + 2 * s && Dist(sols, 1, 2) == h + 2 * s
    ensures Dist(sols, 0, 3) == h + 2 * s && Dist(sols, 1, 3) == h + 4 * s
  {
  }

  lemma FourFlagsTotals(sols: seq<Spins>, h: nat, s: nat)
    requires FourApart(sols, h, s) && 4 <= |sols|
    ensures PairTo(sols, 3) == 3 * h + 8 * s && PairTo(sols, 2) + RowTo(sols, 2, 3) == 3 * h + 10 * s
  {
    FourDistances(sols, h, s);
    SmallSums(sols);
  }

  lemma SmallSums(sols: seq<Spins>)
    requires 4 <= |sols|
    ensures PairTo(sols, 2) == Dist(sols, 0, 1) && RowTo(sols, 2, 3) == Dist(sols, 0, 3) + Dist(sols, 1, 3)
    ensures PairTo(sols, 3) == Dist(sols, 0, 1) + (Dist(sols, 0, 2) + Dist(sols, 1, 2))
  {
    assert RowTo(sols, 1, 1) == Dist(sols, 0, 1);
    assert RowTo(sols, 1, 2) == Dist(sols, 0, 2);
    assert RowTo(sols, 1, 3) == Dist(sols, 0, 3);
    assert PairTo(sols, 1) == 0;
  }

  lemma FourFlagsFirst(sols: seq<Spins>, h: nat, s: nat)
    requires FourApart(sols, h, s) && 4 <= |sols|
    ensures MostDistant(sols, 0, 1)
  {
    FourDistances(sols, h, s);
    forall i, j | 0 <= i < j < |sols| ensures Dist(sols, i, j) <= h + 4 * s {
      assert FourGap(Base(i, 4), Base(j, 4), s) <= 4 * s;
    }
  }

  lemma FourFlagsGreedy(sols: seq<Spins>, h: nat, s: nat)
    requires FourApart(sols, h, s) && 4 <= |sols|
    ensures GreedyOrder(sols, Upto(3))
  {
    FourFlagsNext(sols, h, s);
    FourFlagsFirst(sols, h, s);
    ReadingOrderIsGreedy(sols, 3);
  }

  lemma FourFlagsNext(sols: seq<Spins>, h: nat, s: nat)
    requires FourApart(sols, h, s) && 4 <= |sols|
    ensures NextIsFarthest(sols, 2)
  {
    UptoFacts(sols, 2);
    NearAtLeast(sols, 2, 2, h + 2 * s);
    forall c: nat | 2 <= c < |sols| ensures NearestDist(sols, Upto(2), c) <= NearestDist(sols, Upto(2), 2) {
      NearAtMost(sols, 2, c, 0);
      assert Dist(sols, c, 0) <= h + 2 * s;
    }
  }

  lemma FourFlagsPool(o: nat, q: nat, below: nat) returns (sols: seq<Spins>)
    requires Two(o) == 64 && 1 <= q <= 999
    ensures |sols| == below && Shapely(sols, 256006000) && FourApart(sols, 128000 * q, q)
  {
    var r := 4000 * q;
    var pad := 256006000 - 64 * r - 5 * q;
    TimesIsProduct(5, q);
    forall i: nat, j: nat ensures FlagRows(FourFlags(), 5) && FlagGap(FourFlags(), 5, q, i, j) <= 4 * q {
      FourFlagsGap(q, i, j);
    }
    sols := FlaggedPool(o, r, q, pad, FourFlags(), below);
    FlaggedPoolApart(o, r, q, pad, FourFlags(), 5, below, 256006000);
    FlagsAreFourApart(sols, 32 * r, q);
  }

  lemma FourFlagsGates(d: nat, h: nat)
    requires 1 <= d && h == 128000 * (2 * d - 1)
    ensures !Reaches(3 * h + 8 * (2 * d - 1), d, Pairs(3), 256006000)
    ensures Reaches(3 * h + 10 * (2 * d - 1), d, Pairs(3), 256006000)
  {
    assert Pairs(3) == 3;
    ScaledGate(384008, d, 3, 128003);
    ScaledGate(384010, d, 3, 128003);
  }

  lemma ThreeNeededIsOpen(target: Difficulty, below: nat, o: nat)
    requires Two(o) == 64 && WireTarget(target) && 1 <= target.minDiversity <= 500
    requires 3 == target.minSolutions < below <= target.maxProofSolutions
    ensures DiversityOpen(target, below)
  {
    var q := 2 * target.minDiversity - 1;
    var sols := FourFlagsPool(o, q, below);
    FourFlagsGreedy(sols, 128000 * q, q);
    FourFlagsTotals(sols, 128000 * q, q);
    FourFlagsGates(target.minDiversity, 128000 * q);
    GreedyIsOpen(target, sols, 3, 256006000);
  }

  lemma FlagsAreFourApart(sols: seq<Spins>, h: nat, s: nat)
    requires FlagRows(FourFlags(), 5) && Apart(sols, FourFlags(), 5, h, s)
    ensures FourApart(sols, h, s)
  {
    forall i: nat, j: nat | i < |sols| && j < |sols|
      ensures Dist(sols, i, j) == (if Base(i, 4) == Base(j, 4) then 0 else h) + FourGap(Base(i, 4), Base(j, 4), s)
    {
      FourFlagsGap(s, i, j);
    }
  }
}

/** The total distance over a list of solutions, without regard to order, and the gate it must pass. */
module PairSums {
  import Arith
  import opened Common
  import opened Diversity
  import opened Machine
  import opened Scoring

  lemma PrefixIndices(sols: seq<Spins>, p: seq<nat>, k: nat)
    requires Indices(sols, p) && k <= |p|
    ensures Indices(sols, p[..k])
    ensures Picked(sols, p[..k]) == Picked(sols, p)[..k]
  {
    assert forall x :: x in p[..k] ==> x in p;
  }

  /** The distances from the listed solutions to solution `x`. */
  ghost function RowSum(sols: seq<Spins>, p: seq<nat>, x: nat): nat
    requires Indices(sols, p) && x < |sols|
  {
    if p == [] then 0
    else
      var last := |p| - 1;
      PrefixIndices(sols, p, last);
      assert p[last] in p;
      RowSum(sols, p[..last], x) + Dist(sols, p[last], x)
  }

  /** The distances over all pairs of list positions. */
  ghost function PairSum(sols: seq<Spins>, p: seq<nat>): nat
    requires Indices(sols, p)
  {
    if p == [] then 0
    else
      var last := |p| - 1;
      PrefixIndices(sols, p, last);
      assert p[last] in p;
      PairSum(sols, p[..last]) + RowSum(sols, p[..last], p[last])
  }

  // ---- the order of the list does not matter ----

  ghost function Without<T>(p: seq<T>, i: nat): (q: seq<T>)
    requires i < |p|
    ensures |q| == |p| - 1
  {
    p[..i] + p[i + 1..]
  }

  lemma WithoutLast<T>(p: seq<T>, i: nat)
    requires i < |p| - 1
    ensures Without(p, i)[..|p| - 2] == Without(p[..|p| - 1], i) && Without(p, i)[|p| - 2] == p[|p| - 1]
  {
  }

  lemma WithoutFacts(sols: seq<Spins>, p: seq<nat>, i: nat)
    requires i < |p| && Indices(sols, p)
    ensures Indices(sols, Without(p, i)) && p[i] < |sols|
    ensures forall x :: x in p <==> x in Without(p, i) || x == p[i]
    ensures Distinct(p) ==> Distinct(Without(p, i)) && p[i] !in Without(p, i)
  {
    assert p == p[..i] + [p[i]] + p[i + 1..] && p[i] in p;
    assert forall x :: x in Without(p, i) ==> x in p;
  }

  lemma {:induction false} RowWithout(sols: seq<Spins>, p: seq<nat>, i: nat, x: nat)
    requires Indices(sols, p) && i < |p| && x < |sols|
    ensures Indices(sols, Without(p, i)) && p[i] < |sols|
    ensures RowSum(sols, p, x) == RowSum(sols, Without(p, i), x) + Dist(sols, p[i], x)
    decreases p
  {
    WithoutFacts(sols, p, i);
    var last := |p| - 1;
    PrefixIndices(sols, p, last);
    if i < last {
      RowWithout(sols, p[..last], i, x);
      WithoutLast(p, i);
    } else {
      assert Without(p, i) == p[..last];
    }
  }

  lemma Unpush(sols: seq<Spins>, p: seq<nat>, front: seq<nat>, x: nat)
    requires Indices(sols, front) && x < |sols| && p == front + [x]
    ensures Indices(sols, p) && PairSum(sols, p) == PairSum(sols, front) + RowSum(sols, front, x)
    ensures forall y: nat :: y < |sols| ==> RowSum(sols, p, y) == RowSum(sols, front, y) + Dist(sols, x, y)
  {
    assert p[..|p| - 1] == front && p[|p| - 1] == x;
  }

  lemma {:induction false} PairWithout(sols: seq<Spins>, p: seq<nat>, i: nat)
    requires Indices(sols, p) && i < |p|
    ensures Indices(sols, Without(p, i)) && p[i] < |sols|
    ensures PairSum(sols, p) == PairSum(sols, Without(p, i)) + RowSum(sols, Without(p, i), p[i])
    decreases p
  {
    WithoutFacts(sols, p, i);
    var last := |p| - 1;
    var front, x := p[..last], p[last];
    PrefixIndices(sols, p, last);
    assert x in p;
    Unpush(sols, p, front, x);
    if i < last {
      PairWithout(sols, front, i);
      RowWithout(sols, front, i, x);
      WithoutLast(p, i);
      Unpush(sols, Without(p, i), Without(front, i), x);
      DistFacts(sols, p[i], x);
    } else {
      assert Without(p, i) == front;
    }
  }

  /** Distinct lists of the same indices. */
  ghost predicate SameIndices(sols: seq<Spins>, p: seq<nat>, q: seq<nat>) {
    Indices(sols, p) && Indices(sols, q) && Distinct(p) && Distinct(q) && forall x :: x in p <==> x in q
  }

  lemma SameLength(sols: seq<Spins>, p: seq<nat>, q: seq<nat>)
    requires SameIndices(sols, p, q)
    ensures |p| == |q|
  {
    DistinctCard(p);
    DistinctCard(q);
    assert Elements(p) == Elements(q);
  }

  lemma DropCommon(sols: seq<Spins>, p: seq<nat>, q: seq<nat>) returns (i: nat)
    requires SameIndices(sols, p, q) && q != []
    ensures i < |p| && p[i] == q[|q| - 1] && SameIndices(sols, Without(p, i), q[..|q| - 1])
  {
    var last := |q| - 1;
    assert q[last] in q;
    i :| 0 <= i < |p| && p[i] == q[last];
    WithoutFacts(sols, p, i);
    WithoutFacts(sols, q, last);
    assert Without(q, last) == q[..last];
  }

  lemma {:induction false} RowSumOrder(sols: seq<Spins>, p: seq<nat>, q: seq<nat>, x: nat)
    requires SameIndices(sols, p, q) && x < |sols|
    ensures RowSum(sols, p, x) == RowSum(sols, q, x)
    decreases |q|
  {
    SameLength(sols, p, q);
    if q != [] {
      var i := DropCommon(sols, p, q);
      RowWithout(sols, p, i, x);
      RowSumOrder(sols, Without(p, i), q[..|q| - 1], x);
    }
  }

  lemma {:induction false} PairSumOrder(sols: seq<Spins>, p: seq<nat>, q: seq<nat>)
    requires SameIndices(sols, p, q)
    ensures |p| == |q| && PairSum(sols, p) == PairSum(sols, q)
    decreases |q|
  {
    SameLength(sols, p, q);
    if q != [] {
      var i := DropCommon(sols, p, q);
      PairWithout(sols, p, i);
      PairSumOrder(sols, Without(p, i), q[..|q| - 1]);
      RowSumOrder(sols, Without(p, i), q[..|q| - 1], p[i]);
    }
  }

  // ---- the total of the mean ----

  /** The number of pairs among `n`. */
  ghost function Pairs(n: nat): nat {
    if n == 0 then 0 else Pairs(n - 1) + (n - 1)
  }

  lemma {:induction false} CountsPairs(n: nat, top: nat)
    requires top <= n
    ensures PairCount(n, top) + Pairs(n - top) == Pairs(n)
  {
    if top > 0 {
      CountsPairs(n, top - 1);
    }
  }

  lemma {:induction false} RowTotalPrefix(sols: seq<Spins>, short: seq<Spins>, i: nat, top: nat)
    requires i < |short| <= |sols| && top <= |short| && sols[..|short|] == short
    ensures RowTotal(sols, i, top) == RowTotal(short, i, top)
    decreases top
  {
    if top > i + 1 {
      RowTotalPrefix(sols, short, i, top - 1);
      assert sols[i] == short[i] && sols[top - 1] == short[top - 1];
    }
  }

  lemma {:induction false} TotalPush(sols: seq<Spins>, p: seq<nat>, top: nat)
    requires Indices(sols, p) && p != [] && top <= |p| - 1
    ensures Indices(sols, p[..|p| - 1]) && Indices(sols, p[..top]) && p[|p| - 1] in p
    ensures PairTotal(Picked(sols, p), top) == PairTotal(Picked(sols, p[..|p| - 1]), top) + RowSum(sols, p[..top], p[|p| - 1])
  {
    var last := |p| - 1;
    PrefixIndices(sols, p, last);
    PrefixIndices(sols, p, top);
    assert p[last] in p;
    if top > 0 {
      TotalPush(sols, p, top - 1);
      RowTotalPrefix(Picked(sols, p), Picked(sols, p[..last]), top - 1, last);
      assert RowTotal(Picked(sols, p), top - 1, |p|) == RowTotal(Picked(sols, p), top - 1, last) + Dist(Picked(sols, p), top - 1, last);
      assert p[..top][..top - 1] == p[..top - 1] && p[top - 1] in p;
    }
  }

  lemma {:induction false} TotalIsPairSum(sols: seq<Spins>, p: seq<nat>)
    requires Indices(sols, p)
    ensures PairTotal(Picked(sols, p), |p|) == PairSum(sols, p)
    decreases |p|
  {
    if p != [] {
      var last := |p| - 1;
      PrefixIndices(sols, p, last);
      TotalIsPairSum(sols, p[..last]);
      TotalPush(sols, p, last);
    }
  }

  // ---- the gate ----

  /** A mean of `total` over `pairs` pairs of the given width rounds to at least `d` milli. */
  ghost predicate Reaches(total: nat, d: nat, pairs: nat, width: nat) {
    2000 * total >= (2 * d - 1) * (pairs * width)
  }

  lemma RoundsUp(total: nat, n: nat, d: nat, product: nat)
    requires n > 0 && d >= 1 && product == d * n
    ensures (total * 1000 + n / 2) / n >= d <==> 2000 * total >= 2 * product - n
  {
    var q := (total * 1000 + n / 2) / n;
    Arith.DivModForm(total * 1000 + n / 2, n);
    if q >= d {
      Arith.MulMonotone(d, q, n);
    } else {
      Arith.MulMonotone(q + 1, d, n);
      Arith.MulNext(q, n);
    }
  }

  lemma MeanReaches(total: nat, d: nat, pairs: nat, width: nat)
    requires pairs * width > 0 && 1 <= d < U32
    ensures RoundedMean(total, pairs * width) >= d <==> Reaches(total, d, pairs, width)
  {
    var n := pairs * width;
    Arith.MulNonNegative(d, n);
    RoundsUp(total, n, d, d * n);
    TwiceLessOne(d, n);
  }

  lemma TwiceLessOne(d: int, n: int)
    ensures (2 * d - 1) * n == 2 * (d * n) - n
  {
  }

  ghost predicate OneWidth(sols: seq<Spins>, p: seq<nat>, width: nat) {
    Indices(sols, p) && width > 0 && forall x :: x in p ==> |sols[x]| == width
  }

  /** The diversity of at least two solutions of one width. */
  lemma DiversityIsMean(sols: seq<Spins>, p: seq<nat>, width: nat)
    requires OneWidth(sols, p, width) && |p| >= 2
    ensures Pairs(|p|) * width > 0
    ensures DiversityMilli(Picked(sols, p)) == RoundedMean(PairSum(sols, p), Pairs(|p|) * width)
  {
    var s := Picked(sols, p);
    assert forall i :: 0 <= i < |p| ==> p[i] in p;
    assert HasMean(s) && |s[0]| == width;
    TotalIsPairSum(sols, p);
    CountsPairs(|p|, |p|);
    PairCountPositive(|p|, |p|);
    MulPositive(PairCount(|p|, |p|), width);
  }

  /** Which totals pass the gate. */
  lemma ReachesExactly(sols: seq<Spins>, p: seq<nat>, width: nat, d: nat)
    requires OneWidth(sols, p, width) && |p| >= 2 && 1 <= d < U32
    ensures DiversityMilli(Picked(sols, p)) >= d <==> Reaches(PairSum(sols, p), d, Pairs(|p|), width)
  {
    DiversityIsMean(sols, p, width);
    MeanReaches(PairSum(sols, p), d, Pairs(|p|), width);
  }
}

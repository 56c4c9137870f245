/** Greedy dispersion: farthest-point selection over the flip-invariant distance. */
module Diversity {
  import opened Arith
  import opened Common
  import opened Machine
  import opened Scoring

  ghost predicate EqualWidths(sols: seq<Spins>) {
    forall i, j :: 0 <= i < |sols| && 0 <= j < |sols| ==> |sols[i]| == |sols[j]|
  }

  function Dist(sols: seq<Spins>, i: nat, j: nat): nat
    requires i < |sols| && j < |sols|
  {
    HammingFlipInvariant(sols[i], sols[j])
  }

  lemma DistFacts(sols: seq<Spins>, i: nat, j: nat)
    requires i < |sols| && j < |sols|
    ensures Dist(sols, i, j) == Dist(sols, j, i) && Dist(sols, i, i) == 0
  {
    HammingSymmetric(sols[i], sols[j]);
    HammingToSelf(sols[i]);
  }

  /** The symmetric matrix, with zeros on the diagonal. */
  ghost predicate MatrixOf(sols: seq<Spins>, dist: array2<nat>)
    reads dist
  {
    && dist.Length0 == dist.Length1 == |sols|
    && forall i, j :: 0 <= i < |sols| && 0 <= j < |sols| ==> dist[i, j] == Dist(sols, i, j)
  }

  method PairwiseDistances(sols: seq<Spins>) returns (dist: array2<nat>)
    ensures fresh(dist) && MatrixOf(sols, dist)
  {
    var n := |sols|;
    dist := new nat[n, n]((i, j) => 0);
    for i := 0 to n
      invariant forall p, q :: 0 <= p < n && 0 <= q < n && (p < i || q < i) ==> dist[p, q] == Dist(sols, p, q)
      invariant forall p, q :: i <= p < n && i <= q < n ==> dist[p, q] == 0
    {
      for j := i + 1 to n
        invariant forall p, q :: 0 <= p < n && 0 <= q < n && (p < i || q < i) ==> dist[p, q] == Dist(sols, p, q)
        invariant forall q :: i < q < j ==> dist[i, q] == Dist(sols, i, q) && dist[q, i] == Dist(sols, q, i)
        invariant dist[i, i] == 0 && forall q :: j <= q < n ==> dist[i, q] == 0 && dist[q, i] == 0
        invariant forall p, q :: i < p < n && i < q < n ==> dist[p, q] == 0
      {
        DistFacts(sols, i, j);
        var d := HammingFlipInvariant(sols[i], sols[j]);
        dist[i, j] := d;
        dist[j, i] := d;
      }
      DistFacts(sols, i, i);
    }
  }

  /** The pair (a, b) comes before (c, d) in reading order. */
  predicate PairBefore(a: nat, b: nat, c: nat, d: nat) {
    a < c || (a == c && b < d)
  }

  /** The first pair, in reading order, of largest distance. */
  ghost predicate MostDistant(sols: seq<Spins>, a: nat, b: nat) {
    && a < b < |sols|
    && (forall i, j :: 0 <= i < j < |sols| ==> Dist(sols, i, j) <= Dist(sols, a, b))
    && forall i, j :: 0 <= i < j < |sols| && PairBefore(i, j, a, b) ==> Dist(sols, i, j) < Dist(sols, a, b)
  }

  method MostDistantPair(sols: seq<Spins>, dist: array2<nat>) returns (a: nat, b: nat)
    requires MatrixOf(sols, dist) && |sols| >= 2
    ensures MostDistant(sols, a, b)
  {
    a, b := 0, 1;
    var best := dist[0, 1];
    for i := 0 to |sols|
      invariant a < b < |sols| && best == Dist(sols, a, b) && (a < i || (a, b) == (0, 1))
      invariant forall p, q :: 0 <= p < q < |sols| && p < i ==> Dist(sols, p, q) <= best
      invariant forall p, q :: 0 <= p < q < |sols| && PairBefore(p, q, a, b) ==> Dist(sols, p, q) < best
    {
      for j := i + 1 to |sols|
        invariant a < b < |sols| && best == Dist(sols, a, b) && (PairBefore(a, b, i, j) || (a, b) == (0, 1))
        invariant forall p, q :: 0 <= p < q < |sols| && PairBefore(p, q, i, j) ==> Dist(sols, p, q) <= best
        invariant forall p, q :: 0 <= p < q < |sols| && PairBefore(p, q, a, b) ==> Dist(sols, p, q) < best
      {
        if dist[i, j] > best {
          a, b, best := i, j, dist[i, j];
        }
      }
    }
  }

  // ---- greedy order ----

  ghost predicate Indices(sols: seq<Spins>, s: seq<nat>) {
    forall x :: x in s ==> x < |sols|
  }

  /** The solutions at the given indices. */
  function Picked(sols: seq<Spins>, p: seq<nat>): (s: seq<Spins>)
    requires Indices(sols, p)
    ensures |s| == |p|
  {
    seq(|p|, i requires 0 <= i < |p| => assert p[i] in p; sols[p[i]])
  }

  /** The distance from a candidate to the nearest selected solution. */
  ghost function NearestDist(sols: seq<Spins>, selected: seq<nat>, c: nat): nat
    requires selected != [] && Indices(sols, selected) && c < |sols|
  {
    var last := |selected| - 1;
    assert selected[last] in selected && forall x :: x in selected[..last] ==> x in selected;
    if last == 0 then Dist(sols, c, selected[0])
    else Min(NearestDist(sols, selected[..last], c), Dist(sols, c, selected[last]))
  }

  lemma {:induction false} NearestIsLeast(sols: seq<Spins>, selected: seq<nat>, c: nat)
    requires selected != [] && Indices(sols, selected) && c < |sols|
    ensures forall s :: s in selected ==> NearestDist(sols, selected, c) <= Dist(sols, c, s)
    ensures exists s :: s in selected && NearestDist(sols, selected, c) == Dist(sols, c, s)
  {
    var last := |selected| - 1;
    assert selected[last] in selected && forall x :: x in selected[..last] ==> x in selected;
    if last > 0 {
      NearestIsLeast(sols, selected[..last], c);
      assert selected == selected[..last] + [selected[last]];
    }
  }

  lemma NearestPush(sols: seq<Spins>, selected: seq<nat>, x: nat, c: nat)
    requires selected != [] && Indices(sols, selected) && x < |sols| && c < |sols|
    ensures Indices(sols, selected + [x])
    ensures NearestDist(sols, selected + [x], c) == Min(NearestDist(sols, selected, c), Dist(sols, c, x))
  {
    assert (selected + [x])[..|selected|] == selected;
  }

  /** `x` is the first unselected solution farthest from the selected ones. */
  ghost predicate FarthestPick(sols: seq<Spins>, selected: seq<nat>, x: nat)
    requires selected != [] && Indices(sols, selected)
  {
    && x < |sols| && x !in selected
    && (forall c: nat :: c < |sols| && c !in selected ==> NearestDist(sols, selected, c) <= NearestDist(sols, selected, x))
    && forall c: nat :: c < x && c !in selected ==> NearestDist(sols, selected, c) < NearestDist(sols, selected, x)
  }

  /** The order the greedy rule prescribes: the most distant pair, then one farthest pick after another. */
  ghost predicate GreedyOrder(sols: seq<Spins>, selected: seq<nat>) {
    && |selected| >= 2 && Indices(sols, selected) && Distinct(selected)
    && MostDistant(sols, selected[0], selected[1])
    && forall k :: 2 <= k < |selected| ==> PickAt(sols, selected, k)
  }

  ghost predicate PickAt(sols: seq<Spins>, selected: seq<nat>, k: nat)
    requires 2 <= k < |selected| && Indices(sols, selected)
  {
    assert forall x :: x in selected[..k] ==> x in selected;
    FarthestPick(sols, selected[..k], selected[k])
  }

  /** The incremental table: right for every unselected candidate. */
  ghost predicate TableOf(sols: seq<Spins>, selected: seq<nat>, chosen: seq<bool>, minDist: seq<nat>) {
    && selected != [] && Indices(sols, selected)
    && |chosen| == |minDist| == |sols|
    && (forall c: nat :: c < |sols| ==> (chosen[c] <==> c in selected))
    && forall c: nat :: c < |sols| && !chosen[c] ==> minDist[c] == NearestDist(sols, selected, c)
  }

  method Farthest(sols: seq<Spins>, ghost selected: seq<nat>, chosen: array<bool>, minDist: array<nat>) returns (pick: Option<nat>)
    requires TableOf(sols, selected, chosen[..], minDist[..])
    ensures pick.Some? ==> FarthestPick(sols, selected, pick.value)
    ensures pick.None? ==> forall c: nat :: c < |sols| ==> c in selected
  {
    pick := None;
    var pickDist := 0;
    for c := 0 to chosen.Length
      invariant pick.None? ==> forall x: nat :: x < c ==> x in selected
      invariant pick.Some? ==> pick.value < c && pick.value !in selected && pickDist == NearestDist(sols, selected, pick.value)
      invariant pick.Some? ==> forall x: nat :: x < c && x !in selected ==> NearestDist(sols, selected, x) <= pickDist
      invariant pick.Some? ==> forall x: nat :: x < pick.value && x !in selected ==> NearestDist(sols, selected, x) < pickDist
    {
      assert chosen[..][c] == chosen[c] && minDist[..][c] == minDist[c];
      if chosen[c] {
        continue;
      }
      if pick.None? || minDist[c] > pickDist {
        pick := Some(c);
        pickDist := minDist[c];
      }
    }
  }

  // ---- the factor two ----

  /** Every two of the rival solutions are at least `m` apart. */
  ghost predicate Spaced(sols: seq<Spins>, rival: set<nat>, m: nat) {
    && (forall x :: x in rival ==> x < |sols|)
    && forall x, y :: x in rival && y in rival && x != y ==> Dist(sols, x, y) >= m
  }

  ghost predicate NarrowSet(sols: seq<Spins>) {
    EqualWidths(sols) && forall i :: 0 <= i < |sols| ==> Narrow(|sols[i]|)
  }

  /** A selected solution less than half of `m` away. */
  ghost predicate Covers(sols: seq<Spins>, s: nat, p: nat, m: nat) {
    s < |sols| && p < |sols| && 2 * Dist(sols, p, s) < m
  }

  lemma CoversOnce(sols: seq<Spins>, s: nat, p: nat, q: nat, m: nat)
    requires NarrowSet(sols) && Covers(sols, s, p, m) && Covers(sols, s, q, m)
    ensures Dist(sols, p, q) < m
  {
    HammingTriangle(sols[p], sols[s], sols[q]);
    DistFacts(sols, q, s);
  }

  ghost function CoverOf(sols: seq<Spins>, selected: seq<nat>, p: nat, m: nat): (s: nat)
    requires exists s :: s in selected && Covers(sols, s, p, m)
    ensures s in selected && Covers(sols, s, p, m)
  {
    var s :| s in selected && Covers(sols, s, p, m);
    s
  }

  /** With more rivals than selected solutions, one rival is at least `m / 2` from all the selected. */
  lemma UncoveredRival(sols: seq<Spins>, selected: seq<nat>, rival: set<nat>, m: nat) returns (p: nat)
    requires NarrowSet(sols) && Indices(sols, selected) && Distinct(selected)
    requires Spaced(sols, rival, m) && |selected| < |rival|
    ensures p in rival && forall s :: s in selected ==> 2 * Dist(sols, p, s) >= m
  {
    if forall p :: p in rival ==> exists s :: s in selected && Covers(sols, s, p, m) {
      forall p, q | p in rival && q in rival && CoverOf(sols, selected, p, m) == CoverOf(sols, selected, q, m) ensures p == q {
        CoversOnce(sols, CoverOf(sols, selected, p, m), p, q, m);
      }
      InjectionBound(rival, Elements(selected),
        (p: nat) requires exists s :: s in selected && Covers(sols, s, p, m) => CoverOf(sols, selected, p, m));
      DistinctCard(selected);
      assert false;
    }
    p :| p in rival && forall s :: s in selected ==> !Covers(sols, s, p, m);
  }

  /** The next pick keeps at least half the rival spacing from everything selected before. */
  lemma PickKeepsHalf(sols: seq<Spins>, selected: seq<nat>, x: nat, rival: set<nat>, m: nat)
    requires NarrowSet(sols) && selected != [] && Indices(sols, selected) && Distinct(selected)
    requires FarthestPick(sols, selected, x) && Spaced(sols, rival, m) && |selected| < |rival|
    ensures forall s :: s in selected ==> 2 * Dist(sols, x, s) >= m
  {
    var p := UncoveredRival(sols, selected, rival, m);
    NearestIsLeast(sols, selected, x);
    if p in selected {
      DistFacts(sols, p, p);
    } else {
      NearestIsLeast(sols, selected, p);
    }
  }

  lemma TwoOf(rival: set<nat>) returns (x: nat, y: nat)
    requires |rival| >= 2
    ensures x in rival && y in rival && x < y
  {
    var a :| a in rival;
    assert |rival - {a}| >= 1;
    var b :| b in rival - {a};
    x, y := if a < b then a else b, if a < b then b else a;
  }

  /** Every two selected solutions are at least half as far apart as the closest two of any rival set of the same size. */
  lemma HalfOfOptimal(sols: seq<Spins>, selected: seq<nat>, rival: set<nat>, m: nat, i: nat, j: nat)
    requires NarrowSet(sols) && GreedyOrder(sols, selected)
    requires Spaced(sols, rival, m) && |rival| == |selected| && i < j < |selected|
    ensures selected[i] < |sols| && selected[j] < |sols| && 2 * Dist(sols, selected[i], selected[j]) >= m
  {
    assert selected[i] in selected && selected[j] in selected;
    DistFacts(sols, selected[i], selected[j]);
    if j == 1 {
      var x, y := TwoOf(rival);
      assert Dist(sols, x, y) <= Dist(sols, selected[0], selected[1]);
    } else {
      assert PickAt(sols, selected, j);
      assert forall x :: x in selected[..j] ==> x in selected;
      PickKeepsHalf(sols, selected[..j], selected[j], rival, m);
      assert selected[..j][i] in selected[..j];
    }
  }

  // ---- the method ----

  lemma GreedyPush(sols: seq<Spins>, selected: seq<nat>, x: nat)
    requires GreedyOrder(sols, selected) && FarthestPick(sols, selected, x)
    ensures GreedyOrder(sols, selected + [x])
  {
    var more := selected + [x];
    assert forall y :: y in more <==> y in selected || y == x;
    forall k | 2 <= k < |more| ensures PickAt(sols, more, k) {
      if k < |selected| {
        assert PickAt(sols, selected, k);
        assert more[..k] == selected[..k];
      } else {
        assert more[..k] == selected;
      }
    }
  }

  lemma SomeUnselected(sols: seq<Spins>, selected: seq<nat>)
    requires Distinct(selected) && Indices(sols, selected) && |selected| < |sols|
    ensures exists c: nat :: c < |sols| && c !in selected
  {
    if forall c: nat :: c < |sols| ==> c in selected {
      DistinctCard(selected);
      SubsetCard(Below(|sols|), Elements(selected));
    }
  }

  method InitialTable(sols: seq<Spins>, dist: array2<nat>, a: nat, b: nat) returns (chosen: array<bool>, minDist: array<nat>)
    requires MatrixOf(sols, dist) && a < b < |sols|
    ensures fresh(chosen) && fresh(minDist) && TableOf(sols, [a, b], chosen[..], minDist[..])
  {
    chosen := new bool[|sols|](i => i == a || i == b);
    minDist := new nat[|sols|](i => 0);
    for c := 0 to |sols|
      invariant forall x: nat :: x < |sols| ==> chosen[x] == (x == a || x == b)
      invariant forall x: nat :: x < c ==> minDist[x] == Min(Dist(sols, x, a), Dist(sols, x, b))
    {
      minDist[c] := Min(dist[c, a], dist[c, b]);
    }
    forall c: nat | c < |sols| ensures minDist[c] == NearestDist(sols, [a, b], c) {
      NearestPush(sols, [a], b, c);
      assert [a] + [b] == [a, b];
    }
  }

  /** Mark the new pick and lower the table entries of the others. */
  method Admit(sols: seq<Spins>, dist: array2<nat>, ghost selected: seq<nat>, x: nat, chosen: array<bool>, minDist: array<nat>)
    requires MatrixOf(sols, dist) && TableOf(sols, selected, chosen[..], minDist[..]) && x < |sols|
    modifies chosen, minDist
    ensures TableOf(sols, selected + [x], chosen[..], minDist[..])
  {
    ghost var was := minDist[..];
    chosen[x] := true;
    for c := 0 to |sols|
      invariant forall i: nat :: i < |sols| ==> (chosen[i] <==> i in selected || i == x)
      invariant forall i: nat :: c <= i < |sols| ==> minDist[i] == was[i]
      invariant forall i: nat :: i < c && !chosen[i] ==> minDist[i] == Min(was[i], Dist(sols, i, x))
    {
      if !chosen[c] {
        minDist[c] := Min(minDist[c], dist[c, x]);
      }
    }
    forall c: nat | c < |sols| && !chosen[c] ensures minDist[c] == NearestDist(sols, selected + [x], c) {
      NearestPush(sols, selected, x, c);
    }
  }

  ghost predicate FactorTwo(sols: seq<Spins>, selected: seq<nat>) {
    Indices(sols, selected) &&
    forall rival, m, i, j :: Spaced(sols, rival, m) && |rival| == |selected| && 0 <= i < j < |selected| ==>
      selected[i] < |sols| && selected[j] < |sols| && 2 * Dist(sols, selected[i], selected[j]) >= m
  }

  /** What each branch selects: nothing, everything, the first solution, or the greedy order. */
  ghost predicate IsSelection(sols: seq<Spins>, target: nat, selected: seq<nat>) {
    && |selected| == Min(|sols|, target) && Distinct(selected) && Indices(sols, selected)
    && (|sols| <= target ==> forall i: nat :: i < |sols| ==> selected[i] == i)
    && (target == 1 && |sols| > 0 ==> selected == [0])
    && (2 <= target < |sols| ==> GreedyOrder(sols, selected))
  }

  lemma MostDistantUnique(sols: seq<Spins>, a: nat, b: nat, c: nat, d: nat)
    requires MostDistant(sols, a, b) && MostDistant(sols, c, d)
    ensures a == c && b == d
  {
    assert Dist(sols, a, b) <= Dist(sols, c, d) <= Dist(sols, a, b);
    assert !PairBefore(a, b, c, d) && !PairBefore(c, d, a, b);
  }

  lemma {:induction false} GreedyUnique(sols: seq<Spins>, s: seq<nat>, t: seq<nat>, k: nat)
    requires GreedyOrder(sols, s) && GreedyOrder(sols, t) && |s| == |t| && k <= |s|
    ensures s[..k] == t[..k]
  {
    if k == 1 || k == 2 {
      MostDistantUnique(sols, s[0], s[1], t[0], t[1]);
    } else if k > 2 {
      GreedyUnique(sols, s, t, k - 1);
      assert PickAt(sols, s, k - 1) && PickAt(sols, t, k - 1);
      assert s[..k] == s[..k - 1] + [s[k - 1]] && t[..k] == t[..k - 1] + [t[k - 1]];
    }
  }

  /** The rule leaves no choice: any two selections are the same list. */
  lemma SelectionUnique(sols: seq<Spins>, target: nat, s: seq<nat>, t: seq<nat>)
    requires IsSelection(sols, target, s) && IsSelection(sols, target, t)
    ensures s == t
  {
    if 2 <= target < |sols| {
      GreedyUnique(sols, s, t, |s|);
      assert s[..|s|] == s && t[..|t|] == t;
    }
  }

  method SelectDiverse(sols: seq<Spins>, target: nat) returns (selected: seq<nat>)
    ensures IsSelection(sols, target, selected)
    ensures 2 <= target < |sols| && NarrowSet(sols) ==> FactorTwo(sols, selected)
  {
    var n := |sols|;
    if n == 0 || target == 0 {
      return [];
    }
    if n <= target {
      return seq(n, i => i);
    }
    if target == 1 {
      return [0];
    }
    var dist := PairwiseDistances(sols);
    var a, b := MostDistantPair(sols, dist);
    selected := [a, b];
    var chosen, minDist := InitialTable(sols, dist, a, b);
    while |selected| < target
      invariant |selected| <= target && GreedyOrder(sols, selected)
      invariant MatrixOf(sols, dist) && TableOf(sols, selected, chosen[..], minDist[..])
      invariant fresh(chosen) && fresh(minDist) && fresh(dist)
    {
      SomeUnselected(sols, selected);
      var pick := Farthest(sols, selected, chosen, minDist);
      GreedyPush(sols, selected, pick.value);
      Admit(sols, dist, selected, pick.value, chosen, minDist);
      selected := selected + [pick.value];
    }
    if NarrowSet(sols) {
      forall rival, m, i, j | Spaced(sols, rival, m) && |rival| == |selected| && 0 <= i < j < |selected|
        ensures selected[i] < |sols| && selected[j] < |sols| && 2 * Dist(sols, selected[i], selected[j]) >= m
      {
        HalfOfOptimal(sols, selected, rival, m, i, j);
      }
    }
  }

  // ---- diversity ----

  ghost function RowTotal(sols: seq<Spins>, i: nat, top: nat): nat
    requires i < |sols| && top <= |sols|
    decreases top
  {
    if top <= i + 1 then 0 else RowTotal(sols, i, top - 1) + Dist(sols, i, top - 1)
  }

  /** The distances of all pairs whose first member is below `top`. */
  ghost function PairTotal(sols: seq<Spins>, top: nat): nat
    requires top <= |sols|
  {
    if top == 0 then 0 else PairTotal(sols, top - 1) + RowTotal(sols, top - 1, |sols|)
  }

  /** The number of pairs whose first member is below `top`, among `n`. */
  ghost function PairCount(n: nat, top: nat): nat
    requires top <= n
  {
    if top == 0 then 0 else PairCount(n, top - 1) + (n - top)
  }

  lemma {:induction false} PairCountPositive(n: nat, top: nat)
    requires 1 <= top <= n && n >= 2
    ensures PairCount(n, top) > 0
  {
    if top > 1 {
      PairCountPositive(n, top - 1);
    } else {
      assert PairCount(n, 1) == PairCount(n, 0) + (n - 1);
    }
  }

  ghost predicate HasMean(sols: seq<Spins>) {
    |sols| >= 2 && |sols[0]| > 0 && EqualWidths(sols)
  }

  function RoundedMean(total: nat, denominator: nat): nat
    requires denominator > 0
  {
    Min((total * 1000 + denominator / 2) / denominator, U32 - 1)
  }

  /** Mean pairwise distance over the width in milli, rounded half up; 0 for a set without a mean. */
  ghost function DiversityMilli(sols: seq<Spins>): nat {
    if !HasMean(sols) then 0
    else
      PairCountPositive(|sols|, |sols|);
      MulPositive(PairCount(|sols|, |sols|), |sols[0]|);
      RoundedMean(PairTotal(sols, |sols|), PairCount(|sols|, |sols|) * |sols[0]|)
  }

  lemma MulPositive(x: nat, y: nat)
    requires x > 0 && y > 0
    ensures x * y > 0
  {
  }

  method DiversityOf(sols: seq<Spins>) returns (d: nat)
    ensures d == DiversityMilli(sols)
  {
    if |sols| < 2 || |sols[0]| == 0 || exists s :: s in sols && |s| != |sols[0]| {
      assert !HasMean(sols);
      return 0;
    }
    assert forall i :: 0 <= i < |sols| ==> sols[i] in sols;
    var total, pairs := 0, 0;
    for i := 0 to |sols|
      invariant total == PairTotal(sols, i) && pairs == PairCount(|sols|, i)
    {
      for j := i + 1 to |sols|
        invariant total == PairTotal(sols, i) + RowTotal(sols, i, j)
        invariant pairs == PairCount(|sols|, i) + (j - (i + 1))
      {
        total := total + HammingFlipInvariant(sols[i], sols[j]);
        pairs := pairs + 1;
      }
    }
    PairCountPositive(|sols|, |sols|);
    MulPositive(pairs, |sols[0]|);
    d := RoundedMean(total, pairs * |sols[0]|);
  }

  lemma {:induction false} RowAtMostHalf(sols: seq<Spins>, i: nat, top: nat, width: nat)
    requires i < |sols| && i < top <= |sols| && forall k :: 0 <= k < |sols| ==> |sols[k]| == width
    ensures 2 * RowTotal(sols, i, top) <= (top - i - 1) * width
  {
    if top > i + 1 {
      RowAtMostHalf(sols, i, top - 1, width);
      HammingAtMostHalf(sols[i], sols[top - 1]);
      assert (top - i - 1) * width == (top - 1 - i - 1) * width + width;
    }
  }

  lemma {:induction false} TotalAtMostHalf(sols: seq<Spins>, top: nat, width: nat)
    requires top <= |sols| && forall k :: 0 <= k < |sols| ==> |sols[k]| == width
    ensures 2 * PairTotal(sols, top) <= PairCount(|sols|, top) * width
  {
    if top > 0 {
      TotalAtMostHalf(sols, top - 1, width);
      RowAtMostHalf(sols, top - 1, |sols|, width);
      Regroup(PairCount(|sols|, top - 1), |sols| - top, width);
    }
  }

  lemma Regroup(x: int, y: int, z: int)
    ensures (x + y) * z == x * z + y * z
  {
  }

  lemma MeanAtMost(total: nat, d: nat)
    requires d > 0 && 2 * total <= d
    ensures RoundedMean(total, d) <= 500
  {
    QuotientBound(total * 1000 + d / 2, d, 501);
  }

  /** No set is more than 500 milli diverse: a folded distance is at most half the width. */
  lemma DiversityAtMostHalf(sols: seq<Spins>)
    ensures DiversityMilli(sols) <= 500
  {
    if HasMean(sols) {
      TotalAtMostHalf(sols, |sols|, |sols[0]|);
      PairCountPositive(|sols|, |sols|);
      MulPositive(PairCount(|sols|, |sols|), |sols[0]|);
      MeanAtMost(PairTotal(sols, |sols|), PairCount(|sols|, |sols|) * |sols[0]|);
    }
  }

  /** No step of the mean leaves 64 bits while 501 times the number of pairs times the width stays within them. */
  lemma MeanFits(sols: seq<Spins>)
    requires HasMean(sols) && 501 * (PairCount(|sols|, |sols|) * |sols[0]|) < U64
    ensures PairTotal(sols, |sols|) * 1000 + PairCount(|sols|, |sols|) * |sols[0]| / 2 < U64
  {
    TotalAtMostHalf(sols, |sols|, |sols[0]|);
  }
}

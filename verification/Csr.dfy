/** The compressed sparse rows of a model: every coupling once for each of its two ends. */
module Csr {
  import opened Energy
  import opened Machine

  /** A neighbour and the coupling to it. */
  datatype Half = Half(nbr: nat, coup: int)

  /** An edge between two different nodes of the model; a missing coupling is zero. */
  predicate Joins(m: Model, k: nat)
    requires k < |m.edges|
  {
    m.edges[k].u < |m.h| && m.edges[k].v < |m.h| && m.edges[k].u != m.edges[k].v
  }

  function Coupling(m: Model, k: nat): int {
    if k < |m.j| then m.j[k] else 0
  }

  /** What edge `k` puts into row `i`. */
  function HalfOf(m: Model, i: nat, k: nat): seq<Half>
    requires k < |m.edges|
  {
    if !Joins(m, k) then []
    else if m.edges[k].u == i then [Half(m.edges[k].v, Coupling(m, k))]
    else if m.edges[k].v == i then [Half(m.edges[k].u, Coupling(m, k))]
    else []
  }

  /** Row `i` after the first `k` edges, in edge order. */
  function Pushed(m: Model, i: nat, k: nat): seq<Half>
    requires k <= |m.edges|
  {
    if k == 0 then [] else Pushed(m, i, k - 1) + HalfOf(m, i, k - 1)
  }

  // ---- the stable sort ----

  function InsertHalf(x: Half, row: seq<Half>): seq<Half> {
    if row == [] || x.nbr <= row[0].nbr then [x] + row else [row[0]] + InsertHalf(x, row[1..])
  }

  function SortedRow(row: seq<Half>): seq<Half> {
    if row == [] then [] else InsertHalf(row[0], SortedRow(row[1..]))
  }

  ghost predicate ByNeighbour(row: seq<Half>) {
    forall i, j :: 0 <= i < j < |row| ==> row[i].nbr <= row[j].nbr
  }

  /** The entries of one neighbour, in order. */
  function Only(row: seq<Half>, nbr: nat): seq<Half> {
    if row == [] then []
    else (if row[0].nbr == nbr then [row[0]] else []) + Only(row[1..], nbr)
  }

  lemma {:induction false} InsertKeepsEntries(x: Half, row: seq<Half>)
    ensures multiset(InsertHalf(x, row)) == multiset(row) + multiset{x}
    ensures forall y :: y in InsertHalf(x, row) ==> y == x || y in row
    decreases row
  {
    if row != [] {
      assert row == [row[0]] + row[1..];
      if x.nbr > row[0].nbr {
        InsertKeepsEntries(x, row[1..]);
      }
    }
  }

  lemma {:induction false} InsertKeepsOrder(x: Half, row: seq<Half>)
    requires ByNeighbour(row)
    ensures ByNeighbour(InsertHalf(x, row))
    decreases row
  {
    if row != [] && x.nbr > row[0].nbr {
      var rest := InsertHalf(x, row[1..]);
      InsertKeepsOrder(x, row[1..]);
      InsertKeepsEntries(x, row[1..]);
      forall y | y in rest
        ensures row[0].nbr <= y.nbr
      {
        assert y == x || y in row[1..];
      }
      LeastFirst(row[0], rest);
    }
  }

  lemma LeastFirst(x: Half, rest: seq<Half>)
    requires ByNeighbour(rest) && forall y :: y in rest ==> x.nbr <= y.nbr
    ensures ByNeighbour([x] + rest)
  {
    var row := [x] + rest;
    assert forall j :: 0 < j < |row| ==> row[j] == rest[j - 1] && row[j] in rest;
  }

  lemma {:induction false} InsertIsStable(x: Half, row: seq<Half>, nbr: nat)
    ensures Only(InsertHalf(x, row), nbr) == Only([x] + row, nbr)
    decreases row
  {
    assert ([x] + row)[1..] == row;
    if row != [] && x.nbr > row[0].nbr {
      var rest := row[1..];
      InsertIsStable(x, rest, nbr);
      assert ([x] + rest)[1..] == rest;
      assert ([row[0]] + InsertHalf(x, rest))[1..] == InsertHalf(x, rest);
    }
  }

  lemma {:induction false} SortKeeps(row: seq<Half>)
    ensures ByNeighbour(SortedRow(row)) && multiset(SortedRow(row)) == multiset(row)
    decreases row
  {
    if row != [] {
      SortKeeps(row[1..]);
      InsertKeepsOrder(row[0], SortedRow(row[1..]));
      InsertKeepsEntries(row[0], SortedRow(row[1..]));
      assert row == [row[0]] + row[1..];
    }
  }

  lemma {:induction false} SortKeepsOnly(row: seq<Half>, nbr: nat)
    ensures Only(SortedRow(row), nbr) == Only(row, nbr)
    decreases row
  {
    if row != [] {
      SortKeepsOnly(row[1..], nbr);
      InsertIsStable(row[0], SortedRow(row[1..]), nbr);
      assert ([row[0]] + SortedRow(row[1..]))[1..] == SortedRow(row[1..]);
    }
  }

  /** Sorting orders a row by neighbour, keeps its entries, and keeps the order of parallel couplings. */
  lemma SortIsStable(row: seq<Half>, nbr: nat)
    ensures ByNeighbour(SortedRow(row)) && multiset(SortedRow(row)) == multiset(row)
    ensures Only(SortedRow(row), nbr) == Only(row, nbr)
  {
    SortKeeps(row);
    SortKeepsOnly(row, nbr);
  }

  // ---- the local field ----

  /** The couplings of a row weighted by the signs of the neighbours. */
  function Local(row: seq<Half>, spins: seq<int>): int {
    if row == [] then 0
    else (if row[0].nbr < |spins| then row[0].coup * Sign(spins[row[0].nbr]) else 0) + Local(row[1..], spins)
  }

  lemma {:induction false} LocalJoins(a: seq<Half>, b: seq<Half>, spins: seq<int>)
    ensures Local(a + b, spins) == Local(a, spins) + Local(b, spins)
    decreases a
  {
    if a == [] {
      assert a + b == b;
    } else {
      assert (a + b)[1..] == a[1..] + b;
      LocalJoins(a[1..], b, spins);
    }
  }

  lemma {:induction false} LocalOfInserted(x: Half, row: seq<Half>, spins: seq<int>)
    ensures Local(InsertHalf(x, row), spins) == Local([x], spins) + Local(row, spins)
    decreases row
  {
    if row == [] || x.nbr <= row[0].nbr {
      LocalJoins([x], row, spins);
    } else {
      LocalOfInserted(x, row[1..], spins);
      LocalJoins([row[0]], InsertHalf(x, row[1..]), spins);
      LocalJoins([row[0]], row[1..], spins);
      assert row == [row[0]] + row[1..];
    }
  }

  lemma {:induction false} LocalOfSorted(row: seq<Half>, spins: seq<int>)
    ensures Local(SortedRow(row), spins) == Local(row, spins)
    decreases row
  {
    if row != [] {
      LocalOfSorted(row[1..], spins);
      LocalOfInserted(row[0], SortedRow(row[1..]), spins);
      LocalJoins([row[0]], row[1..], spins);
      assert row == [row[0]] + row[1..];
    }
  }

  // ---- one flip ----

  function Flipped(spins: seq<int>, i: nat): seq<int>
    requires i < |spins|
  {
    spins[i := -Sign(spins[i])]
  }

  lemma FlippedSigns(spins: seq<int>, i: nat, k: nat)
    requires i < |spins| && k < |spins|
    ensures Sign(Flipped(spins, i)[k]) == if k == i then -Sign(spins[k]) else Sign(spins[k])
  {
  }

  lemma {:induction false} FieldsAfterFlip(h: seq<i32>, spins: seq<int>, i: nat, k: nat)
    requires i < |h| == |spins| && k <= |h|
    ensures FieldSum(h, Flipped(spins, i), k)
         == FieldSum(h, spins, k) - (if i < k then 2 * (Sign(spins[i]) * h[i]) else 0)
    decreases k
  {
    if k > 0 {
      FieldsAfterFlip(h, spins, i, k - 1);
      FlippedSigns(spins, i, k - 1);
      Negated(h[k - 1], Sign(spins[k - 1]), 1);
    }
  }

  lemma Negated(c: int, a: int, b: int)
    ensures c * -a * b == c * a * b - 2 * (a * (c * b))
    ensures c * b * -a == c * b * a - 2 * (a * (c * b))
  {
  }

  lemma TwoNegated(c: int, a: int)
    ensures c * -a * -a == c * a * a
  {
  }

  lemma LocalOfOne(x: Half, spins: seq<int>)
    requires x.nbr < |spins|
    ensures Local([x], spins) == x.coup * Sign(spins[x.nbr])
  {
  }

  /** Flipping a spin changes an edge by what the edge puts into its row. */
  lemma EdgeAfterFlip(m: Model, spins: seq<int>, i: nat, k: nat)
    requires i < |m.h| == |spins| && k < |m.edges|
    ensures EdgeTerm(m, Flipped(spins, i), k) == EdgeTerm(m, spins, k) - 2 * (Sign(spins[i]) * Local(HalfOf(m, i, k), spins))
  {
    var e := m.edges[k];
    if e.u < |spins| && e.v < |spins| {
      FlippedSigns(spins, i, e.u);
      FlippedSigns(spins, i, e.v);
      var c, a, b := Coupling(m, k), Sign(spins[e.u]), Sign(spins[e.v]);
      Negated(c, a, b);
      Negated(c, b, a);
      TwoNegated(c, a);
      if e.u != e.v && (e.u == i || e.v == i) {
        LocalOfOne(HalfOf(m, i, k)[0], spins);
      }
    }
  }

  lemma {:induction false} EdgesAfterFlip(m: Model, spins: seq<int>, i: nat, k: nat)
    requires i < |m.h| == |spins| && k <= |m.edges|
    ensures EdgeSum(m, Flipped(spins, i), k) == EdgeSum(m, spins, k) - 2 * (Sign(spins[i]) * Local(Pushed(m, i, k), spins))
    decreases k
  {
    if k > 0 {
      var before, one := Local(Pushed(m, i, k - 1), spins), Local(HalfOf(m, i, k - 1), spins);
      EdgesAfterFlip(m, spins, i, k - 1);
      EdgeAfterFlip(m, spins, i, k - 1);
      assert Local(Pushed(m, i, k), spins) == before + one by {
        LocalJoins(Pushed(m, i, k - 1), HalfOf(m, i, k - 1), spins);
      }
      DropsAdd(EdgeSum(m, spins, k - 1), EdgeTerm(m, spins, k - 1), Sign(spins[i]), before, one);
    }
  }

  lemma DropsAdd(sum: int, term: int, s: int, a: int, b: int)
    ensures (sum - 2 * (s * a)) + (term - 2 * (s * b)) == (sum + term) - 2 * (s * (a + b))
  {
  }

  lemma Distribute(s: int, a: int, b: int)
    ensures s * (a + b) == s * a + s * b
  {
  }

  /** Flipping spin `i` changes the energy by minus twice its sign times its local field. */
  lemma FlipIdentity(m: Model, spins: seq<int>, i: nat)
    requires i < |m.h| == |spins|
    ensures var row := SortedRow(Pushed(m, i, |m.edges|));
            EnergyOf(m, Flipped(spins, i)) - EnergyOf(m, spins) == -2 * (Sign(spins[i]) * (m.h[i] + Local(row, spins)))
  {
    FieldsAfterFlip(m.h, spins, i, |m.h|);
    EdgesAfterFlip(m, spins, i, |m.edges|);
    LocalOfSorted(Pushed(m, i, |m.edges|), spins);
    Distribute(Sign(spins[i]), m.h[i], Local(Pushed(m, i, |m.edges|), spins));
  }

  // ---- building the rows ----

  /** Row pointers, and the neighbours and couplings of all rows one after the other. */
  datatype CsrGraph = CsrGraph(rowPtr: seq<nat>, colInd: seq<nat>, jCsr: seq<int>)

  ghost predicate RowAt(g: CsrGraph, i: nat, row: seq<Half>) {
    && i + 1 < |g.rowPtr| && g.rowPtr[i] + |row| == g.rowPtr[i + 1] <= |g.colInd| == |g.jCsr|
    && forall k :: 0 <= k < |row| ==> row[k] == Half(g.colInd[g.rowPtr[i] + k], g.jCsr[g.rowPtr[i] + k])
  }

  /** Row `i` is the neighbour-sorted list of what the edges put into it. */
  ghost predicate IsCsr(g: CsrGraph, m: Model) {
    && |g.rowPtr| == |m.h| + 1 && g.rowPtr[0] == 0 && g.rowPtr[|m.h|] == |g.colInd|
    && forall i: nat :: i < |m.h| ==> RowAt(g, i, SortedRow(Pushed(m, i, |m.edges|)))
  }

  /** Pushes each edge into the rows of its two ends. */
  method PushEdges(m: Model) returns (adj: array<seq<Half>>)
    ensures fresh(adj) && adj.Length == |m.h|
    ensures forall i: nat :: i < |m.h| ==> adj[i] == Pushed(m, i, |m.edges|)
  {
    var n := |m.h|;
    adj := new seq<Half>[n](i => []);
    for k := 0 to |m.edges|
      invariant forall i: nat :: i < n ==> adj[i] == Pushed(m, i, k)
    {
      var e := m.edges[k];
      if e.u < n && e.v < n && e.u != e.v {
        var coup := if k < |m.j| then m.j[k] else 0;
        adj[e.u] := adj[e.u] + [Half(e.v, coup)];
        adj[e.v] := adj[e.v] + [Half(e.u, coup)];
      }
    }
  }

  method SortRows(adj: array<seq<Half>>)
    modifies adj
    ensures forall i: nat :: i < adj.Length ==> adj[i] == SortedRow(old(adj[i]))
  {
    for i := 0 to adj.Length
      invariant forall k: nat :: k < i ==> adj[k] == SortedRow(old(adj[k]))
      invariant forall k: nat :: i <= k < adj.Length ==> adj[k] == old(adj[k])
    {
      adj[i] := SortedRow(adj[i]);
    }
  }

  method AppendRow(row: seq<Half>, colInd: seq<nat>, jCsr: seq<int>) returns (cols: seq<nat>, couplings: seq<int>)
    requires |colInd| == |jCsr|
    ensures colInd <= cols && jCsr <= couplings && |cols| == |couplings| == |colInd| + |row|
    ensures forall k :: 0 <= k < |row| ==> row[k] == Half(cols[|colInd| + k], couplings[|colInd| + k])
  {
    cols, couplings := colInd, jCsr;
    for p := 0 to |row|
      invariant |cols| == |couplings| == |colInd| + p && colInd <= cols && jCsr <= couplings
      invariant forall k :: 0 <= k < p ==> row[k] == Half(cols[|colInd| + k], couplings[|colInd| + k])
    {
      cols := cols + [row[p].nbr];
      couplings := couplings + [row[p].coup];
    }
  }

  ghost predicate RowsUpTo(g: CsrGraph, rows: seq<seq<Half>>, i: nat) {
    && i <= |rows| && |g.rowPtr| == i + 1 && g.rowPtr[0] == 0 && g.rowPtr[i] == |g.colInd| == |g.jCsr|
    && forall k: nat :: k < i ==> RowAt(g, k, rows[k])
  }

  lemma RowAdded(g: CsrGraph, after: CsrGraph, rows: seq<seq<Half>>, i: nat)
    requires i < |rows| && RowsUpTo(g, rows, i) && after.rowPtr == g.rowPtr + [|after.colInd|]
    requires g.colInd <= after.colInd && g.jCsr <= after.jCsr && |after.colInd| == |after.jCsr| == |g.colInd| + |rows[i]|
    requires forall k :: 0 <= k < |rows[i]| ==> rows[i][k] == Half(after.colInd[|g.colInd| + k], after.jCsr[|g.colInd| + k])
    ensures RowsUpTo(after, rows, i + 1)
  {
    forall k: nat | k < i
      ensures RowAt(after, k, rows[k])
    {
      RowStays(g, after, k, rows[k]);
    }
    assert RowAt(after, i, rows[i]);
  }

  method FromBase(m: Model) returns (g: CsrGraph)
    ensures IsCsr(g, m)
  {
    var adj := PushEdges(m);
    SortRows(adj);
    ghost var rows := adj[..];
    g := CsrGraph([0], [], []);
    for i := 0 to |m.h|
      invariant adj[..] == rows && RowsUpTo(g, rows, i)
    {
      var cols, couplings := AppendRow(adj[i], g.colInd, g.jCsr);
      ghost var before := g;
      g := CsrGraph(g.rowPtr + [|cols|], cols, couplings);
      RowAdded(before, g, rows, i);
    }
  }

  lemma RowStays(g: CsrGraph, after: CsrGraph, i: nat, row: seq<Half>)
    requires RowAt(g, i, row) && g.rowPtr <= after.rowPtr && g.colInd <= after.colInd && g.jCsr <= after.jCsr
    requires |after.colInd| == |after.jCsr|
    ensures RowAt(after, i, row)
  {
    var at := g.rowPtr[i];
    assert at == after.rowPtr[i] && g.rowPtr[i + 1] == after.rowPtr[i + 1];
    assert forall k {:trigger row[k]} :: 0 <= k < |row| ==> g.colInd[at + k] == after.colInd[at + k] && g.jCsr[at + k] == after.jCsr[at + k];
  }
}

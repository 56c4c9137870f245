/** The pairs the lattice loops add, and that they are exactly the couplers. */
module ZephyrEdges {
  import opened IceTypes
  import opened Zephyr

  /** A pair of ids with the smaller one first. */
  function Ordered(a: nat, b: nat): Edge {
    if a <= b then Edge(a, b) else Edge(b, a)
  }

  /** The ids of a lattice. */
  function Ids(m: nat, t: nat): Coord -> nat {
    c => LinearId(m, t, c)
  }

  function PairOf(id: Coord -> nat, c: Coord, d: Coord): Edge {
    Ordered(id(c), id(d))
  }

  // ---- the three families of loops ----

  /** For each line and shift, consecutive parallel offsets. */
  predicate ExternalLoop(m: nat, t: nat, u: nat, w: nat, k: nat, j: nat, z: nat) {
    u < 2 && w < 2 * m + 1 && k < t && j < 2 && z < m - 1
  }

  ghost predicate AddsExternal(id: Coord -> nat, m: nat, t: nat, e: Edge) {
    exists u: nat, w: nat, k: nat, j: nat, z: nat {:trigger ExternalLoop(m, t, u, w, k, j, z)} ::
      ExternalLoop(m, t, u, w, k, j, z) && e == PairOf(id, Coord(u, w, k, j, z), Coord(u, w, k, j, z + 1))
  }

  /** For each line, the two shifts at the same offset, and one offset back where there is one. */
  predicate OddLoop(m: nat, t: nat, u: nat, w: nat, k: nat, z: nat, a: nat) {
    u < 2 && w < 2 * m + 1 && k < t && z < m && a < 2 && a <= z
  }

  ghost predicate AddsOdd(id: Coord -> nat, m: nat, t: nat, e: Edge) {
    exists u: nat, w: nat, k: nat, z: nat, a: nat {:trigger OddLoop(m, t, u, w, k, z, a)} ::
      OddLoop(m, t, u, w, k, z, a) && e == PairOf(id, Coord(u, w, k, 0, z), Coord(u, w, k, 1, z - a))
  }

  /** The eight loop variables of the internal couplers. */
  datatype Crossing = Crossing(w: nat, z: nat, h: nat, k: nat, i: nat, j: nat, a: nat, b: nat)

  predicate InternalLoop(m: nat, t: nat, x: Crossing) {
    x.w < m && x.z < m && x.h < t && x.k < t && x.i < 2 && x.j < 2 && x.a < 2 && x.b < 2
  }

  /** The perpendicular offset that a parallel offset, a shift, and a side lead to. */
  function Across(z: nat, j: nat, a: nat): nat {
    if a == 0 then 2 * z + 1 else 2 * z + 2 * j
  }

  /** It is the offset the loops compute, and it lies on the lattice. */
  lemma AcrossForm(m: nat, z: nat, j: nat, a: nat)
    requires z < m && j < 2 && a < 2
    ensures Across(z, j, a) == 2 * z + 1 + a * (2 * j - 1) && Across(z, j, a) < 2 * m + 1
  {
  }

  function FirstEnd(x: Crossing): Coord {
    Coord(0, Across(x.w, x.i, x.a), x.k, x.j, x.z)
  }

  function SecondEnd(x: Crossing): Coord {
    Coord(1, Across(x.z, x.j, x.b), x.h, x.i, x.w)
  }

  ghost predicate AddsInternal(id: Coord -> nat, m: nat, t: nat, e: Edge) {
    exists x {:trigger InternalLoop(m, t, x)} :: InternalLoop(m, t, x) && e == PairOf(id, FirstEnd(x), SecondEnd(x))
  }

  ghost predicate Added(id: Coord -> nat, m: nat, t: nat, e: Edge) {
    AddsExternal(id, m, t, e) || AddsOdd(id, m, t, e) || AddsInternal(id, m, t, e)
  }

  // ---- they add exactly the couplers ----

  lemma PairIsCoupler(m: nat, t: nat, c: Coord, d: Coord)
    requires InLattice(m, t, c) && InLattice(m, t, d) && Coupler(c, d)
    ensures var e := PairOf(Ids(m, t), c, d); e.u < e.v && LatticeCoupler(m, t, e.u, e.v)
  {
    CoordinatesOfLinearId(m, t, c);
    CoordinatesOfLinearId(m, t, d);
  }

  /** `e` is the pair of a coupler inside the lattice. */
  ghost predicate JoinsCoupler(id: Coord -> nat, m: nat, t: nat, e: Edge) {
    exists c, d {:trigger PairOf(id, c, d)} :: InLattice(m, t, c) && InLattice(m, t, d) && Coupler(c, d) && e == PairOf(id, c, d)
  }

  lemma ExternalJoins(id: Coord -> nat, m: nat, t: nat, e: Edge)
    requires AddsExternal(id, m, t, e)
    ensures JoinsCoupler(id, m, t, e)
  {
    var u: nat, w: nat, k: nat, j: nat, z: nat :| ExternalLoop(m, t, u, w, k, j, z) && e == PairOf(id, Coord(u, w, k, j, z), Coord(u, w, k, j, z + 1));
    var c, d := Coord(u, w, k, j, z), Coord(u, w, k, j, z + 1);
    assert InLattice(m, t, c) && InLattice(m, t, d) && Coupler(c, d);
  }

  lemma OddJoins(id: Coord -> nat, m: nat, t: nat, e: Edge)
    requires AddsOdd(id, m, t, e)
    ensures JoinsCoupler(id, m, t, e)
  {
    var u: nat, w: nat, k: nat, z: nat, a: nat :| OddLoop(m, t, u, w, k, z, a) && e == PairOf(id, Coord(u, w, k, 0, z), Coord(u, w, k, 1, z - a));
    var c, d := Coord(u, w, k, 0, z), Coord(u, w, k, 1, z - a);
    assert InLattice(m, t, c) && InLattice(m, t, d) && Coupler(c, d);
  }

  lemma InternalJoins(id: Coord -> nat, m: nat, t: nat, e: Edge)
    requires AddsInternal(id, m, t, e)
    ensures JoinsCoupler(id, m, t, e)
  {
    var x :| InternalLoop(m, t, x) && e == PairOf(id, FirstEnd(x), SecondEnd(x));
    AcrossForm(m, x.w, x.i, x.a);
    AcrossForm(m, x.z, x.j, x.b);
    assert InLattice(m, t, FirstEnd(x)) && InLattice(m, t, SecondEnd(x)) && Coupler(FirstEnd(x), SecondEnd(x));
  }

  lemma AddedJoins(id: Coord -> nat, m: nat, t: nat, e: Edge)
    requires Added(id, m, t, e)
    ensures JoinsCoupler(id, m, t, e)
  {
    if AddsExternal(id, m, t, e) {
      ExternalJoins(id, m, t, e);
    } else if AddsOdd(id, m, t, e) {
      OddJoins(id, m, t, e);
    } else {
      InternalJoins(id, m, t, e);
    }
  }

  lemma CouplerIsAdded(id: Coord -> nat, m: nat, t: nat, c: Coord, d: Coord)
    requires InLattice(m, t, c) && InLattice(m, t, d) && Coupler(c, d)
    ensures Added(id, m, t, PairOf(id, c, d))
  {
    var e := PairOf(id, c, d);
    if External(c, d) {
      assert ExternalLoop(m, t, c.u, c.w, c.k, c.j, c.z);
    } else if Odd(c, d) {
      assert OddLoop(m, t, c.u, c.w, c.k, c.z, c.z - d.z);
    } else {
      var a, b := if c.w == 2 * d.z + 1 then 0 else 1, if d.w == 2 * c.z + 1 then 0 else 1;
      assert Across(d.z, d.j, a) == c.w && Across(c.z, c.j, b) == d.w;
      var x := Crossing(d.z, c.z, d.k, c.k, d.j, c.j, a, b);
      assert InternalLoop(m, t, x) && FirstEnd(x) == c && SecondEnd(x) == d;
    }
  }

  /** The loops add exactly the couplers, each as an ascending pair; in particular no node is coupled to itself. */
  lemma AddedExactly(m: nat, t: nat, e: Edge)
    ensures Added(Ids(m, t), m, t, e) <==> e.u < e.v && LatticeCoupler(m, t, e.u, e.v)
  {
    var id := Ids(m, t);
    if Added(id, m, t, e) {
      AddedJoins(id, m, t, e);
      var c, d :| InLattice(m, t, c) && InLattice(m, t, d) && Coupler(c, d) && e == PairOf(id, c, d);
      PairIsCoupler(m, t, c, d);
    }
    if e.u < e.v && LatticeCoupler(m, t, e.u, e.v) {
      LinearIdOfCoordinates(m, t, e.u);
      LinearIdOfCoordinates(m, t, e.v);
      var c, d := Coordinates(m, t, e.u).value, Coordinates(m, t, e.v).value;
      assert id(c) == e.u && id(d) == e.v;
      if Coupler(c, d) {
        CouplerIsAdded(id, m, t, c, d);
      } else {
        CouplerIsAdded(id, m, t, d, c);
      }
    }
  }
}

/** The Zephyr lattice z(m, t): linear ids, coordinates, and couplers. */
module Zephyr {
  import opened Arith
  import opened Common

  /** Orientation `u`, perpendicular offset `w`, index `k`, shift `j`, and parallel offset `z`. */
  datatype Coord = Coord(u: nat, w: nat, k: nat, j: nat, z: nat)

  function NodeCount(m: nat, t: nat): nat {
    4 * t * m * (2 * m + 1)
  }

  predicate InLattice(m: nat, t: nat, c: Coord) {
    c.u < 2 && c.w < 2 * m + 1 && c.k < t && c.j < 2 && c.z < m
  }

  function LinearId(m: nat, t: nat, c: Coord): nat {
    (((c.u * (2 * m + 1) + c.w) * t + c.k) * 2 + c.j) * m + c.z
  }

  function Coordinates(m: nat, t: nat, q: int): Option<Coord> {
    if m < 1 || t < 1 || !(0 <= q < NodeCount(m, t)) then None
    else
      var r0: nat := Quotient(q, m);
      var r1: nat := r0 / 2;
      var r2: nat := Quotient(r1, t);
      Some(Coord(Quotient(r2, 2 * m + 1), r2 % (2 * m + 1), r1 % t, r0 % 2, q % m))
  }

  /** Reading the coordinates of a linear id recovers them. */
  lemma CoordinatesOfLinearId(m: nat, t: nat, c: Coord)
    requires InLattice(m, t, c)
    ensures Coordinates(m, t, LinearId(m, t, c)) == Some(c)
  {
    var w := 2 * m + 1;
    var r2 := c.u * w + c.w;
    var r1 := r2 * t + c.k;
    var r0 := r1 * 2 + c.j;
    var q := r0 * m + c.z;
    assert Joined(q, r0, m, c.z) && Joined(r0, r1, 2, c.j) && Joined(r1, r2, t, c.k) && Joined(r2, c.u, w, c.w);
    DigitsRead(m, t, c, q, r0, r1, r2);
    assert LinearId(m, t, c) == q;
  }

  lemma DigitsRead(m: nat, t: nat, c: Coord, q: int, r0: int, r1: int, r2: int)
    requires InLattice(m, t, c)
    requires Joined(q, r0, m, c.z) && Joined(r0, r1, 2, c.j) && Joined(r1, r2, t, c.k) && Joined(r2, c.u, 2 * m + 1, c.w)
    ensures Coordinates(m, t, q) == Some(c)
  {
    var w := 2 * m + 1;
    JoinedSplits(r2, c.u, w, c.w, 2);
    JoinedSplits(r1, r2, t, c.k, 2 * w);
    JoinedSplits(r0, r1, 2, c.j, 2 * w * t);
    JoinedSplits(q, r0, m, c.z, 2 * w * t * 2);
    NodeCountForm(m, t);
  }

  lemma NodeCountForm(m: nat, t: nat)
    ensures var w := 2 * m + 1; 2 * w * t * 2 * m == NodeCount(m, t)
  {
    var w := 2 * m + 1;
    assert 2 * w * t * 2 * m == 4 * t * m * w;
  }

  /** Coordinates that exist lie in the lattice and lead back to the id. */
  lemma LinearIdOfCoordinates(m: nat, t: nat, q: int)
    requires Coordinates(m, t, q).Some?
    ensures var c := Coordinates(m, t, q).value; InLattice(m, t, c) && LinearId(m, t, c) == q
  {
    var w := 2 * m + 1;
    var r0 := q / m;
    var r1 := r0 / 2;
    var r2 := r1 / t;
    NodeCountForm(m, t);
    QuotientBound(q, m, 2 * w * t * 2);
    QuotientBound(r0, 2, 2 * w * t);
    QuotientBound(r1, t, 2 * w);
    QuotientBound(r2, w, 2);
    DivModForm(q, m);
    DivModForm(r1, t);
    DivModForm(r2, w);
  }

  lemma LinearIdInjective(m: nat, t: nat, c: Coord, d: Coord)
    requires InLattice(m, t, c) && InLattice(m, t, d) && LinearId(m, t, c) == LinearId(m, t, d)
    ensures c == d
  {
    CoordinatesOfLinearId(m, t, c);
    CoordinatesOfLinearId(m, t, d);
  }

  // ---- couplers ----

  predicate External(c: Coord, d: Coord) {
    c.u == d.u && c.w == d.w && c.k == d.k && c.j == d.j && d.z == c.z + 1
  }

  predicate Odd(c: Coord, d: Coord) {
    c.u == d.u && c.w == d.w && c.k == d.k && c.j == 0 && d.j == 1 && (d.z == c.z || d.z + 1 == c.z)
  }

  predicate Internal(c: Coord, d: Coord) {
    && c.u == 0 && d.u == 1
    && (c.w == 2 * d.z + 1 || c.w == 2 * d.z + 1 + (2 * d.j - 1))
    && (d.w == 2 * c.z + 1 || d.w == 2 * c.z + 1 + (2 * c.j - 1))
  }

  predicate Coupler(c: Coord, d: Coord) {
    External(c, d) || Odd(c, d) || Internal(c, d)
  }

  predicate Linked(c: Coord, d: Coord) {
    Coupler(c, d) || Coupler(d, c)
  }

  /** The ids `a` and `b` are the ends of a z(m, t) coupler. */
  predicate LatticeCoupler(m: nat, t: nat, a: nat, b: nat) {
    var c, d := Coordinates(m, t, a), Coordinates(m, t, b);
    c.Some? && d.Some? && Linked(c.value, d.value)
  }

  /** The pair test of the tile search: one line of the lattice, opposite shifts. */
  predicate OddPair(c: Coord, d: Coord) {
    c.u == d.u && c.w == d.w && c.k == d.k && c.j != d.j
  }

  /** An internal coupler and one of its ends leave a single odd partner, so it lies in at most one tile. */
  lemma OnePartner(a: Coord, b: Coord, b': Coord, c: Coord)
    requires a.j < 2 && b.j < 2 && b'.j < 2 && c.u != a.u
    requires OddPair(a, b) && OddPair(a, b') && Linked(a, b) && Linked(a, b')
    requires Linked(a, c) && Linked(b, c) && Linked(b', c)
    ensures b == b'
  {
  }

  /** A coordinate has at most two odd partners. */
  lemma TwoPartners(a: Coord, b: Coord, c: Coord, d: Coord)
    requires a.j < 2 && b.j < 2 && c.j < 2 && d.j < 2
    requires OddPair(a, b) && OddPair(a, c) && OddPair(a, d) && Linked(a, b) && Linked(a, c) && Linked(a, d)
    ensures b == c || b == d || c == d
  {
  }

  // ---- the documented example ----

  /** The coordinates of the twelve nodes of the smallest lattice. */
  lemma SmallestCoordinates(q: nat)
    requires q < 12
    ensures Coordinates(1, 1, q) == Some(Coord(q / 6, q / 2 % 3, 0, q % 2, 0))
  {
    var c := Coord(q / 6, q / 2 % 3, 0, q % 2, 0);
    assert LinearId(1, 1, c) == q;
    CoordinatesOfLinearId(1, 1, c);
  }

  /** Nodes of one orientation are coupled in consecutive pairs. */
  lemma SmallestAlong(a: nat, b: nat)
    requires a < b < 12 && (a < 6 <==> b < 6)
    ensures LatticeCoupler(1, 1, a, b) <==> a % 2 == 0 && b == a + 1
  {
    SmallestCoordinates(a);
    SmallestCoordinates(b);
  }

  /** Nodes of different orientation are coupled when each reaches the other. */
  lemma SmallestAcross(a: nat, b: nat)
    requires a < 6 <= b < 12
    ensures LatticeCoupler(1, 1, a, b) <==>
            (a / 2 == 1 || (b % 2 == 0 && a / 2 == 0) || (b % 2 == 1 && a / 2 == 2)) &&
            ((b - 6) / 2 == 1 || (a % 2 == 0 && (b - 6) / 2 == 0) || (a % 2 == 1 && (b - 6) / 2 == 2))
  {
    SmallestCoordinates(a);
    SmallestCoordinates(b);
  }

  /** The couplers of the smallest lattice. */
  lemma SmallestLattice(a: nat, b: nat)
    requires a < b < 12
    ensures LatticeCoupler(1, 1, a, b) <==>
            (a, b) in {(0, 1), (0, 6), (0, 8), (1, 8), (1, 10), (2, 3), (2, 6), (2, 7), (2, 8), (2, 9), (3, 8),
                       (3, 9), (3, 10), (3, 11), (4, 5), (4, 7), (4, 9), (5, 9), (5, 11), (6, 7), (8, 9), (10, 11)}
  {
    if a < 6 <= b {
      SmallestAcross(a, b);
    } else {
      SmallestAlong(a, b);
    }
  }
}

/** Paths in a finite graph given by its arcs. */
module Connectivity {
  ghost predicate IsPath<T>(arcs: set<(T, T)>, p: seq<T>) {
    |p| > 0 && forall j, k :: 0 <= j < |p| && k == j + 1 && k < |p| ==> (p[j], p[k]) in arcs
  }

  ghost predicate Connected<T(!new)>(arcs: set<(T, T)>, x: T, y: T) {
    exists p: seq<T> :: IsPath(arcs, p) && p[0] == x && p[|p| - 1] == y
  }

  ghost predicate ClosedUnder<T>(arcs: set<(T, T)>, s: set<T>) {
    forall a :: a in arcs && a.0 in s ==> a.1 in s
  }

  ghost predicate Symmetric<T>(arcs: set<(T, T)>) {
    forall a :: a in arcs ==> (a.1, a.0) in arcs
  }

  lemma ConnectedToSelf<T(!new)>(arcs: set<(T, T)>, x: T)
    ensures Connected(arcs, x, x)
  {
    assert IsPath(arcs, [x]);
  }

  lemma ExtendConnection<T(!new)>(arcs: set<(T, T)>, x: T, y: T, z: T)
    requires Connected(arcs, x, y) && (y, z) in arcs
    ensures Connected(arcs, x, z)
  {
    var p :| IsPath(arcs, p) && p[0] == x && p[|p| - 1] == y;
    var q := p + [z];
    assert IsPath(arcs, q) && q[0] == x && q[|q| - 1] == z;
  }

  /** A set that no arc leaves keeps every path that starts in it. */
  lemma StaysInside<T(!new)>(arcs: set<(T, T)>, s: set<T>, x: T, y: T)
    requires ClosedUnder(arcs, s) && x in s && Connected(arcs, x, y)
    ensures y in s
  {
    var p :| IsPath(arcs, p) && p[0] == x && p[|p| - 1] == y;
    PathStaysInside(arcs, s, p, |p| - 1);
  }

  lemma {:induction false} PathStaysInside<T>(arcs: set<(T, T)>, s: set<T>, p: seq<T>, k: nat)
    requires ClosedUnder(arcs, s) && IsPath(arcs, p) && p[0] in s && k < |p|
    ensures p[k] in s
  {
    if k > 0 {
      PathStaysInside(arcs, s, p, k - 1);
      assert (p[k - 1], p[k]) in arcs;
    }
  }
}

/** Values and cardinality facts shared by every component. */
module Common {
  datatype Option<+T> = None | Some(value: T)

  datatype Result<+T, +E> = Ok(value: T) | Err(error: E) {
    predicate IsFailure() {
      Err?
    }

    function PropagateFailure<U>(): Result<U, E>
      requires Err?
    {
      Err(error)
    }

    function Extract(): T
      requires Ok?
    {
      value
    }
  }

  /** A spin, a gauge, or a coupling sign. */
  predicate IsSign(s: int) {
    s == 1 || s == -1
  }

  ghost predicate Distinct<T>(s: seq<T>) {
    forall i, j :: 0 <= i < j < |s| ==> s[i] != s[j]
  }

  ghost function Elements<T>(s: seq<T>): set<T> {
    set x | x in s
  }

  /** `s` lists every number below `n` exactly once. */
  ghost predicate IsPermutation(s: seq<nat>, n: nat) {
    Distinct(s) && forall x: nat :: x in s <==> x < n
  }

  lemma IdentityIsPermutation(n: nat)
    ensures IsPermutation(seq(n, i => i), n)
  {
    var s := seq(n, i => i);
    forall x: nat | x < n ensures x in s {
      assert s[x] == x;
    }
  }

  lemma PermutationLength(order: seq<nat>, n: nat)
    requires IsPermutation(order, n)
    ensures |order| == n
  {
    DistinctCard(order);
    assert Elements(order) == Below(n);
  }

  /** A prefix grows by the element after it. */
  lemma PrefixGrows<T>(s: seq<T>, k: nat)
    requires k < |s|
    ensures s[..k + 1] == s[..k] + [s[k]]
    ensures forall x :: x in s[..k + 1] <==> x in s[..k] || x == s[k]
    ensures s[k] in s
  {
    var p, q := s[..k], s[..k + 1];
    assert q == p + [s[k]];
  }

  lemma SplitLast<T>(s: seq<T>)
    requires s != []
    ensures s == s[..|s| - 1] + [s[|s| - 1]]
    ensures s[|s| - 1] in s
  {
  }

  lemma {:induction false} SubsetCard<T>(a: set<T>, b: set<T>)
    requires a <= b
    ensures |a| <= |b|
    decreases a
  {
    if a != {} {
      var x :| x in a;
      SubsetCard(a - {x}, b - {x});
    }
  }

  /** An injective map into `t` bounds the size of its domain. */
  lemma {:induction false} InjectionBound<A, B>(s: set<A>, t: set<B>, f: A --> B)
    requires forall x :: x in s ==> f.requires(x) && f(x) in t
    requires forall x, y :: x in s && y in s && f(x) == f(y) ==> x == y
    ensures |s| <= |t|
    decreases s
  {
    if s != {} {
      var x :| x in s;
      InjectionBound(s - {x}, t - {f(x)}, f);
    }
  }

  lemma {:induction false} DistinctCard<T>(s: seq<T>)
    requires Distinct(s)
    ensures |Elements(s)| == |s|
  {
    if s == [] {
      assert Elements(s) == {};
    } else {
      var rest := s[1..];
      DistinctCard(rest);
      assert s[0] !in rest;
      assert Elements(s) == Elements(rest) + {s[0]} by {
        assert s == [s[0]] + rest;
      }
    }
  }

  /** The set of the numbers below `n`. */
  ghost function Below(n: nat): (s: set<nat>)
    ensures |s| == n
    ensures forall i :: i in s <==> 0 <= i < n
  {
    if n == 0 then {} else Below(n - 1) + {n - 1}
  }
}

/** Ascending lists without repeats: what sorting a set or a duplicate-free list yields. */
module Sorting {
  import opened Common

  ghost predicate StrictOrder<T(!new)>(less: (T, T) -> bool) {
    && (forall x :: !less(x, x))
    && (forall x, y, z :: less(x, y) && less(y, z) ==> less(x, z))
    && (forall x, y :: less(x, y) || x == y || less(y, x))
  }

  ghost predicate Ascending<T>(s: seq<T>, less: (T, T) -> bool) {
    forall i, j :: 0 <= i < j < |s| ==> less(s[i], s[j])
  }

  predicate Increasing(list: seq<nat>) {
    forall i, j :: 0 <= i < j < |list| ==> list[i] < list[j]
  }

  function Insert<T(==)>(x: T, s: seq<T>, less: (T, T) -> bool): seq<T> {
    if s == [] then [x]
    else if x == s[0] then s
    else if less(x, s[0]) then [x] + s
    else [s[0]] + Insert(x, s[1..], less)
  }

  function SortDistinct<T(==)>(s: seq<T>, less: (T, T) -> bool): seq<T> {
    if s == [] then [] else Insert(s[0], SortDistinct(s[1..], less), less)
  }

  lemma {:induction false} InsertElements<T>(x: T, s: seq<T>, less: (T, T) -> bool)
    ensures forall y :: y in Insert(x, s, less) <==> y == x || y in s
  {
    if s != [] && x != s[0] && !less(x, s[0]) {
      InsertElements(x, s[1..], less);
      assert s == [s[0]] + s[1..];
    }
  }

  lemma {:induction false} InsertAscending<T(!new)>(x: T, s: seq<T>, less: (T, T) -> bool)
    requires StrictOrder(less) && Ascending(s, less)
    ensures Ascending(Insert(x, s, less), less)
  {
    if s == [] || x == s[0] {
    } else if less(x, s[0]) {
      forall j | 0 <= j < |s| ensures less(x, s[j]) {
        assert j == 0 || less(s[0], s[j]);
      }
    } else {
      var r := Insert(x, s[1..], less);
      InsertAscending(x, s[1..], less);
      InsertElements(x, s[1..], less);
      forall j | 0 <= j < |r| ensures less(s[0], r[j]) {
        assert r[j] in r;
        if r[j] != x {
          var k :| 0 <= k < |s[1..]| && s[1..][k] == r[j];
          assert s[k + 1] == r[j];
        }
      }
    }
  }

  lemma {:induction false} SortElements<T>(s: seq<T>, less: (T, T) -> bool)
    ensures forall y :: y in SortDistinct(s, less) <==> y in s
  {
    if s != [] {
      SortElements(s[1..], less);
      InsertElements(s[0], SortDistinct(s[1..], less), less);
      assert s == [s[0]] + s[1..];
    }
  }

  /** Sorting keeps exactly the elements of the list, in ascending order, each once. */
  lemma {:induction false} SortAscending<T(!new)>(s: seq<T>, less: (T, T) -> bool)
    requires StrictOrder(less)
    ensures Ascending(SortDistinct(s, less), less)
    ensures forall y :: y in SortDistinct(s, less) <==> y in s
  {
    SortElements(s, less);
    if s != [] {
      SortAscending(s[1..], less);
      InsertAscending(s[0], SortDistinct(s[1..], less), less);
    }
  }

  lemma AscendingDistinct<T(!new)>(s: seq<T>, less: (T, T) -> bool)
    requires StrictOrder(less) && Ascending(s, less)
    ensures Distinct(s)
  {
  }

  /** An ascending list is determined by its elements, so the sorted form is canonical. */
  lemma {:induction false} AscendingUnique<T(!new)>(s: seq<T>, t: seq<T>, less: (T, T) -> bool)
    requires StrictOrder(less) && Ascending(s, less) && Ascending(t, less)
    requires forall y :: y in s <==> y in t
    ensures s == t
  {
    assert |s| > 0 ==> s[0] in s;
    assert |t| > 0 ==> t[0] in t;
    if s != [] && t != [] {
      SameHead(s, t, less);
      assert s == [s[0]] + s[1..] && t == [t[0]] + t[1..];
      forall y ensures y in s[1..] <==> y in t[1..] {
        assert s[0] !in s[1..] && t[0] !in t[1..];
        assert y in s <==> y == s[0] || y in s[1..];
        assert y in t <==> y == t[0] || y in t[1..];
      }
      AscendingUnique(s[1..], t[1..], less);
    }
  }

  lemma SameHead<T(!new)>(s: seq<T>, t: seq<T>, less: (T, T) -> bool)
    requires StrictOrder(less) && Ascending(s, less) && Ascending(t, less)
    requires s != [] && t != [] && s[0] in t && t[0] in s
    ensures s[0] == t[0]
  {
    var i :| 0 <= i < |t| && t[i] == s[0];
    var j :| 0 <= j < |s| && s[j] == t[0];
    assert less(t[0], t[i]) || i == 0;
    assert i == 0 || j == 0;
  }
}

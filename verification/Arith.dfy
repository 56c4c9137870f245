/** Division and multiplication facts for positional numbers. */
module Arith {
  lemma MulNonNegative(x: int, y: int)
    requires 0 <= x && 0 <= y
    ensures 0 <= x * y
  {
  }

  lemma MulMonotone(x: int, y: int, n: int)
    requires x <= y && 0 <= n
    ensures x * n <= y * n
  {
    MulNonNegative(y - x, n);
    assert (y - x) * n == y * n - x * n;
  }

  lemma MulNext(x: int, n: int)
    ensures (x + 1) * n == x * n + n
  {
  }

  /** Quotient and remainder are unique. */
  lemma DivModUnique(x: int, n: int, q: int, d: int)
    requires n > 0 && 0 <= d < n && x == q * n + d
    ensures x / n == q && x % n == d
  {
    var p := x / n;
    DivModForm(x, n);
    MulNext(p, n);
    MulNext(q, n);
    if p < q {
      MulMonotone(p + 1, q, n);
    } else if q < p {
      MulMonotone(q + 1, p, n);
    }
  }

  lemma DivModForm(x: int, n: int)
    requires n > 0
    ensures x == (x / n) * n + x % n && 0 <= x % n < n
  {
  }

  lemma DigitBound(q: int, n: int, d: int, top: int)
    requires 0 <= d < n && 0 <= q < top
    ensures 0 <= q * n + d < top * n
  {
    MulMonotone(q + 1, top, n);
    MulNonNegative(q, n);
    assert (q + 1) * n == q * n + n;
  }

  lemma QuotientBound(x: int, n: int, top: int)
    requires n > 0 && 0 <= x < top * n
    ensures 0 <= x / n < top
  {
    var p := x / n;
    DivModForm(x, n);
    MulNext(p, n);
    if top <= p {
      MulMonotone(top, p, n);
    } else if p < 0 {
      MulMonotone(p + 1, 0, n);
    }
  }

  function Quotient(x: nat, n: nat): nat
    requires n > 0
  {
    MulMonotone(1, n, x + 1);
    QuotientBound(x, n, x + 1);
    x / n
  }

  /** What appending the digit `d` to `q` in base `n` gives. */
  ghost predicate Joined(x: int, q: int, n: int, d: int) {
    n > 0 && 0 <= d < n && x == q * n + d
  }

  lemma JoinedSplits(x: int, q: int, n: int, d: int, top: int)
    requires Joined(x, q, n, d) && 0 <= q < top
    ensures x / n == q && x % n == d && 0 <= x < top * n
  {
    DivModUnique(x, n, q, d);
    DigitBound(q, n, d, top);
  }

  /** The remainder by repeated subtraction, which keeps reasoning about draws linear. */
  function Remainder(x: nat, n: nat): (r: nat)
    requires n >= 1
    ensures r < n
    decreases x
  {
    if x < n then x else Remainder(x - n, n)
  }

  lemma {:induction false} RemainderIsModulo(x: nat, n: nat)
    requires n >= 1
    ensures Remainder(x, n) == x % n
    decreases x
  {
    if x < n {
      DivModUnique(x, n, 0, x);
    } else {
      RemainderIsModulo(x - n, n);
      DivModForm(x - n, n);
      MulNext((x - n) / n, n);
      DivModUnique(x, n, (x - n) / n + 1, (x - n) % n);
    }
  }
}

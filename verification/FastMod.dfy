/** The remainder of a 32-bit word by one multiply-high. */
module FastMod {
  import opened Arith
  import opened Machine
  import opened Words

  /** `magic` is 2^64 over the divisor, rounded up, in 64 bits: a divisor of one wraps it to zero. */
  datatype FastMod = FastMod(magic: nat, divisor: nat) {
    /** Multiplies in 64 bits, then takes the high half of the 128-bit product. */
    function Rem(w: word): nat
      requires 1 <= divisor
    {
      var low := magic * w % U64;
      MulNonNegative(low, divisor);
      low * divisor / U64
    }
  }

  function New(divisor: nat): FastMod
    requires 1 <= divisor < U32
  {
    FastMod(((U64 - 1) / divisor + 1) % U64, divisor)
  }

  /** How far the rounded-up reciprocal overshoots: `m * d == 2^64 + e` with `e` below `d`. */
  lemma Overshoot(d: nat, m: nat) returns (e: nat)
    requires 2 <= d < U32 && m == (U64 - 1) / d + 1
    ensures m * d == U64 + e && e < d
    ensures m < U64
  {
    var q := (U64 - 1) / d;
    DivModForm(U64 - 1, d);
    MulNext(q, d);
    e := m * d - U64;
    QuotientBound(U64 - 1, d, U64 - 1);
  }

  /** With `w == q * d + r`, the low half of `m * w` is `e * q + m * r`, and the high half of its product by `d` is `r`. */
  lemma HighHalf(d: nat, m: nat, e: nat, q: nat, r: nat, w: nat)
    requires d >= 1 && m * d == U64 + e && e < d < U32 && w == q * d + r && r < d && w < U32
    ensures m * w % U64 * d / U64 == r
  {
    var low := e * q + m * r;
    assert m * w == U64 * q + low by {
      MulSplit(m, d, e, q, r);
    }
    assert low * d == U64 * r + e * w by {
      LowTimesDivisor(m, d, e, q, r);
    }
    assert 0 <= e * w < U64 by {
      ProductBelow(e, w);
    }
    assert 0 <= low < U64 by {
      LowFits(low, d, r, e * w, e * q, m * r);
    }
    DivModUnique(m * w, U64, q, low);
    DivModUnique(low * d, U64, r, e * w);
  }

  lemma MulSplit(m: nat, d: nat, e: nat, q: nat, r: nat)
    requires m * d == U64 + e
    ensures m * (q * d + r) == U64 * q + (e * q + m * r)
  {
    assert m * (q * d + r) == (m * d) * q + m * r;
    assert (U64 + e) * q == U64 * q + e * q;
  }

  lemma LowTimesDivisor(m: nat, d: nat, e: nat, q: nat, r: nat)
    requires m * d == U64 + e
    ensures (e * q + m * r) * d == U64 * r + e * (q * d + r)
  {
    assert (e * q + m * r) * d == e * (q * d) + (m * d) * r;
    assert (U64 + e) * r == U64 * r + e * r;
    assert e * (q * d + r) == e * (q * d) + e * r;
  }

  lemma ProductBelow(x: nat, y: nat)
    requires x < U32 && y < U32
    ensures 0 <= x * y < U64
  {
    MulMonotone(x, U32 - 1, y);
  }

  lemma LowFits(low: int, d: nat, r: nat, rest: nat, a: int, b: int)
    requires low * d == U64 * r + rest && r < d && rest < U64
    ensures low < U64
  {
    if low >= U64 {
      MulMonotone(U64, low, d);
    }
  }

  lemma RemOfOne(w: word)
    ensures New(1).Rem(w) == w % 1
  {
    assert New(1).magic == 0;
  }

  lemma RemOfLarger(d: nat, w: word)
    requires 2 <= d < U32
    ensures New(d).Rem(w) == w % d
  {
    var m := (U64 - 1) / d + 1;
    var e := Overshoot(d, m);
    DivModForm(w, d);
    QuotientBound(w, d, U32);
    HighHalf(d, m, e, w / d, w % d, w);
  }

  /** The multiply-high remainder is exact for every word and every 32-bit divisor. */
  lemma RemIsModulo(d: nat, w: word)
    requires 1 <= d < U32
    ensures New(d).Rem(w) == w % d
  {
    if d == 1 {
      RemOfOne(w);
    } else {
      RemOfLarger(d, w);
    }
  }
}

/** The energy of a spin state from milli coefficients. */
module Energy {
  import opened Machine

  datatype Ends = Ends(u: nat, v: nat)

  const I128_MAX := 0x7fff_ffff_ffff_ffff_ffff_ffff_ffff_ffff

  /** A model: fields, couplings by edge position, and edges in received order. */
  datatype Model = Model(h: seq<i32>, j: seq<i32>, edges: seq<Ends>)

  /** Only a positive spin counts as up. */
  function Sign(s: int): (r: int)
    ensures (r == 1 <==> s > 0) && (r == -1 <==> s <= 0)
  {
    if s > 0 then 1 else -1
  }

  function FieldSum(h: seq<i32>, spins: seq<int>, k: nat): int
    requires k <= |h| && k <= |spins|
  {
    if k == 0 then 0 else FieldSum(h, spins, k - 1) + h[k - 1] * Sign(spins[k - 1])
  }

  /** An edge counts when its coupling and both ends exist. */
  predicate Scored(m: Model, spins: seq<int>, k: nat)
    requires k < |m.edges|
  {
    k < |m.j| && m.edges[k].u < |spins| && m.edges[k].v < |spins|
  }

  function EdgeTerm(m: Model, spins: seq<int>, k: nat): int
    requires k < |m.edges|
  {
    if Scored(m, spins, k) then m.j[k] * Sign(spins[m.edges[k].u]) * Sign(spins[m.edges[k].v]) else 0
  }

  function EdgeSum(m: Model, spins: seq<int>, k: nat): int
    requires k <= |m.edges|
  {
    if k == 0 then 0 else EdgeSum(m, spins, k - 1) + EdgeTerm(m, spins, k - 1)
  }

  function Shorter(h: seq<i32>, spins: seq<int>): nat {
    if |h| < |spins| then |h| else |spins|
  }

  /** The exact sum. */
  function EnergyOf(m: Model, spins: seq<int>): int {
    FieldSum(m.h, spins, Shorter(m.h, spins)) + EdgeSum(m, spins, |m.edges|)
  }

  function Saturated(x: int, max: int): (r: int)
    ensures max >= 0 ==> -max - 1 <= r <= max && (-max - 1 <= x <= max ==> r == x) && (x > max ==> r == max)
    ensures max >= 0 && x < -max - 1 ==> r == -max - 1
  {
    if x > max then max else if x < -max - 1 then -max - 1 else x
  }

  lemma TermBound(c: i32, a: int, b: int)
    requires (a == 1 || a == -1) && (b == 1 || b == -1)
    ensures -0x8000_0000 <= c * a <= 0x8000_0000 && -0x8000_0000 <= c * a * b <= 0x8000_0000
  {
  }

  /** Accumulates with 128-bit saturating sums, which never saturate on lists with 64-bit lengths, then clamps to 64 bits. */
  method EnergyFromMilli(m: Model, spins: seq<int>) returns (r: int)
    requires |spins| <= 0x1_0000_0000_0000_0000 && |m.edges| <= 0x1_0000_0000_0000_0000
    ensures r == Saturated(EnergyOf(m, spins), I64_MAX)
  {
    var acc: int := 0;
    var fields := Shorter(m.h, spins);
    for i := 0 to fields
      invariant acc == FieldSum(m.h, spins, i) && -0x8000_0000 * i <= acc <= 0x8000_0000 * i
    {
      TermBound(m.h[i], Sign(spins[i]), 1);
      acc := Saturated(acc + m.h[i] * Sign(spins[i]), I128_MAX);
    }
    ghost var base := acc;
    for k := 0 to |m.edges|
      invariant acc == base + EdgeSum(m, spins, k)
      invariant -0x8000_0000 * (fields + k) <= acc <= 0x8000_0000 * (fields + k)
    {
      var e := m.edges[k];
      if k < |m.j| && e.u < |spins| && e.v < |spins| {
        TermBound(m.j[k], Sign(spins[e.u]), Sign(spins[e.v]));
        acc := Saturated(acc + m.j[k] * Sign(spins[e.u]) * Sign(spins[e.v]), I128_MAX);
      }
    }
    return Saturated(acc, I64_MAX);
  }
}

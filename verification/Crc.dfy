/** The checksum of a payload: CRC-32 as section 8 of RFC 1952 defines it, table form and bit-serial form. */
module Crc {
  import opened Machine
  import opened Words

  const POLYNOMIAL := 0xEDB8_8320

  /** The polynomial by its exponents below 32, written with the highest power in the lowest digit. */
  lemma PolynomialExponents()
    ensures POLYNOMIAL ==
            Power2(31 - 26) + Power2(31 - 23) + Power2(31 - 22) + Power2(31 - 16) + Power2(31 - 12) + Power2(31 - 11) + Power2(31 - 10)
            + Power2(31 - 8) + Power2(31 - 7) + Power2(31 - 5) + Power2(31 - 4) + Power2(31 - 2) + Power2(31 - 1) + Power2(31 - 0)
  {
    assert Power2(8) == 256 && Power2(9) == 512 && Power2(15) == 0x8000;
    assert Power2(19) == 0x8_0000 && Power2(20) == 0x10_0000 && Power2(21) == 0x20_0000;
    assert Power2(23) == 0x80_0000 && Power2(24) == 0x100_0000;
    assert Power2(26) == 0x400_0000 && Power2(27) == 0x800_0000 && Power2(29) == 0x2000_0000;
    assert Power2(30) == 0x4000_0000 && Power2(31) == 0x8000_0000;
  }

  /** One step of the division register: shift right, subtract the polynomial when a one falls out. */
  function Shift(c: nat): nat {
    if c % 2 == 1 then Xor(POLYNOMIAL, c / 2) else c / 2
  }

  function Shifts(c: nat, n: nat): nat
    decreases n, c
  {
    if n == 0 then c else Shifts(Shift(c), n - 1)
  }

  // ---- the bit-serial definition ----

  /** Feeds the lowest `n` bits of `bits`, least significant first, one bit a step. */
  function FeedBits(c: nat, bits: nat, n: nat): nat
    decreases n, bits, c
  {
    if n == 0 then c else FeedBits(Shift(Xor(c, bits % 2)), bits / 2, n - 1)
  }

  function FeedBytes(c: nat, data: seq<byte>): nat
    decreases data
  {
    if data == [] then c else FeedBytes(FeedBits(c, data[0], 8), data[1..])
  }

  /** Starts from all ones and complements the register at the end. */
  function BitSerial(data: seq<byte>): nat {
    Xor(FeedBytes(U32 - 1, data), U32 - 1)
  }

  // ---- one register step ----

  /** A register step is linear: the polynomial is subtracted once, twice, or not at all. */
  lemma ShiftIsLinear(x: nat, y: nat)
    ensures Shift(Xor(x, y)) == Xor(Shift(x), Shift(y))
  {
    XorDigits(x, y);
    LinearCases(x, y, x / 2, y / 2, Xor(x, y), Xor(x / 2, y / 2));
  }

  lemma LinearCases(x: nat, y: nat, a: nat, b: nat, xy: nat, ab: nat)
    requires a == x / 2 && b == y / 2 && ab == Xor(a, b) && xy % 2 == (x + y) % 2 && xy / 2 == ab
    ensures Shift(xy) == Xor(Shift(x), Shift(y))
  {
    ShiftCases(x);
    ShiftCases(y);
    ShiftCases(xy);
    OddSum(x, y, xy);
    Subtracted(a, b, x % 2 == 1, y % 2 == 1, Shift(x), Shift(y), Shift(xy));
  }

  lemma OddSum(x: nat, y: nat, xy: nat)
    requires xy % 2 == (x + y) % 2
    ensures xy % 2 == 1 <==> (x % 2 == 1) != (y % 2 == 1)
  {
  }

  lemma ShiftCases(c: nat)
    ensures Shift(c) == if c % 2 == 1 then Xor(POLYNOMIAL, c / 2) else c / 2
  {
  }

  lemma Subtracted(a: nat, b: nat, odd: bool, other: bool, x: nat, y: nat, xy: nat)
    requires x == (if odd then Xor(POLYNOMIAL, a) else a) && y == if other then Xor(POLYNOMIAL, b) else b
    requires xy == if odd != other then Xor(POLYNOMIAL, Xor(a, b)) else Xor(a, b)
    ensures xy == Xor(x, y)
  {
    PolynomialTwice(a, b);
  }

  lemma PolynomialTwice(a: nat, b: nat)
    ensures Xor(Xor(POLYNOMIAL, a), Xor(POLYNOMIAL, b)) == Xor(a, b)
    ensures Xor(a, Xor(POLYNOMIAL, b)) == Xor(POLYNOMIAL, Xor(a, b)) == Xor(Xor(POLYNOMIAL, a), b)
  {
    var p: nat := POLYNOMIAL;
    XorCancels(p, a, b);
    XorAssociates(p, a, b);
  }

  lemma {:induction false} ShiftsAreLinear(x: nat, y: nat, n: nat)
    ensures Shifts(Xor(x, y), n) == Xor(Shifts(x, n), Shifts(y, n))
    decreases n
  {
    if n > 0 {
      ShiftIsLinear(x, y);
      ShiftsAreLinear(Shift(x), Shift(y), n - 1);
    }
  }

  function Halved(bits: nat, n: nat): nat
    decreases n, bits
  {
    if n == 0 then bits else Halved(bits / 2, n - 1)
  }

  lemma SplitLowBit(c: nat, bits: nat)
    ensures Xor(c, bits) == Xor(Xor(c, bits % 2), bits / 2 * 2)
  {
    XorAssociates(c, bits % 2, bits / 2 * 2);
    XorSame(bits / 2);
    XorDigits(bits % 2, bits / 2 * 2);
    FromDigits(Xor(bits % 2, bits / 2 * 2), bits);
  }

  lemma ShiftEven(x: nat)
    ensures Shift(x * 2) == x
  {
  }

  lemma FeedingStep(c: nat, bits: nat)
    ensures Shift(Xor(c, bits)) == Xor(Shift(Xor(c, bits % 2)), bits / 2)
  {
    var high := bits / 2;
    SplitLowBit(c, bits);
    ShiftIsLinear(Xor(c, bits % 2), high * 2);
    ShiftEven(high);
  }

  /** Feeding bits one by one and adding them all first differ by the bits not yet shifted out. */
  lemma {:induction false} FeedingIsAdding(c: nat, bits: nat, n: nat)
    ensures Shifts(Xor(c, bits), n) == Xor(FeedBits(c, bits, n), Halved(bits, n))
    decreases n
  {
    if n > 0 {
      FeedingStep(c, bits);
      FeedingIsAdding(Shift(Xor(c, bits % 2)), bits / 2, n - 1);
    }
  }

  // ---- the table ----

  lemma {:induction false} NothingSubtracted(q: nat, n: nat)
    ensures Shifts(q * Power2(n), n) == q
    decreases n
  {
    if n > 0 {
      var x := q * Power2(n - 1);
      assert q * Power2(n) == x * 2;
      ShiftEven(x);
      NothingSubtracted(q, n - 1);
    }
  }

  lemma {:induction false} XorAligned(q: nat, low: nat, n: nat)
    requires low < Power2(n)
    ensures Xor(low, q * Power2(n)) == q * Power2(n) + low
    decreases n
  {
    var w := q * Power2(n);
    if n == 0 {
      XorSame(q);
    } else {
      var x := q * Power2(n - 1);
      assert w == 2 * x;
      XorAligned(q, low / 2, n - 1);
      XorDigits(low, w);
      FromDigits(Xor(low, w), w + low);
    }
  }

  /** Eight steps on a word are eight steps on its low byte, added to the other bytes moved down. */
  lemma LookupStep(x: nat)
    ensures Shifts(x, 8) == Xor(Shifts(x % 256, 8), x / 256)
  {
    var high, low := x / 256, x % 256;
    assert Power2(8) == 256;
    XorAligned(high, low, 8);
    assert Xor(low, high * 256) == x;
    ShiftsAreLinear(low, high * 256, 8);
    NothingSubtracted(high, 8);
  }

  lemma {:induction false} HalvedBelow(bits: nat, n: nat)
    requires bits < Power2(n)
    ensures Halved(bits, n) == 0
    decreases n
  {
    if n > 0 {
      HalvedBelow(bits / 2, n - 1);
    }
  }

  lemma {:induction false} XorHigh(x: nat, y: nat, n: nat)
    requires y < Power2(n)
    ensures Halved(Xor(x, y), n) == Halved(x, n)
    decreases n
  {
    if n == 0 {
      XorSame(x);
    } else {
      XorDigits(x, y);
      XorHigh(x / 2, y / 2, n - 1);
    }
  }

  lemma HalvedTwo(x: nat, n: nat)
    ensures Halved(x, n + 2) == Halved(x / 4, n)
  {
    assert Halved(x, n + 2) == Halved(x / 2, n + 1) == Halved(x / 2 / 2, n);
  }

  lemma QuarteredFour(x: nat, a: nat, b: nat, c: nat)
    requires a == x / 4 && b == a / 4 && c == b / 4
    ensures c / 4 == x / 256
  {
  }

  lemma HalvedEight(x: nat)
    ensures Halved(x, 8) == x / 256
  {
    var a, b := x / 4, x / 4 / 4;
    var c := b / 4;
    HalvedTwo(x, 6);
    HalvedTwo(a, 4);
    HalvedTwo(b, 2);
    HalvedTwo(c, 0);
    QuarteredFour(x, a, b, c);
  }

  /** One table lookup does what feeding the eight bits of a byte does. */
  lemma LookupFeedsByte(c: nat, byte: byte)
    ensures Xor(Shifts(Xor(c, byte) % 256, 8), c / 256) == FeedBits(c, byte, 8)
  {
    assert Power2(8) == 256;
    LookupStep(Xor(c, byte));
    XorHigh(c, byte, 8);
    HalvedEight(c);
    HalvedEight(Xor(c, byte));
    FeedingIsAdding(c, byte, 8);
    HalvedBelow(byte, 8);
    XorSame(FeedBits(c, byte, 8));
  }

  ghost predicate IsTable(table: array<nat>)
    reads table
  {
    table.Length == 256 && forall i: nat :: i < 256 ==> table[i] == Shifts(i, 8)
  }

  method CrcTable() returns (table: array<nat>)
    ensures fresh(table) && IsTable(table)
  {
    table := new nat[256];
    for i := 0 to 256
      invariant forall k: nat :: k < i ==> table[k] == Shifts(k, 8)
    {
      var c: nat := i;
      for bit := 0 to 8
        invariant Shifts(c, 8 - bit) == Shifts(i, 8)
      {
        c := if c % 2 == 1 then Xor(POLYNOMIAL, c / 2) else c / 2;
      }
      table[i] := c;
    }
  }

  /** The table-driven checksum is the bit-serial one. */
  method Crc32(table: array<nat>, data: seq<byte>) returns (crc: nat)
    requires IsTable(table)
    ensures crc == BitSerial(data)
  {
    crc := U32 - 1;
    for k := 0 to |data|
      invariant FeedBytes(U32 - 1, data) == FeedBytes(crc, data[k..])
    {
      LookupFeedsByte(crc, data[k]);
      assert data[k..][1..] == data[k + 1..];
      crc := Xor(table[Xor(crc, data[k]) % 256], crc / 256);
    }
    crc := Xor(crc, U32 - 1);
  }
}

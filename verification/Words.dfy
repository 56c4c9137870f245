/** 32-bit words as integers, with the bitwise operations defined on their binary digits. */
module Words {
  import opened Machine

  type word = u32

  /** Exclusive or: the binary digits added without carry. */
  function Xor(x: nat, y: nat): nat
    decreases x + y
  {
    if x == 0 then y
    else if y == 0 then x
    else 2 * Xor(x / 2, y / 2) + (x + y) % 2
  }

  lemma XorDigits(x: nat, y: nat)
    ensures Xor(x, y) / 2 == Xor(x / 2, y / 2) && Xor(x, y) % 2 == (x + y) % 2
  {
  }

  lemma {:induction false} XorSame(x: nat)
    ensures Xor(x, x) == 0 && Xor(x, 0) == x && Xor(0, x) == x
  {
    if x > 0 {
      XorSame(x / 2);
    }
  }

  lemma {:induction false} XorCommutes(x: nat, y: nat)
    ensures Xor(x, y) == Xor(y, x)
    decreases x + y
  {
    if x > 0 && y > 0 {
      XorCommutes(x / 2, y / 2);
    }
  }

  /** Numbers with equal digits are equal. */
  lemma FromDigits(x: nat, y: nat)
    requires x / 2 == y / 2 && x % 2 == y % 2
    ensures x == y
  {
  }

  lemma AssociatedDigits(x: nat, y: nat, z: nat, xy: nat, yz: nat, left: nat, right: nat)
    requires xy == Xor(x, y) && yz == Xor(y, z) && left == Xor(xy, z) && right == Xor(x, yz)
    requires Xor(Xor(x / 2, y / 2), z / 2) == Xor(x / 2, Xor(y / 2, z / 2))
    ensures left == right
  {
    XorDigits(x, y);
    XorDigits(y, z);
    XorDigits(xy, z);
    XorDigits(x, yz);
    ParityAssociates(x, y, z, xy, yz);
    FromDigits(left, right);
  }

  lemma ParityAssociates(x: nat, y: nat, z: nat, xy: nat, yz: nat)
    requires xy % 2 == (x + y) % 2 && yz % 2 == (y + z) % 2
    ensures (xy + z) % 2 == (x + yz) % 2
  {
  }

  lemma {:induction false} XorAssociates(x: nat, y: nat, z: nat)
    ensures Xor(Xor(x, y), z) == Xor(x, Xor(y, z))
    decreases x + y + z
  {
    if x > 0 && y > 0 && z > 0 {
      XorAssociates(x / 2, y / 2, z / 2);
      AssociatedDigits(x, y, z, Xor(x, y), Xor(y, z), Xor(Xor(x, y), z), Xor(x, Xor(y, z)));
    } else {
      XorSame(x);
      XorSame(y);
      XorSame(z);
      XorSame(Xor(x, y));
      XorSame(Xor(y, z));
    }
  }

  /** Two sums with a common term differ by the other two terms. */
  lemma XorCancels(p: nat, x: nat, y: nat)
    ensures Xor(Xor(p, x), Xor(p, y)) == Xor(x, y)
    ensures Xor(x, Xor(p, y)) == Xor(p, Xor(x, y))
  {
    XorCommutes(p, x);
    XorAssociates(x, p, Xor(p, y));
    XorAssociates(p, p, y);
    XorSame(p);
    XorSame(y);
    XorAssociates(x, p, y);
    XorAssociates(p, x, y);
  }

  function Power2(n: nat): nat {
    if n == 0 then 1 else 2 * Power2(n - 1)
  }

  lemma {:induction false} XorFits(x: nat, y: nat, n: nat)
    requires x < Power2(n) && y < Power2(n)
    ensures Xor(x, y) < Power2(n)
    decreases n
  {
    if n > 0 {
      XorFits(x / 2, y / 2, n - 1);
      XorDigits(x, y);
    } else {
      XorSame(0);
    }
  }

  lemma WordPower()
    ensures Power2(32) == U32
  {
    assert Power2(8) == 256;
    assert Power2(16) == 0x1_0000 by {
      assert Power2(12) == 4096;
    }
    assert Power2(20) == 0x10_0000;
    assert Power2(24) == 0x100_0000;
    assert Power2(28) == 0x1000_0000;
  }

  // ---- word operations ----

  function Add(x: word, y: word): word {
    (x + y) % U32
  }

  /** The sum, or the sum less 2^32. */
  lemma AddWraps(x: word, y: word)
    ensures Add(x, y) == if x + y < U32 then x + y else x + y - U32
  {
  }

  function XorWord(x: word, y: word): word {
    WordPower();
    XorFits(x, y, 32);
    Xor(x, y)
  }

  /** Rotates left one bit at a time: the top digit comes back at the bottom. */
  function RotateLeft(x: word, bits: nat): word
    decreases bits, x
  {
    if bits == 0 then x else RotateLeft(x % 0x8000_0000 * 2 + x / 0x8000_0000, bits - 1)
  }
}

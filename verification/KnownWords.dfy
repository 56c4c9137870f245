/** What the constants, the order of the quarter rounds, and the rotations are, apart from their definitions. */
module KnownWords {
  import opened ChaCha
  import opened Machine
  import opened Words

  /** The columns of a double round go down the state; diagonal `c` starts at column `c` and moves one column right per row. */
  lemma ColumnsThenDiagonals(c: nat)
    requires c < 4
    ensures Schedule(c) == Slots(c, 4 + c, 8 + c, 12 + c)
    ensures Schedule(4 + c) == Slots(c, 4 + (c + 1) % 4, 8 + (c + 2) % 4, 12 + (c + 3) % 4)
  {
  }

  /** The four constants spell their text, least significant byte first. */
  lemma ConstantsSpell(w: nat)
    requires w < 4
    ensures var text := "expand 32-byte k";
            SIGMA[w] == text[4 * w] as int + 0x100 * (text[4 * w + 1] as int) + 0x1_0000 * (text[4 * w + 2] as int)
                        + 0x100_0000 * (text[4 * w + 3] as int)
  {
  }

  // ---- rotation ----

  /** The top digit of a word: one step of the rotation. */
  lemma OneStep(top: nat, rest: nat, x: word)
    requires top < 2 && rest < 0x8000_0000 && x == top * 0x8000_0000 + rest
    ensures x % 0x8000_0000 * 2 + x / 0x8000_0000 == 2 * rest + top
  {
  }

  lemma PartsFit(less: nat, low: nat, half: nat, p: nat)
    requires less < half && low < p && half * p == 0x8000_0000
    ensures less * p + low < 0x8000_0000
  {
    assert (less + 1) * p <= half * p;
  }

  lemma TopApart(high: nat, low: nat, half: nat, p: nat, top: nat, less: nat)
    requires high == top * half + less && half * p == 0x8000_0000
    ensures high * p + low == top * 0x8000_0000 + (less * p + low)
  {
    assert high * p == top * (half * p) + less * p;
  }

  lemma Regroups(top: nat, less: nat, low: nat, half: nat, p: nat)
    ensures 2 * (less * p + low) + top == less * (2 * p) + (2 * low + top)
    ensures (2 * low + top) * half + less == low * (2 * half) + (top * half + less)
  {
  }

  /** Rotating left by `bits` exchanges the upper digits with the lower ones. */
  lemma {:induction false} RotateExchanges(high: nat, low: nat, bits: nat, p: nat)
    requires low < p && high < Power2(bits) && Power2(bits) * p == U32 && high * p + low < U32
    ensures RotateLeft(high * p + low, bits) == low * Power2(bits) + high
    decreases bits
  {
    if bits > 0 {
      var half := Power2(bits - 1);
      Doubled(half, p);
      var top := if high >= half then 1 else 0;
      var less := high - top * half;
      PartsFit(less, low, half, p);
      TopApart(high, low, half, p, top, less);
      OneStep(top, less * p + low, high * p + low);
      Regroups(top, less, low, half, p);
      RotateExchanges(less, 2 * low + top, bits - 1, 2 * p);
    }
  }

  lemma Doubled(half: nat, p: nat)
    requires 2 * half * p == U32
    ensures half * p == 0x8000_0000 && half * (2 * p) == U32
  {
    assert 2 * half * p == 2 * (half * p);
    assert half * (2 * p) == 2 * (half * p);
  }
}

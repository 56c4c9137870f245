/** The ChaCha block function of sections 2.1 and 2.3 of RFC 8439, with 8 rounds, a 64-bit block counter, and no nonce. */
module ChaCha {
  import opened Machine
  import opened Words

  /** Sixteen words: constants, key, block counter, and two zero words. */
  type Block = s: seq<word> | |s| == 16 witness seq(16, i => 0)
  type Key = s: seq<word> | |s| == 8 witness seq(8, i => 0)

  const SIGMA: seq<word> := [0x6170_7865, 0x3320_646e, 0x7962_2d32, 0x6b20_6574]

  datatype Quad = Quad(a: word, b: word, c: word, d: word)

  function Quarter(q: Quad): Quad {
    var a := Add(q.a, q.b);
    var d := RotateLeft(XorWord(q.d, a), 16);
    var c := Add(q.c, d);
    var b := RotateLeft(XorWord(q.b, c), 12);
    var a := Add(a, b);
    var d := RotateLeft(XorWord(d, a), 8);
    var c := Add(c, d);
    var b := RotateLeft(XorWord(b, c), 7);
    Quad(a, b, c, d)
  }

  /** Four distinct state words. */
  predicate Four(a: nat, b: nat, c: nat, d: nat) {
    a < 16 && b < 16 && c < 16 && d < 16 && a != b && a != c && a != d && b != c && b != d && c != d
  }

  function QuarterAt(s: Block, a: nat, b: nat, c: nat, d: nat): Block
    requires Four(a, b, c, d)
  {
    var q := Quarter(Quad(s[a], s[b], s[c], s[d]));
    s[a := q.a][b := q.b][c := q.c][d := q.d]
  }

  datatype Slots = Slots(a: nat, b: nat, c: nat, d: nat)

  /** The state words of each quarter round of a double round: four columns, then four diagonals. */
  function Schedule(n: nat): (s: Slots)
    requires n < 8
    ensures Four(s.a, s.b, s.c, s.d)
  {
    match n
    case 0 => Slots(0, 4, 8, 12)
    case 1 => Slots(1, 5, 9, 13)
    case 2 => Slots(2, 6, 10, 14)
    case 3 => Slots(3, 7, 11, 15)
    case 4 => Slots(0, 5, 10, 15)
    case 5 => Slots(1, 6, 11, 12)
    case 6 => Slots(2, 7, 8, 13)
    case _ => Slots(3, 4, 9, 14)
  }

  /** The first `n` quarter rounds of a double round. */
  function Quarters(s: Block, n: nat): Block
    requires n <= 8
    decreases n, s
  {
    if n == 0 then s
    else
      var at := Schedule(n - 1);
      QuarterAt(Quarters(s, n - 1), at.a, at.b, at.c, at.d)
  }

  function DoubleRounds(s: Block, n: nat): Block
    decreases n, s
  {
    if n == 0 then s else Quarters(DoubleRounds(s, n - 1), 8)
  }

  function Start(key: Key, counter: nat): Block
    requires counter < U64
  {
    SIGMA + key + [counter % U32, counter / U32, 0, 0]
  }

  function BlockOf(key: Key, counter: nat): Block
    requires counter < U64
  {
    var start := Start(key, counter);
    var mixed := DoubleRounds(start, 4);
    seq(16, i requires 0 <= i < 16 => Add(mixed[i], start[i]))
  }

  /** The keystream word at `k`: the block counter wraps at 64 bits. */
  function KeyStream(key: Key, k: nat): word {
    BlockOf(key, k / 16 % U64)[k % 16]
  }

  lemma WordOfBlock(key: Key, q: nat, i: nat)
    requires i < 16
    ensures KeyStream(key, 16 * q + i) == BlockOf(key, q % U64)[i]
  {
    assert (16 * q + i) / 16 == q && (16 * q + i) % 16 == i;
  }

  // ---- the scalar generator ----

  method QuarterRound(s: array<word>, a: nat, b: nat, c: nat, d: nat)
    requires s.Length == 16 && Four(a, b, c, d)
    modifies s
    ensures s[..] == QuarterAt(old(s[..]), a, b, c, d)
  {
    s[a] := Add(s[a], s[b]);
    s[d] := XorWord(s[d], s[a]);
    s[d] := RotateLeft(s[d], 16);
    s[c] := Add(s[c], s[d]);
    s[b] := XorWord(s[b], s[c]);
    s[b] := RotateLeft(s[b], 12);
    s[a] := Add(s[a], s[b]);
    s[d] := XorWord(s[d], s[a]);
    s[d] := RotateLeft(s[d], 8);
    s[c] := Add(s[c], s[d]);
    s[b] := XorWord(s[b], s[c]);
    s[b] := RotateLeft(s[b], 7);
  }
}

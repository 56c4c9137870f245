/** A hasher behind a fixed buffer: many small writes reach it as few large updates. */
module Digest {
  import opened Machine
  import opened Varint

  const BUF_LEN := 1024

  /** The pieces joined in order. */
  function Joined(pieces: seq<seq<byte>>): seq<byte> {
    if pieces == [] then [] else Joined(pieces[..|pieces| - 1]) + pieces[|pieces| - 1]
  }

  lemma {:induction false} JoinedSplits(a: seq<seq<byte>>, b: seq<seq<byte>>)
    ensures Joined(a + b) == Joined(a) + Joined(b)
    decreases |b|
  {
    if b == [] {
      assert a + b == a;
    } else {
      var last := |b| - 1;
      JoinedSplits(a, b[..last]);
      assert (a + b)[..|a + b| - 1] == a + b[..last];
    }
  }

  /** Piece `k` stands where the pieces before it end. */
  lemma {:induction false} PieceAt(pieces: seq<seq<byte>>, k: nat)
    requires k < |pieces|
    ensures At(Joined(pieces), |Joined(pieces[..k])|, pieces[k])
    decreases |pieces|
  {
    var last := |pieces| - 1;
    var front := pieces[..last];
    if k == last {
      assert At(Joined(pieces), 0, Joined(pieces));
      AtSplits(Joined(pieces), 0, Joined(front), pieces[last]);
    } else {
      PieceAt(front, k);
      assert front[..k] == pieces[..k];
      AtInFront(Joined(front), pieces[last], |Joined(pieces[..k])|, pieces[k]);
    }
  }

  lemma AtInFront(front: seq<byte>, back: seq<byte>, pos: nat, w: seq<byte>)
    requires At(front, pos, w)
    ensures At(front + back, pos, w)
  {
    forall i | 0 <= i < |w|
      ensures (front + back)[pos + i] == w[i]
    {
      assert front[pos + i] == w[i];
    }
  }

  /** The hash of a byte string, in key-derivation mode for a context; any function will do. */
  type Hash = (string, seq<byte>) -> seq<byte>

  class BufferedHasher {
    const hash: Hash
    const context: string
    /** What the hasher behind the buffer has been given. */
    var absorbed: seq<byte>
    const buf: array<byte>
    var len: nat

    ghost predicate Valid()
      reads this
    {
      buf.Length == BUF_LEN && len <= BUF_LEN
    }

    /** All bytes put so far. */
    ghost function Fed(): seq<byte>
      requires Valid()
      reads this, buf
    {
      absorbed + buf[..len]
    }

    constructor (hash: Hash, context: string)
      ensures Valid() && Fed() == [] && fresh(buf) && this.hash == hash && this.context == context
    {
      this.hash := hash;
      this.context := context;
      absorbed := [];
      buf := new byte[BUF_LEN](i => 0);
      len := 0;
    }

    method Flush()
      requires Valid()
      modifies this
      ensures Valid() && len == 0 && Fed() == old(Fed()) == absorbed
    {
      absorbed := absorbed + buf[..len];
      len := 0;
    }

    /** Copies as much as the buffer has room for. */
    method Fill(bytes: seq<byte>) returns (take: nat)
      requires Valid() && len < BUF_LEN && bytes != []
      modifies this, buf
      ensures Valid() && 1 <= take <= |bytes| && Fed() == old(Fed()) + bytes[..take]
    {
      var room := BUF_LEN - len;
      take := if room < |bytes| then room else |bytes|;
      forall i | 0 <= i < take {
        buf[len + i] := bytes[i];
      }
      assert buf[..len + take] == old(buf[..len]) + bytes[..take];
      len := len + take;
    }

    method Put(bytes: seq<byte>)
      requires Valid()
      modifies this, buf
      ensures Valid() && Fed() == old(Fed()) + bytes
    {
      var rest := bytes;
      while rest != []
        invariant Valid() && Fed() + rest == old(Fed()) + bytes
        decreases |rest|
      {
        if len == BUF_LEN {
          Flush();
        }
        ghost var before := Fed();
        var take := Fill(rest);
        assert before + rest == (before + rest[..take]) + rest[take..];
        rest := rest[take..];
      }
    }

    method Finish() returns (digest: seq<byte>)
      requires Valid()
      modifies this
      ensures digest == hash(context, old(Fed()))
    {
      Flush();
      digest := hash(context, absorbed);
    }
  }

  /** However the bytes are split into puts, the digest is the hash of all of them. */
  method DigestOfPieces(hash: Hash, context: string, pieces: seq<seq<byte>>) returns (digest: seq<byte>)
    ensures digest == hash(context, Joined(pieces))
  {
    var hasher := new BufferedHasher(hash, context);
    for k := 0 to |pieces|
      invariant hasher.Valid() && fresh(hasher) && fresh(hasher.buf) && hasher.Fed() == Joined(pieces[..k])
    {
      hasher.Put(pieces[k]);
      assert pieces[..k + 1][..k] == pieces[..k];
    }
    assert pieces[..|pieces|] == pieces;
    digest := hasher.Finish();
  }
}

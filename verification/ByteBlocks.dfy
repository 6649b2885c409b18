/**
 The bytes of 64-bit words in memory order (little-endian), and what
 `fill_bytes` leaves in a buffer.
 */
module ByteBlocks {
  import opened Words

  /** The eight bytes `memcpy` copies out of a word. */
  function Block(v: bv64): (r: seq<byte>)
    ensures |r| == 8
  {
    [(v & 0xff) as byte, ((v >> 8) & 0xff) as byte, ((v >> 16) & 0xff) as byte, ((v >> 24) & 0xff) as byte,
     ((v >> 32) & 0xff) as byte, ((v >> 40) & 0xff) as byte, ((v >> 48) & 0xff) as byte, ((v >> 56) & 0xff) as byte]
  }

  /** The word `memcpy` builds from eight bytes. */
  function Unblock(b: seq<byte>): bv64
    requires |b| == 8
  {
    (b[0] as bv64) | ((b[1] as bv64) << 8) | ((b[2] as bv64) << 16) | ((b[3] as bv64) << 24)
    | ((b[4] as bv64) << 32) | ((b[5] as bv64) << 40) | ((b[6] as bv64) << 48) | ((b[7] as bv64) << 56)
  }

  lemma UnblockBlock(v: bv64)
    ensures Unblock(Block(v)) == v
  {}

  /** The first byte is the least significant. */
  lemma LittleEndian(b: seq<byte>)
    requires |b| == 8
    ensures Unblock(b) == (b[0] as bv64) + 256 * ((b[1] as bv64) + 256 * ((b[2] as bv64) + 256 * ((b[3] as bv64)
                        + 256 * ((b[4] as bv64) + 256 * ((b[5] as bv64) + 256 * ((b[6] as bv64) + 256 * (b[7] as bv64)))))))
  {}

  /** The bytes of a sequence of words, in order. */
  function Blocks(ws: seq<bv64>): (r: seq<byte>)
    ensures |r| == 8 * |ws|
  {
    if ws == [] then [] else Blocks(ws[..|ws| - 1]) + Block(ws[|ws| - 1])
  }

  lemma BlocksNil()
    ensures Blocks([]) == []
  {}

  lemma BlocksSnoc(ws: seq<bv64>, w: bv64)
    ensures Blocks(ws + [w]) == Blocks(ws) + Block(w)
  {
    assert (ws + [w])[..|ws|] == ws;
  }

  /** The `i`-th group of eight bytes is the `i`-th word: reading it back gives the word. */
  lemma {:induction false} UnblockBlocks(ws: seq<bv64>, i: nat)
    requires i < |ws|
    ensures Unblock(Blocks(ws)[8 * i..8 * i + 8]) == ws[i]
  {
    var init := ws[..|ws| - 1];
    var last := ws[|ws| - 1];
    if i == |ws| - 1 {
      assert Blocks(ws)[8 * i..8 * i + 8] == Block(last);
      UnblockBlock(last);
    } else {
      assert Blocks(ws)[8 * i..8 * i + 8] == Blocks(init)[8 * i..8 * i + 8];
      UnblockBlocks(init, i);
    }
  }

  /**
   How many words `fill_bytes` draws for `n` bytes: one for each whole group of
   eight, and always one more, even when no byte is left for it.
   */
  function WordsFor(n: nat): nat { n / 8 + 1 }

  /** What `fill_bytes` writes: the first `n` bytes of the words drawn. */
  function Filling(ws: seq<bv64>, n: nat): (r: seq<byte>)
    requires |ws| == WordsFor(n)
    ensures |r| == n
  {
    Blocks(ws)[..n]
  }

  /** The last word fills what the whole groups leave over, possibly nothing. */
  lemma FillingSnoc(ws: seq<bv64>, w: bv64, n: nat)
    requires |ws| == n / 8
    ensures |ws + [w]| == WordsFor(n)
    ensures Filling(ws + [w], n) == Blocks(ws) + Block(w)[..n - 8 * |ws|]
  {
    BlocksSnoc(ws, w);
  }

  /** Byte by byte: byte `k` of the buffer is byte `k % 8` of word `k / 8`, of `n / 8 + 1` words. */
  lemma FillingAt(ws: seq<bv64>, n: nat, k: nat)
    requires |ws| == n / 8 + 1 && k < n
    ensures Filling(ws, n)[k] == Block(ws[k / 8])[k % 8]
  {
    hide Block;
    BlocksAt(ws, k);
  }

  lemma {:induction false} BlocksAt(ws: seq<bv64>, k: nat)
    requires k < 8 * |ws|
    ensures Blocks(ws)[k] == Block(ws[k / 8])[k % 8]
    decreases |ws|
  {
    hide Block;
    var n := |ws| - 1;
    if k < 8 * n {
      BlocksAt(ws[..n], k);
    }
  }

  /** Copying the first `count` bytes of a word into a buffer at `offset`. */
  method CopyWord(buf: array<byte>, offset: nat, count: nat, w: bv64)
    requires count <= 8 && offset + count <= buf.Length
    modifies buf
    ensures buf[..] == old(buf[..offset]) + Block(w)[..count] + old(buf[offset + count..])
  {
    var bytes := Block(w);
    for i := 0 to count
      invariant forall k | 0 <= k < buf.Length ::
                  buf[k] == if offset <= k < offset + i then bytes[k - offset] else old(buf[k])
    {
      buf[offset + i] := bytes[i];
    }
  }
}

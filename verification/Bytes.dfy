/** Disk blocks as bytes, and the little-endian view of them as 32-bit words
    that the kernel gets by casting a byte buffer to uint32_t*. */
module Bytes {
  type byte = x: int | 0 <= x < 256
  type word = x: int | 0 <= x < 0x1_0000_0000

  const BLOCK_SIZE: nat := 512
  const WORDS_PER_BLOCK: nat := 128

  type Block = b: seq<byte> | |b| == BLOCK_SIZE witness seq(BLOCK_SIZE, _ => 0)

  // An uninitialised or never-addressed block, where a total function needs some value.
  function ZeroBlock(): Block {
    seq(BLOCK_SIZE, _ => 0)
  }

  /** What a buffer holds after a read of block a: the disk refuses addresses beyond its end, and the
      buffer then keeps what it held. */
  function ReadOver(d: seq<Block>, a: word, was: Block): Block {
    if a < |d| then d[a] else was
  }

  function WordAt(b: seq<byte>, i: nat): word
    requires 4 * i + 4 <= |b|
  {
    var b0: int, b1: int, b2: int, b3: int := b[4 * i], b[4 * i + 1], b[4 * i + 2], b[4 * i + 3];
    b0 + 0x100 * b1 + 0x1_0000 * b2 + 0x100_0000 * b3
  }

  function ByteOf(w: word, k: nat): byte
    requires k < 4
  {
    if k == 0 then w % 0x100
    else if k == 1 then w / 0x100 % 0x100
    else if k == 2 then w / 0x1_0000 % 0x100
    else w / 0x100_0000
  }

  function ToWords(b: seq<byte>): (ws: seq<word>)
    ensures |ws| == |b| / 4
  {
    seq(|b| / 4, i requires 0 <= i < |b| / 4 => WordAt(b, i))
  }

  function ToBytes(ws: seq<word>): (b: seq<byte>)
    ensures |b| == 4 * |ws|
  {
    seq(4 * |ws|, j requires 0 <= j < 4 * |ws| => ByteOf(ws[j / 4], j % 4))
  }

  lemma ByteSplit(w: word)
    ensures w == ByteOf(w, 0) as int + 0x100 * ByteOf(w, 1) as int
                 + 0x1_0000 * ByteOf(w, 2) as int + 0x100_0000 * ByteOf(w, 3) as int
  {
    Quotient(w, 0x100, 0x100);
    Quotient(w, 0x1_0000, 0x100);
    assert ByteOf(w, 0) as int == w - 0x100 * (w / 0x100);
    assert ByteOf(w, 1) as int == w / 0x100 - 0x100 * (w / 0x1_0000);
    assert ByteOf(w, 2) as int == w / 0x1_0000 - 0x100 * (w / 0x100_0000);
  }

  /** Words are stored least significant byte first. */
  lemma LittleEndian(ws: seq<word>, i: nat)
    requires i < |ws|
    ensures ws[i] == ToBytes(ws)[4 * i] as int + 0x100 * ToBytes(ws)[4 * i + 1] as int
                     + 0x1_0000 * ToBytes(ws)[4 * i + 2] as int + 0x100_0000 * ToBytes(ws)[4 * i + 3] as int
  {
    hide ByteOf;
    ByteSplit(ws[i]);
  }

  lemma Quotient(w: nat, m: nat, n: nat)
    requires (m == 0x100 || m == 0x1_0000) && n == 0x100
    ensures w / m / n == w / (m * n)
  {
  }

  /** Storing words over the front of a block and reading the block back as words
      gives the stored words followed by the words that were there before. */
  lemma {:induction false} WordsAfterStore(ws: seq<word>, was: seq<byte>)
    requires 4 * |ws| <= |was| && |was| % 4 == 0
    ensures ToWords(ToBytes(ws) + was[4 * |ws|..]) == ws + ToWords(was)[|ws|..]
  {
    var b := ToBytes(ws) + was[4 * |ws|..];
    forall i | 0 <= i < |was| / 4
      ensures ToWords(b)[i] == (ws + ToWords(was)[|ws|..])[i]
    {
      if i < |ws| {
        StoredWord(ws, b, i);
      } else {
        assert b[4 * i] == was[4 * i] && b[4 * i + 1] == was[4 * i + 1];
        assert b[4 * i + 2] == was[4 * i + 2] && b[4 * i + 3] == was[4 * i + 3];
      }
    }
  }

  lemma StoredWord(ws: seq<word>, b: seq<byte>, i: nat)
    requires i < |ws| && ToBytes(ws) <= b
    ensures WordAt(b, i) == ws[i]
  {
    var s := ToBytes(ws);
    assert b[4 * i] == s[4 * i] == ByteOf(ws[i], 0);
    assert b[4 * i + 1] == s[4 * i + 1] == ByteOf(ws[i], 1);
    assert b[4 * i + 2] == s[4 * i + 2] == ByteOf(ws[i], 2);
    assert b[4 * i + 3] == s[4 * i + 3] == ByteOf(ws[i], 3);
    ByteSplit(ws[i]);
  }

  /** The word view of a block built from words is those words. */
  lemma {:induction false} WordsRoundTrip(ws: seq<word>)
    ensures ToWords(ToBytes(ws)) == ws
  {
    var b := ToBytes(ws);
    assert b + b[4 * |ws|..] == b;
    WordsAfterStore(ws, b);
  }

  lemma BytesOfWord(b: seq<byte>, i: nat)
    requires 4 * i + 4 <= |b|
    ensures forall k | 0 <= k < 4 :: ByteOf(WordAt(b, i), k) == b[4 * i + k]
  {
    var b0: int, b1: int, b2: int, b3: int := b[4 * i], b[4 * i + 1], b[4 * i + 2], b[4 * i + 3];
    var w: int := WordAt(b, i);
    assert w == b0 + 0x100 * (b1 + 0x100 * (b2 + 0x100 * b3));
    assert w % 0x100 == b0 && w / 0x100 == b1 + 0x100 * (b2 + 0x100 * b3);
    assert w / 0x1_0000 == w / 0x100 / 0x100 == b2 + 0x100 * b3;
    assert w / 0x100_0000 == w / 0x1_0000 / 0x100 == b3;
  }
}

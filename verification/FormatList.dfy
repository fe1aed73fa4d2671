/** The free list that a format (wipe) lays out: which block sits at which depth. */
module FormatList {
  import opened Bytes
  import opened Formats
  import opened FreeChain

  const CHUNKS: nat := 30
  const LIST_LEN: nat := 1981
  const SKIPPED: nat := 1986

  // The 64 words wipe writes into chunk block 66 + i.
  function FormatChunk(i: nat): (ws: FreeList)
    requires i < CHUNKS
  {
    [if i == CHUNKS - 1 then END_MARK else i + 1 + FIRST_DATA]
    + seq(63, j requires 0 <= j < 63 => 63 * i + j + (FIRST_DATA + CHUNKS))
  }

  ghost predicate Formatted(d: seq<Block>, upto: nat)
    requires |d| == DISK_BLOCKS && upto <= CHUNKS
  {
    forall i | 0 <= i < upto :: Chunk(d, FIRST_DATA + i) == FormatChunk(i)
  }

  function ChunkAddrs(i: nat): (c: seq<word>)
    requires i <= CHUNKS
  {
    seq(CHUNKS - i, j requires 0 <= j < CHUNKS - i => FIRST_DATA + i + j)
  }

  // The block at depth k of the formatted list, bottom first.
  function FormatAt(k: nat): word
    requires k < LIST_LEN
  {
    if k < FDB_WORDS * CHUNKS then
      var i := CHUNKS - 1 - k / FDB_WORDS;
      if k % FDB_WORDS < 63 then 63 * i + k % FDB_WORDS + 96 else FIRST_DATA + i
    else k + 67
  }

  // Where a data block other than 1986 sits in the formatted list.
  function DepthOf(a: word): (k: nat)
    requires IsData(a) && a != SKIPPED
    ensures k < LIST_LEN
  {
    if a < 96 then FDB_WORDS * (95 - a) + 63
    else if a < SKIPPED then FDB_WORDS * (29 - (a - 96) / 63) + (a - 96) % 63
    else a - 67
  }

  ghost function FormatStack(): (s: seq<word>)
    ensures |s| == LIST_LEN
  {
    seq(LIST_LEN, k requires 0 <= k < LIST_LEN => FormatAt(k))
  }

  lemma DepthInverse(a: word)
    requires IsData(a) && a != SKIPPED
    ensures FormatAt(DepthOf(a)) == a
  {
    if 96 <= a < SKIPPED {
      var i, r := (a - 96) / 63, (a - 96) % 63;
      var k := DepthOf(a);
      assert k / FDB_WORDS == 29 - i && k % FDB_WORDS == r;
    } else if a < 96 {
      var k := DepthOf(a);
      assert k / FDB_WORDS == 95 - a && k % FDB_WORDS == 63;
    }
  }

  lemma AtInverse(k: nat)
    requires k < LIST_LEN
    ensures IsData(FormatAt(k)) && FormatAt(k) != SKIPPED && DepthOf(FormatAt(k)) == k
  {
    if k < FDB_WORDS * CHUNKS {
      var i, r := CHUNKS - 1 - k / FDB_WORDS, k % FDB_WORDS;
      assert 0 <= i < CHUNKS && k == FDB_WORDS * (CHUNKS - 1 - i) + r;
      if r < 63 {
        Split63(i, r);
        assert FormatAt(k) == 63 * i + r + 96;
      } else {
        assert FormatAt(k) == FIRST_DATA + i;
      }
    }
  }

  lemma Split63(i: nat, r: nat)
    requires r < 63
    ensures (63 * i + r) / 63 == i && (63 * i + r) % 63 == r
  {
  }

  /** A format hands every data block to the free list exactly once, except block 1986,
      which it leaves out. */
  lemma FormatCovers()
    ensures forall a: word :: a in FormatStack() <==> IsData(a) && a != SKIPPED
    ensures forall j, k :: 0 <= j < k < LIST_LEN ==> FormatStack()[j] != FormatStack()[k]
  {
    forall a: word
      ensures a in FormatStack() <==> IsData(a) && a != SKIPPED
    {
      if IsData(a) && a != SKIPPED {
        DepthInverse(a);
        assert FormatStack()[DepthOf(a)] == a;
      }
      if a in FormatStack() {
        var k :| 0 <= k < LIST_LEN && FormatStack()[k] == a;
        AtInverse(k);
      }
    }
    forall j, k | 0 <= j < k < LIST_LEN
      ensures FormatStack()[j] != FormatStack()[k]
    {
      AtInverse(j);
      AtInverse(k);
    }
  }

  /** The 30 chunks, linked 66, 67, ..., 95, 1, form a well-formed chain with exactly this contents. */
  lemma {:induction false} FormatChain(d: seq<Block>, i: nat)
    requires |d| == DISK_BLOCKS && Formatted(d, CHUNKS) && i <= CHUNKS
    ensures ChainOk(d, if i == CHUNKS then END_MARK else FIRST_DATA + i, ChunkAddrs(i))
    ensures ChunkStack(d, ChunkAddrs(i)) == FormatStack()[..FDB_WORDS * (CHUNKS - i)]
    decreases CHUNKS - i
  {
    hide Chunk, FormatStack;
    if i < CHUNKS {
      FormatChain(d, i + 1);
      var c := ChunkAddrs(i);
      assert c[0] == FIRST_DATA + i;
      assert c[1..] == ChunkAddrs(i + 1);
      assert Chunk(d, FIRST_DATA + i) == FormatChunk(i);
      FormatLayer(i);
      assert FormatStack()[..FDB_WORDS * (CHUNKS - i)]
          == FormatStack()[..FDB_WORDS * (CHUNKS - 1 - i)] + (FormatChunk(i)[1..] + [FIRST_DATA + i]);
    }
  }

  lemma FormatLayer(i: nat)
    requires i < CHUNKS
    ensures FormatStack()[FDB_WORDS * (CHUNKS - 1 - i)..FDB_WORDS * (CHUNKS - i)]
         == FormatChunk(i)[1..] + [FIRST_DATA + i]
  {
    var base, layer := FDB_WORDS * (CHUNKS - 1 - i), FormatChunk(i)[1..] + [FIRST_DATA + i];
    forall k | base <= k < base + FDB_WORDS
      ensures FormatAt(k) == layer[k - base]
    {
      assert k / FDB_WORDS == CHUNKS - 1 - i && k % FDB_WORDS == k - base;
    }
  }
}

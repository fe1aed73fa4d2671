/** The free-block list as mathematics: the superblock holds the top chunk, and each full
    chunk below it lies in a free block, linked through word 0 and ending at address 1. */
module FreeChain {
  import opened Bytes
  import opened Formats

  const DISK_BLOCKS: nat := 2048
  const FIRST_DATA: nat := 66
  const END_MARK: word := 1

  predicate IsData(a: int) {
    FIRST_DATA <= a < DISK_BLOCKS
  }

  // The first 64 words of block `a`: word 0 links to the next chunk, the others are free addresses.
  function Chunk(d: seq<Block>, a: word): (ws: seq<word>)
    ensures |ws| == FDB_WORDS
  {
    if a < |d| then ToWords(d[a])[..FDB_WORDS] else seq(FDB_WORDS, _ => 0)
  }

  /** `chain` lists the chunk blocks that lie below a chunk whose word 0 is `a`. */
  ghost predicate ChainOk(d: seq<Block>, a: word, chain: seq<word>)
    requires |d| == DISK_BLOCKS
    decreases chain
  {
    if chain == [] then a == END_MARK
    else a == chain[0] && IsData(a) && ChainOk(d, Chunk(d, a)[0], chain[1..])
  }

  /** The free blocks that the chunks on disk account for, next to be handed out last. */
  ghost function ChunkStack(d: seq<Block>, chain: seq<word>): seq<word>
    decreases chain
  {
    if chain == [] then []
    else ChunkStack(d, chain[1..]) + Chunk(d, chain[0])[1..] + [chain[0]]
  }

  /** The whole free list as one stack, top last. */
  ghost function FreeStack(d: seq<Block>, fdb: seq<word>, head: nat, chain: seq<word>): seq<word>
    requires head < |fdb|
  {
    ChunkStack(d, chain) + fdb[1..head + 1]
  }

  /** Writing outside the chunk blocks does not disturb the free list. */
  lemma {:induction false} ChainFrame(d: seq<Block>, d': seq<Block>, a: word, chain: seq<word>)
    requires |d| == |d'| == DISK_BLOCKS && ChainOk(d, a, chain)
    requires forall c | c in chain :: IsData(c) && d'[c] == d[c]
    ensures ChainOk(d', a, chain) && ChunkStack(d', chain) == ChunkStack(d, chain)
    decreases chain
  {
    if chain != [] {
      assert forall c | c in chain[1..] :: c in chain;
      ChainFrame(d, d', Chunk(d, a)[0], chain[1..]);
    }
  }

  lemma {:induction false} ChunksAreFree(d: seq<Block>, chain: seq<word>)
    ensures forall c | c in chain :: c in ChunkStack(d, chain)
    decreases chain
  {
    if chain != [] {
      ChunksAreFree(d, chain[1..]);
    }
  }

  /** Every chunk on disk is full: it accounts for 63 free blocks and itself. */
  lemma {:induction false} ChunksAreFull(d: seq<Block>, chain: seq<word>)
    ensures |ChunkStack(d, chain)| == FDB_WORDS * |chain|
    decreases chain
  {
    if chain != [] {
      ChunksAreFull(d, chain[1..]);
    }
  }

  lemma {:induction false} ChainSuffix(d: seq<Block>, a: word, chain: seq<word>, i: nat)
    requires |d| == DISK_BLOCKS && ChainOk(d, a, chain) && i < |chain|
    ensures ChainOk(d, chain[i], chain[i..])
    decreases i
  {
    if i > 0 {
      ChainSuffix(d, Chunk(d, a)[0], chain[1..], i - 1);
      assert chain[1..][i - 1..] == chain[i..];
    }
  }

  /** The same first chunk gives the same chain. */
  lemma {:induction false} ChainUnique(d: seq<Block>, a: word, c1: seq<word>, c2: seq<word>)
    requires |d| == DISK_BLOCKS && ChainOk(d, a, c1) && ChainOk(d, a, c2)
    ensures c1 == c2
    decreases c1
  {
    if c1 != [] && c2 != [] {
      ChainUnique(d, Chunk(d, a)[0], c1[1..], c2[1..]);
      assert c1 == [a] + c1[1..] && c2 == [a] + c2[1..];
    }
  }

  /** The chain of chunk blocks never visits a block twice. */
  lemma ChainAcyclic(d: seq<Block>, a: word, chain: seq<word>)
    requires |d| == DISK_BLOCKS && ChainOk(d, a, chain)
    ensures forall i, j :: 0 <= i < j < |chain| ==> chain[i] != chain[j]
  {
    forall i, j | 0 <= i < j < |chain|
      ensures chain[i] != chain[j]
    {
      if chain[i] == chain[j] {
        ChainSuffix(d, a, chain, i);
        ChainSuffix(d, a, chain, j);
        ChainUnique(d, chain[i], chain[i..], chain[j..]);
        assert false;
      }
    }
  }

  /** What a boot finds in block 1 of a disk image: a well-formed free list holding `stack`. */
  ghost predicate BootsVia(d: seq<Block>, chain: seq<word>, stack: seq<word>)
  {
    |d| == DISK_BLOCKS
    && var s := DecodeSuper(d[1]);
    && s.geo == GEOMETRY
    && s.fdbhead < FDB_WORDS
    && ChainOk(d, s.fdb[0], chain)
    && (forall c | c in chain :: IsData(c))
    && FreeStack(d, s.fdb, s.fdbhead, chain) == stack
  }

  ghost predicate Boots(d: seq<Block>, stack: seq<word>)
  {
    exists chain :: BootsVia(d, chain, stack)
  }

  /** A disk image boots with one free list only. */
  lemma BootsUnique(d: seq<Block>, s1: seq<word>, s2: seq<word>)
    requires Boots(d, s1) && Boots(d, s2)
    ensures s1 == s2
  {
    var c1 :| BootsVia(d, c1, s1);
    var c2 :| BootsVia(d, c2, s2);
    ChainUnique(d, DecodeSuper(d[1]).fdb[0], c1, c2);
  }

  /** Taking over the top chunk leaves the same stack minus the chunk block itself. */
  lemma RefillStack(d: seq<Block>, chain: seq<word>)
    requires |d| == DISK_BLOCKS && chain != []
    ensures ChunkStack(d, chain)
         == FreeStack(d, Chunk(d, chain[0]), FDB_WORDS - 1, chain[1..]) + [chain[0]]
  {
  }

  /** Spilling a full in-memory chunk into block `a` puts `a` on top of the same stack. */
  lemma SpillStack(d: seq<Block>, fdb: FreeList, chain: seq<word>, a: word)
    requires |d| == DISK_BLOCKS && ChainOk(d, fdb[0], chain) && IsData(a) && a !in chain
    requires forall c | c in chain :: IsData(c)
    ensures var d' := d[a := ToBytes(fdb) + d[a][4 * FDB_WORDS..]];
            ChainOk(d', a, [a] + chain)
            && ChunkStack(d', [a] + chain) == FreeStack(d, fdb, FDB_WORDS - 1, chain) + [a]
  {
    var b: Block := ToBytes(fdb) + d[a][4 * FDB_WORDS..];
    var d' := d[a := b];
    WordsAfterStore(fdb, d[a]);
    assert Chunk(d', a) == fdb;
    ChainFrame(d, d', fdb[0], chain);
    assert ([a] + chain)[1..] == chain;
    assert fdb[1..] == fdb[1..FDB_WORDS];
  }
}

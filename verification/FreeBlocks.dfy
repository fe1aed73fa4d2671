/** The superblock in memory, the disk under it, and the block allocator. */
module FreeBlocks {
  import opened Bytes
  import opened Formats
  import opened FreeChain
  import opened FormatList

  class Store {
    var disk: seq<Block>

    // fs_t
    var geo: Geometry
    var fdbhead: word
    const fdb: array<word>
    var tail: SuperTail

    // The chunk blocks on disk, next to be used first, and the disk image after every write.
    ghost var chain: seq<word>
    ghost var log: seq<seq<Block>>

    ghost predicate Sized()
      reads this
    {
      |disk| == DISK_BLOCKS && fdb.Length == FDB_WORDS
    }

    ghost predicate Listed()
      reads this, fdb
    {
      && Sized()
      && geo == GEOMETRY
      && fdbhead < FDB_WORDS
      && ChainOk(disk, fdb[0], chain)
      && (forall c | c in chain :: IsData(c))
    }

    /** Well-formed, and block 1 holds what memory holds. */
    ghost predicate Ok()
      reads this, fdb
    {
      Listed() && disk[1] == EncodeSuper(Sb())
    }

    function Sb(): Super
      requires fdb.Length == FDB_WORDS
      reads this, fdb
    {
      Super(geo, fdbhead, fdb[..], tail)
    }

    ghost function Stack(): seq<word>
      requires Listed()
      reads this, fdb
    {
      FreeStack(disk, fdb[..], fdbhead, chain)
    }

    // Every disk image since `since` boots with one of the two free lists.
    ghost predicate CrashSafe(since: seq<seq<Block>>, before: seq<word>, after: seq<word>)
      reads this
    {
      since <= log && forall j | |since| <= j < |log| :: Boots(log[j], before) || Boots(log[j], after)
    }

    // Every disk image since `since` is d but for blocks 1 and a.
    ghost predicate OnlyIn(since: seq<seq<Block>>, d: seq<Block>, a: word)
      reads this
    {
      |since| <= |log| && forall j | |since| <= j < |log| ::
        |log[j]| == |d| && forall b | 0 <= b < |d| && b != 1 && b != a as int :: log[j][b] == d[b]
    }

    constructor (image: seq<Block>)
      requires |image| == DISK_BLOCKS
      ensures fresh(fdb) && Sized() && disk == image && log == []
    {
      disk := image;
      fdb := new word[FDB_WORDS](_ => 0);
      geo, fdbhead, tail := Geometry(0, 0, 0, 0, 0, 0), 0, seq(57, _ => 0);
      chain, log := [], [];
    }

    /** disk_rd into a buffer that holds `was`. */
    method DiskRd(a: word, was: Block := ZeroBlock()) returns (b: Block)
      ensures b == ReadOver(disk, a, was)
    {
      b := if a < |disk| then disk[a] else was;
    }

    /** Overwrites only the first |x| bytes of block a, and nothing if a is beyond the disk. A write
        anywhere but block 1 and the chunk blocks leaves the free list as it was. */
    method DiskWr(a: word, x: seq<byte>)
      requires |x| <= BLOCK_SIZE
      modifies this`disk, this`log
      ensures a < |old(disk)| ==> disk == old(disk)[a := x + old(disk)[a][|x|..]] && log == old(log) + [disk]
      ensures a >= |old(disk)| ==> disk == old(disk) && log == old(log)
      ensures old(Ok()) && a != 1 && a !in chain ==> Ok() && Stack() == old(Stack())
    {
      hide EncodeSuper;
      if a >= |disk| {
        return;
      }
      disk := disk[a := x + disk[a][|x|..]];
      log := log + [disk];
      if old(Ok()) && a != 1 && a !in chain {
        ChainFrame(old(disk), disk, fdb[0], chain);
      }
    }

    /** disk_rd and disk_wr where the kernel relies on them: the block is one of the disk, so the request is
        not refused. All calls but those that follow the words of a broken index tree are of this kind. */
    method ReadBlock(a: word) returns (b: Block)
      requires Sized() && a < DISK_BLOCKS
      ensures b == disk[a]
    {
      b := DiskRd(a);
    }

    method WriteBlock(a: word, x: seq<byte>)
      requires Sized() && a < DISK_BLOCKS && |x| <= BLOCK_SIZE
      modifies this`disk, this`log
      ensures disk == old(disk)[a := x + old(disk)[a][|x|..]] && log == old(log) + [disk]
      ensures old(Ok()) && a != 1 && a !in chain ==> Ok() && Stack() == old(Stack())
    {
      DiskWr(a, x);
    }

    method WriteSuper()
      requires Listed()
      modifies this`disk, this`log
      ensures disk == old(disk)[1 := EncodeSuper(Sb())]
      ensures log == old(log) + [disk]
      ensures Ok() && Stack() == old(Stack()) && Boots(disk, Stack())
    {
      hide EncodeSuper, BootsVia, Boots;
      WriteBlock(geo.sblkno, EncodeSuper(Sb()));
      ChainFrame(old(disk), disk, fdb[0], chain);
      ImageBoots(disk, Sb(), chain);
    }

    lemma NowBoots()
      requires Ok()
      ensures Boots(disk, Stack())
    {
      hide EncodeSuper, Boots;
      ImageBoots(disk, Sb(), chain);
    }

    /** Power-on: block 1 becomes the superblock in memory. */
    method Boot(ghost stack: seq<word>)
      requires Sized() && Boots(disk, stack)
      modifies this, fdb
      ensures Ok() && Stack() == stack && disk == old(disk) && log == old(log)
    {
      hide EncodeSuper, DecodeSuper;
      var b := ReadBlock(1);
      var s := DecodeSuper(b);
      geo, fdbhead, tail := s.geo, s.fdbhead, s.tail;
      forall i | 0 <= i < FDB_WORDS {
        fdb[i] := s.fdb[i];
      }
      assert fdb[..] == s.fdb;
      ghost var c :| BootsVia(disk, c, stack);
      chain := c;
      SuperSurjective(b);
    }

    /** Block allocation: pops the free stack. -1 exactly when nothing is free. */
    method Balloc() returns (addr: int)
      requires Ok()
      modifies this, fdb
      ensures Ok()
      ensures old(Stack()) == [] <==> addr == -1
      ensures addr == -1 ==> disk == old(disk) && Stack() == old(Stack())
      ensures addr != -1 ==> Stack() + [addr] == old(Stack()) && disk == old(disk)[1 := EncodeSuper(Sb())]
      ensures CrashSafe(old(log), old(Stack()), Stack())
    {
      hide EncodeSuper, ToWords, BootsVia;
      if fdbhead > 0 {
        fdbhead := fdbhead - 1;
        assert fdb[1..fdbhead + 2] == fdb[1..fdbhead + 1] + [fdb[fdbhead + 1]];
        WriteSuper();
        return fdb[fdbhead + 1];
      }

      if fdb[fdbhead] != END_MARK {
        addr := fdb[fdbhead];
        Refill(addr);
        return addr;
      }

      return -1;
    }

    // The refilling branch of balloc: the chunk block itself is handed out.
    method Refill(a: word)
      requires Ok() && fdbhead == 0 && a == fdb[0] && a != END_MARK
      modifies this, fdb
      ensures Ok() && disk == old(disk)[1 := EncodeSuper(Sb())]
      ensures Stack() + [a] == old(Stack())
      ensures log == old(log) + [disk] && Boots(disk, Stack())
    {
      hide EncodeSuper, BootsVia, Boots, ToWords;
      var block := ReadBlock(a);
      RefillStack(disk, chain);
      forall i | 0 <= i < FDB_WORDS {
        fdb[i] := ToWords(block)[i];
      }
      assert fdb[..] == Chunk(disk, a);
      fdbhead := 63;
      chain := chain[1..];
      WriteSuper();
    }

    /** Block deallocation: pushes onto the free stack; 1 when the in-memory chunk was full
        and had to be spilled into the freed block. */
    method Bfree(a: word) returns (r: int)
      requires Ok() && IsData(a)
      requires fdbhead == 63 ==> a !in chain
      modifies this, fdb
      ensures Ok() && Stack() == old(Stack()) + [a]
      ensures r == if old(fdbhead) == 63 then 1 else 0
      ensures fdbhead == (old(fdbhead) + 1) % 64
      ensures old(fdbhead) == 63 ==> chain == [a] + old(chain) && disk[a] == ToBytes(old(fdb[..])) + old(disk[a])[256..]
      ensures old(fdbhead) < 63 ==>
                chain == old(chain) && disk[a] == old(disk[a]) && fdb[..] == old(fdb[..][fdbhead + 1 := a])
      ensures forall b | 0 <= b < |disk| && b != 1 && b != a :: disk[b] == old(disk[b])
      ensures CrashSafe(old(log), old(Stack()), Stack()) && OnlyIn(old(log), old(disk), a)
    {
      hide EncodeSuper, BootsVia, Boots, ToBytes;
      if fdbhead < 63 {
        fdbhead := fdbhead + 1;
        fdb[fdbhead] := a;
        assert fdb[1..fdbhead + 1] == old(fdb[1..fdbhead + 1]) + [a];
        WriteSuper();
        return 0;
      }
      Spill(a);
      return 1;
    }

    // The spilling branch of bfree.
    method Spill(a: word)
      requires Ok() && IsData(a) && fdbhead == 63 && a !in chain
      modifies this, fdb
      ensures Ok() && Stack() == old(Stack()) + [a] && fdbhead == 0 && chain == [a] + old(chain)
      ensures disk[a] == ToBytes(old(fdb[..])) + old(disk[a])[256..]
      ensures forall b | 0 <= b < |disk| && b != 1 && b != a :: disk[b] == old(disk[b])
      ensures CrashSafe(old(log), old(Stack()), Stack()) && OnlyIn(old(log), old(disk), a)
    {
      hide EncodeSuper, BootsVia, Boots, ToBytes, ChainOk, ChunkStack;
      SpillStack(disk, fdb[..], chain, a);
      SpilledImageBoots(disk, Sb(), chain, a);
      WriteBlock(a, ToBytes(fdb[..]));
      label wrote:
      fdb[0] := a;
      fdbhead := 0;
      chain := [a] + chain;
      assert fdb[1..1] == [];
      WriteSuper();
      assert old(log) + [old@wrote(disk), disk] == log;
    }

    /** The free-list half of wipe. */
    method FormatFreeList()
      requires Sized()
      modifies this, fdb
      ensures Ok() && Stack() == FormatStack()
      ensures forall b | 96 <= b < |disk| || 2 <= b < 66 || b == 0 :: disk[b] == old(disk[b])
    {
      hide EncodeSuper, FormatStack, Boots, ChainOk, FreeStack, ChunkAddrs;
      geo := Geometry(1, 2048, 2, 64 * 8, 66, 1982);
      fdbhead := geo.dsize % 64 - 1;

      FormatChunks();

      fdb[0] := geo.dblkno;
      for i := 1 to 62
        modifies fdb
        invariant fdb[0] == 66 && forall k | 1 <= k < i :: fdb[k] == k + 1986
      {
        fdb[i] := i + 1986;
      }

      chain := ChunkAddrs(0);
      FormattedList(disk, fdb[..]);
      WriteSuper();
    }

    // Writes the 30 full chunks into blocks 66 to 95.
    method FormatChunks()
      requires Sized() && geo == GEOMETRY
      modifies this`disk, this`log
      ensures Sized() && Formatted(disk, CHUNKS)
      ensures forall b | 96 <= b < |disk| || 0 <= b < 66 :: disk[b] == old(disk[b])
    {
      hide ToBytes, ToWords;
      var chunk := new word[64];
      for i := 0 to 30
        modifies this`disk, this`log, chunk
        invariant Sized() && Formatted(disk, i)
        invariant forall b | 96 <= b < |disk| || 0 <= b < 66 :: disk[b] == old(disk[b])
      {
        chunk[0] := if i == 29 then geo.sblkno else i + 1 + geo.dblkno;
        for j := 0 to 63
          modifies chunk
          invariant chunk[0] == if i == 29 then 1 else i + 67
          invariant forall k | 1 <= k < j + 1 :: chunk[k] == 63 * i + k + 95
        {
          chunk[j + 1] := 63 * i + j + (geo.dblkno + 30);
        }
        assert chunk[..] == FormatChunk(i);
        WordsAfterStore(FormatChunk(i), disk[i + geo.dblkno]);
        label before:
        WriteBlock(i + geo.dblkno, ToBytes(chunk[..]));
        FormattedStep(old@before(disk), disk, i);
      }
    }
  }

  lemma FormattedStep(d: seq<Block>, d': seq<Block>, i: nat)
    requires |d| == |d'| == DISK_BLOCKS && i < CHUNKS && Formatted(d, i)
    requires forall b | 0 <= b < |d| && b != FIRST_DATA + i :: d'[b] == d[b]
    requires ToWords(d'[FIRST_DATA + i])[..FDB_WORDS] == FormatChunk(i)
    ensures Formatted(d', i + 1)
  {
    hide FormatChunk, ToWords;
    forall k | 0 <= k < i + 1
      ensures Chunk(d', FIRST_DATA + k) == FormatChunk(k)
    {
      assert k < i ==> Chunk(d', FIRST_DATA + k) == Chunk(d, FIRST_DATA + k);
    }
  }

  lemma FormattedList(d: seq<Block>, fdb: FreeList)
    requires |d| == DISK_BLOCKS && Formatted(d, CHUNKS)
    requires fdb[0] == FIRST_DATA && forall k | 1 <= k < 62 :: fdb[k] == k + 1986
    ensures ChainOk(d, fdb[0], ChunkAddrs(0)) && (forall c | c in ChunkAddrs(0) :: IsData(c))
    ensures FreeStack(d, fdb, 61, ChunkAddrs(0)) == FormatStack()
  {
    FormatChain(d, 0);
    assert FormatStack()[1920..] == fdb[1..62];
  }

  lemma ImageBoots(d: seq<Block>, s: Super, chain: seq<word>)
    requires |d| == DISK_BLOCKS && d[1] == EncodeSuper(s) && s.geo == GEOMETRY && s.fdbhead < FDB_WORDS
    requires ChainOk(d, s.fdb[0], chain) && forall c | c in chain :: IsData(c)
    ensures Boots(d, FreeStack(d, s.fdb, s.fdbhead, chain))
  {
    hide EncodeSuper, DecodeSuper;
    SuperRoundTrip(s);
    assert BootsVia(d, chain, FreeStack(d, s.fdb, s.fdbhead, chain));
  }

  // Between the two writes of a spilling bfree the old superblock is still in force.
  lemma SpilledImageBoots(d: seq<Block>, s: Super, chain: seq<word>, a: word)
    requires |d| == DISK_BLOCKS && d[1] == EncodeSuper(s) && s.geo == GEOMETRY && s.fdbhead < FDB_WORDS
    requires ChainOk(d, s.fdb[0], chain) && forall c | c in chain :: IsData(c)
    requires IsData(a) && a !in chain
    ensures Boots(d[a := ToBytes(s.fdb) + d[a][4 * FDB_WORDS..]], FreeStack(d, s.fdb, s.fdbhead, chain))
  {
    hide EncodeSuper, ToBytes, Boots;
    var d': seq<Block> := d[a := ToBytes(s.fdb) + d[a][4 * FDB_WORDS..]];
    ChainFrame(d, d', s.fdb[0], chain);
    ImageBoots(d', s, chain);
  }

  /** Any block that decodes to a superblock is that superblock's own image. */
  lemma SuperSurjective(b: Block)
    ensures EncodeSuper(DecodeSuper(b)) == b
  {
    var s := DecodeSuper(b);
    var ws := ToWords(b);
    assert SuperWords(s) == ws;
    forall p | 0 <= p < BLOCK_SIZE
      ensures ToBytes(ws)[p] == b[p]
    {
      BytesOfWord(b, p / 4);
    }
  }
}

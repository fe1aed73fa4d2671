/** Moving bytes between a buffer and the blocks of a file. */
module FileIO {
  import opened Bytes
  import opened Formats
  import opened FreeChain
  import opened FileMap
  import opened BlockTree
  import opened Inodes
  import opened FileSys

  // Byte p of a run of blocks.
  function Flat(bs: seq<Block>, p: nat): byte
    requires p < 512 * |bs|
  {
    bs[p / 512][p % 512]
  }

  /** bs is bs0 with the first n bytes of data laid over it from byte `head` on. */
  ghost predicate Laid(bs0: seq<Block>, bs: seq<Block>, head: nat, data: seq<byte>, n: nat)
    requires n <= |data|
  {
    |bs| == |bs0| && forall p | 0 <= p < 512 * |bs0| ::
      Flat(bs, p) == if head <= p < head + n then data[p - head] else Flat(bs0, p)
  }

  lemma LaidStep(bs0: seq<Block>, bs: seq<Block>, head: nat, data: seq<byte>, n: nat, c: nat, b: Block)
    requires n < |data| && Laid(bs0, bs, head, data, n)
    requires c == (head + n) / 512 < |bs| && b == bs[c][(head + n) % 512 := data[n]]
    ensures Laid(bs0, bs[c := b], head, data, n + 1)
  {
    var bs': seq<Block> := bs[c := b];
    forall p | 0 <= p < 512 * |bs0|
      ensures Flat(bs', p) == if head <= p < head + n + 1 then data[p - head] else Flat(bs0, p)
    {
      assert Flat(bs, p) == if head <= p < head + n then data[p - head] else Flat(bs0, p);
      if p == head + n {
      } else if p / 512 == c {
        assert p % 512 != (head + n) % 512;
      }
    }
  }

  /** Writing one block of a file changes that block of that file only. */
  lemma LeafWrite(d: seq<Block>, d': seq<Block>, stack: seq<word>, live: seq<Icommon>, cnt: seq<nat>, owner: seq<Owner>,
                  i: nat, k: nat, b: Block)
    requires Owned(d, stack, live, cnt, owner) && i < INODES && k < cnt[i]
    requires IsData(SlotAddr(d, live[i], k)) && d' == d[SlotAddr(d, live[i], k) := b]
    ensures Owned(d', stack, live, cnt, owner)
    ensures var f := View(d, live[i], cnt[i]);
            Views(d', live, cnt) == Views(d, live, cnt)[i := FileView(f.ic, f.addrs, f.blocks[k := b])]
  {
    hide SlotAddr;
    var a, n, f := SlotAddr(d, live[i], k), cnt[i], View(d, live[i], cnt[i]);
    assert InodeOwned(d, live[i], n, owner, i);
    assert HasSlot(n, k) && SlotOwned(d, live[i], owner, i, k);
    if n > NDADDR {
      IndexSlot(d, live[i], n, owner, i);
    }
    InodeFrame(d, d', live[i], n, owner, owner, i);
    OwnedStep(d, d', stack, stack, live, live, cnt, cnt, owner, owner, i);
    forall s | 0 <= s < n
      ensures View(d', live[i], n).blocks[s] == f.blocks[k := b][s]
    {
      assert HasSlot(n, s) && SlotOwned(d, live[i], owner, i, s);
      assert View(d', live[i], n).addrs[s] == f.addrs[s];
    }
    assert View(d', live[i], n) == FileView(f.ic, f.addrs, f.blocks[k := b]);
  }

  // Where file block k of inode i is.
  lemma LeafAt(fs: FileSystem, i: nat, k: nat)
    requires fs.Sound() && i < INODES && k < fs.cnt[i]
    ensures var f := fs.Files()[i];
            && f == View(fs.store.disk, fs.live[i], fs.cnt[i]) && |f.addrs| == |f.blocks| == fs.cnt[i]
            && IsData(f.addrs[k]) && fs.store.disk[f.addrs[k]] == f.blocks[k] && fs.owner[f.addrs[k]] == Slot(i, k)
            && f.addrs[k] == SlotAddr(fs.store.disk, fs.live[i], k)
            && TreeReal(fs.store.disk, fs.live[i], k) && TreeAddr(fs.store.disk, fs.live[i], k) == f.addrs[k]
            && f.addrs[k] !in fs.store.chain && f.addrs[k] !in fs.Stack()
  {
    hide SlotAddr, ToWords, TreeReal, TreeAddr;
    var d := fs.store.disk;
    assert InodeOwned(d, fs.live[i], fs.cnt[i], fs.owner, i);
    assert HasSlot(fs.cnt[i], k) && SlotOwned(d, fs.live[i], fs.owner, i, k);
    if k >= NDADDR {
      IndexSlot(d, fs.live[i], fs.cnt[i], fs.owner, i);
    }
    LookupIsSlot(d, fs.live[i], k);
    fs.NotChunk(SlotAddr(d, fs.live[i], k));
  }

  /** getDataBlock: fills the buffer with the file block that holds byte `byteno`. */
  method GetDataBlock(fs: FileSystem, block: array<byte>, inode: Inode, byteno: nat) returns (addr: word)
    requires fs.Sound() && block.Length == BLOCK_SIZE
    requires inode.number < INODES && inode.ic == fs.live[inode.number] && byteno / 512 < fs.cnt[inode.number]
    modifies block
    ensures var f := fs.Files()[inode.number];
            && byteno / 512 < |f.addrs| == |f.blocks| == fs.cnt[inode.number]
            && addr == f.addrs[byteno / 512] && block[..] == f.blocks[byteno / 512]
    ensures IsData(addr)
  {
    hide Owned, View, Views, TreeAddr, TreeReal, EncodeSuper;
    LeafAt(fs, inode.number, byteno / 512);
    var a := fs.GetDataBlockAddr(inode, byteno);
    var b := fs.store.ReadBlock(a);
    forall j | 0 <= j < BLOCK_SIZE {
      block[j] := b[j];
    }
    return a;
  }

  /** Stores a whole buffer into file block k. */
  method PutDataBlock(fs: FileSystem, addr: word, block: array<byte>, ghost i: nat, ghost k: nat)
    requires fs.Sound() && block.Length == BLOCK_SIZE && i < INODES && k < fs.cnt[i] && k < |fs.Files()[i].addrs|
    requires addr == fs.Files()[i].addrs[k]
    modifies fs.store`disk, fs.store`log
    ensures fs.Sound() && fs.Stack() == old(fs.Stack())
    ensures var f := old(fs.Files()[i]);
            k < |f.blocks| && fs.OnlyFile(i, FileView(f.ic, f.addrs, f.blocks[k := block[..]]))
  {
    hide Owned, View, TreeAddr, TreeReal, EncodeSuper, SlotAddr, InodeAt, FreeStack;
    LeafAt(fs, i, k);
    fs.store.WriteBlock(addr, block[..]);
    assert block[..] + old(fs.store.disk)[addr][BLOCK_SIZE..] == block[..];
    LeafWrite(old(fs.store.disk), fs.store.disk, fs.Stack(), fs.live, fs.cnt, fs.owner, i, k, block[..]);
    SameInodeBlocks(old(fs.store.disk), fs.store.disk);
  }

  // Stores the buffer into file block c and fills it with the next one, which starts at byteno.
  method TurnPage(fs: FileSystem, inode: Inode, addr: word, buf: array<byte>, byteno: nat, ghost c: nat)
    returns (next: word)
    requires fs.Sound() && buf.Length == BLOCK_SIZE && inode.number < INODES && inode.ic == fs.live[inode.number]
    requires byteno / 512 == c + 1 < fs.cnt[inode.number] && c < |fs.Files()[inode.number].addrs|
    requires addr == fs.Files()[inode.number].addrs[c]
    modifies buf, fs.store`disk, fs.store`log
    ensures fs.Sound() && fs.Stack() == old(fs.Stack())
    ensures var f := old(fs.Files()[inode.number]);
            && c + 1 < |f.blocks| == |f.addrs| && next == f.addrs[c + 1]
            && fs.OnlyFile(inode.number, FileView(f.ic, f.addrs, f.blocks[c := old(buf[..])]))
            && f.blocks[c := old(buf[..])][c + 1 := buf[..]] == f.blocks[c := old(buf[..])]
  {
    hide Owned, View, Views, TreeAddr, TreeReal, EncodeSuper, SlotAddr, InodeAt, FreeStack, Recorded;
    PutDataBlock(fs, addr, buf, inode.number, c);
    next := GetDataBlock(fs, buf, inode, byteno);
    SameBlocks(fs.Files()[inode.number].blocks, c + 1, buf[..]);
  }

  lemma SameBlocks(bs: seq<Block>, c: nat, b: Block)
    requires c < |bs| && b == bs[c]
    ensures bs[c := b] == bs
  {
  }

  /** The body of fwrite after blocks were allocated: data goes to bytes [head, head + n) of the
      file through one block buffer; nothing else changes. */
  method StoreBytes(fs: FileSystem, inode: Inode, head: nat, data: seq<byte>)
    requires fs.Sound() && inode.number < INODES && inode.ic == fs.live[inode.number]
    requires head + |data| <= inode.ic.size && fs.cnt[inode.number] == inode.ic.size / 512 + 1
    modifies fs.store`disk, fs.store`log
    ensures fs.Sound() && fs.Stack() == old(fs.Stack())
    ensures var f, g := old(fs.Files()[inode.number]), fs.Files()[inode.number];
            && fs.OnlyFile(inode.number, FileView(f.ic, f.addrs, g.blocks))
            && Laid(f.blocks, g.blocks, head, data, |data|)
  {
    hide Owned, View, Views, TreeAddr, TreeReal, EncodeSuper, SlotAddr, InodeAt, FreeStack, Recorded, Laid;
    var num, n := inode.number, |data|;
    ghost var files := fs.Files();
    ghost var f := files[num];
    var buf := new byte[BLOCK_SIZE];
    var addr := GetDataBlock(fs, buf, inode, head);
    ghost var c: nat := head / 512;
    LaidStart(f.blocks, c, buf[..], head, data);
    for i := 0 to n
      modifies buf, fs.store`disk, fs.store`log
      invariant fs.Sound() && fs.Stack() == old(fs.Stack())
      invariant c < |f.blocks| == |f.addrs| == fs.cnt[num] && addr == f.addrs[c]
      invariant i < n ==> c == (head + i) / 512
      invariant var g := fs.Files()[num];
                && fs.Files() == files[num := FileView(f.ic, f.addrs, g.blocks)] && |g.blocks| == |f.blocks|
                && Laid(f.blocks, g.blocks[c := buf[..]], head, data, i)
    {
      ghost var bs := fs.Files()[num].blocks[c := buf[..]];
      buf[(head + i) % BLOCK_SIZE] := data[i];
      LaidStep(f.blocks, bs, head, data, i, c, buf[..]);
      assert bs[c := buf[..]] == fs.Files()[num].blocks[c := buf[..]];

      if i != n - 1 && (head + i + 1) % BLOCK_SIZE == 0 {
        addr := TurnPage(fs, inode, addr, buf, head + i + 1, c);
        c := c + 1;
      }
    }
    PutDataBlock(fs, addr, buf, num, c);
  }

  lemma LaidStart(bs: seq<Block>, c: nat, b: Block, head: nat, data: seq<byte>)
    requires c < |bs| && b == bs[c]
    ensures Laid(bs, bs[c := b], head, data, 0)
  {
    SameBlocks(bs, c, b);
  }

  /** The body of fread: bytes [head, head + n) of the file, through one block buffer. */
  method LoadBytes(fs: FileSystem, inode: Inode, head: nat, n: nat, data: array<byte>)
    requires fs.Sound() && inode.number < INODES && inode.ic == fs.live[inode.number]
    requires head + n <= inode.ic.size && fs.cnt[inode.number] == inode.ic.size / 512 + 1
    requires n <= data.Length
    modifies data
    ensures forall j | 0 <= j < n :: data[j] == ByteAt(fs.Files()[inode.number], head + j)
    ensures forall j | n <= j < data.Length :: data[j] == old(data[j])
  {
    hide Owned, View, Views, TreeAddr, TreeReal, EncodeSuper, SlotAddr, InodeAt, FreeStack, Recorded, ByteAt;
    ghost var f := fs.Files()[inode.number];
    var buf := new byte[BLOCK_SIZE];
    FileBlocks(head, inode.ic.size);
    var a := GetDataBlock(fs, buf, inode, head);
    for i := 0 to n
      modifies buf, data
      invariant i < n ==> (head + i) / 512 < |f.blocks| && buf[..] == f.blocks[(head + i) / 512]
      invariant forall j | 0 <= j < i :: data[j] == ByteAt(f, head + j)
      invariant forall j | n <= j < data.Length :: data[j] == old(data[j])
    {
      data[i] := buf[(head + i) % BLOCK_SIZE];
      ByteIs(f, head + i);
      assert data[i] == buf[..][(head + i) % BLOCK_SIZE] == ByteAt(f, head + i);
      NextByte(head + i);
      FileBlocks(head + i + 1, inode.ic.size);

      if i != n - 1 && (head + i + 1) % BLOCK_SIZE == 0 {
        a := GetDataBlock(fs, buf, inode, head + i + 1);
      }
    }
  }

  lemma ByteIs(f: FileView, p: nat)
    requires p / 512 < |f.blocks|
    ensures ByteAt(f, p) == f.blocks[p / 512][p % 512]
  {
  }

  lemma FileBlocks(p: nat, size: nat)
    requires p <= size
    ensures p / 512 < size / 512 + 1
  {
  }

  lemma NextByte(p: nat)
    ensures (p + 1) % 512 != 0 ==> (p + 1) / 512 == p / 512
  {
  }

  // ----- what a write does to the contents -----

  /** c' is c with data laid over it from `head` on, grown if needed. Bytes between the old end and
      `head` are whatever the new blocks held. */
  ghost predicate Overwritten(c: seq<byte>, c': seq<byte>, head: nat, data: seq<byte>) {
    && |c'| == (if head + |data| > |c| then head + |data| else |c|)
    && (forall p | 0 <= p < |data| :: c'[head + p] == data[p])
    && (forall p | 0 <= p < |c| && !(head <= p < head + |data|) :: c'[p] == c[p])
  }

  /** The contents after a write that starts no further than the end. */
  function Splice(c: seq<byte>, head: nat, data: seq<byte>): seq<byte>
    requires head <= |c|
  {
    c[..head] + data + if head + |data| < |c| then c[head + |data|..] else []
  }

  lemma OverwrittenIsSplice(c: seq<byte>, c': seq<byte>, head: nat, data: seq<byte>)
    requires head <= |c|
    ensures Overwritten(c, c', head, data) <==> c' == Splice(c, head, data)
  {
    if Overwritten(c, c', head, data) {
      forall p | 0 <= p < |c'|
        ensures c'[p] == Splice(c, head, data)[p]
      {
        if head <= p < head + |data| {
          assert c'[head + (p - head)] == data[p - head];
        }
      }
    }
  }

  function Concat(parts: seq<seq<byte>>): seq<byte> {
    if parts == [] then [] else parts[0] + Concat(parts[1..])
  }

  /** Consecutive writes of the parts, each continuing where the one before stopped. */
  function SpliceAll(c: seq<byte>, head: nat, parts: seq<seq<byte>>): seq<byte>
    requires head <= |c|
    decreases |parts|
  {
    if parts == [] then c else SpliceAll(Splice(c, head, parts[0]), head + |parts[0]|, parts[1..])
  }

  lemma SpliceTwo(c: seq<byte>, head: nat, a: seq<byte>, b: seq<byte>)
    requires head <= |c|
    ensures Splice(Splice(c, head, a), head + |a|, b) == Splice(c, head, a + b)
  {
  }

  /** Any split of the data into consecutive writes gives the file one write would give. */
  lemma {:induction false} SplitWrites(c: seq<byte>, head: nat, parts: seq<seq<byte>>)
    requires head <= |c|
    ensures SpliceAll(c, head, parts) == Splice(c, head, Concat(parts))
    decreases |parts|
  {
    hide Splice;
    if parts == [] {
      NothingWritten(c, head);
    } else {
      assert |Splice(c, head, parts[0])| >= head + |parts[0]| by { SpliceSize(c, head, parts[0]); }
      SplitWrites(Splice(c, head, parts[0]), head + |parts[0]|, parts[1..]);
      SpliceTwo(c, head, parts[0], Concat(parts[1..]));
    }
  }

  lemma NothingWritten(c: seq<byte>, head: nat)
    requires head <= |c|
    ensures Splice(c, head, []) == c
  {
  }

  lemma SpliceSize(c: seq<byte>, head: nat, a: seq<byte>)
    requires head <= |c|
    ensures |Splice(c, head, a)| >= head + |a|
  {
  }

  // Bytes read from [head, head + n) of a file are that part of its contents.
  lemma ReadContent(f: FileView, head: nat, n: nat, out: seq<byte>)
    requires head + n <= f.ic.size && |out| == n && forall j | 0 <= j < n :: out[j] == ByteAt(f, head + j)
    ensures out == Content(f)[head..head + n]
  {
  }

  /** Growing a file and laying data over its blocks overwrites its contents. */
  lemma LaidContent(f: FileView, g: FileView, head: nat, data: seq<byte>, bs: seq<Block>)
    requires f.blocks <= bs && Laid(bs, g.blocks, head, data, |data|)
    requires |f.blocks| * 512 >= f.ic.size && |bs| * 512 >= g.ic.size
    requires g.ic.size == if head + |data| > f.ic.size then head + |data| else f.ic.size
    ensures Overwritten(Content(f), Content(g), head, data)
  {
    var n, c, c' := |data|, Content(f), Content(g);
    forall p | 0 <= p < n
      ensures c'[head + p] == data[p]
    {
      assert ByteAt(g, head + p) == Flat(g.blocks, head + p);
    }
    forall p | 0 <= p < |c| && !(head <= p < head + n)
      ensures c'[p] == c[p]
    {
      assert ByteAt(g, p) == Flat(g.blocks, p) == Flat(bs, p);
      assert bs[p / 512] == f.blocks[p / 512];
    }
  }
}

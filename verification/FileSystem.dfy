/** Inodes and the blocks they own. */
module FileSys {
  import opened Bytes
  import opened Formats
  import opened FreeChain
  import opened FreeBlocks
  import opened FileMap
  import opened BlockTree
  import opened Inodes
  import opened Attach
  import opened Release

  class FileSystem {
    const store: Store

    // The record in force of every inode, how many file blocks it has, who holds each disk
    // block, and which inodes have an in-core copy that may be newer than the disk's.
    ghost var live: seq<Icommon>
    ghost var cnt: seq<nat>
    ghost var owner: seq<Owner>
    ghost var incore: set<nat>

    // The disk after the last format, and whether a block was freed since. Until then no block that is
    // still on the free list has been written.
    ghost var mark: seq<Block>
    ghost var freed: bool

    constructor (s: Store)
      ensures store == s
    {
      store := s;
    }

    ghost predicate Sound()
      reads this, store, store.fdb
    {
      && store.Ok()
      && |live| == |cnt| == INODES && |owner| == DISK_BLOCKS
      && Owned(store.disk, store.Stack(), live, cnt, owner)
      && Recorded(store.disk, live, incore)
      && (freed || Untouched(mark, store.disk, store.Stack()))
    }

    /** Every inode has the number of blocks its size calls for. */
    ghost predicate Valid()
      reads this, store, store.fdb
    {
      Sound() && forall i | 0 <= i < INODES :: Settled(live[i], cnt[i])
    }

    ghost function Stack(): seq<word>
      requires store.Listed()
      reads store, store.fdb
    {
      store.Stack()
    }

    ghost function Files(): (v: seq<FileView>)
      requires |live| == |cnt|
      reads this, store
      ensures |v| == |live|
    {
      Views(store.disk, live, cnt)
    }

    // A block that is not on the free list is not one of its chunk blocks either.
    lemma NotChunk(a: word)
      requires Sound() && IsData(a) && !owner[a].Free?
      ensures a !in store.chain && a !in store.Stack()
    {
      ChunksAreFree(store.disk, store.chain);
      assert forall c | c in store.chain :: c in store.Stack();
    }

    method Balloc() returns (addr: int)
      requires Sound()
      modifies this`owner, store, store.fdb
      ensures Sound() && Files() == old(Files())
      ensures addr == -1 <==> old(Stack()) == []
      ensures addr == -1 ==> Stack() == old(Stack()) && owner == old(owner) && store.disk == old(store.disk)
      ensures addr != -1 ==>
                && IsData(addr) && Stack() + [addr] == old(Stack())
                && old(owner)[addr].Free? && owner == old(owner)[addr := Nobody]
      ensures forall b | 0 <= b < DISK_BLOCKS && b != 1 :: store.disk[b] == old(store.disk[b])
    {
      hide EncodeSuper, FreeStack, View, StackOwned, Untouched;
      addr := store.Balloc();
      if addr != -1 {
        ghost var was := old(store.Stack());
        assert was[|was| - 1] == addr;
        StackPop(store.Stack(), addr, owner);
        owner := owner[addr := Nobody];
        OwnedAside(old(store.disk), store.disk, was, store.Stack(), live, cnt, old(owner), owner);
        SameInodeBlocks(old(store.disk), store.disk);
        if !freed {
          StillUntouched(mark, old(store.disk), store.disk, was, store.Stack());
        }
      }
    }

    method ReadInode(inode: Inode, ino: word)
      requires store.Sized() && ino < INODES
      modifies inode`number, inode`ic
      ensures inode.number == ino && inode.ic == InodeAt(store.disk, ino)
    {
      var q, r := ino / 8, ino % 8;
      var b := store.ReadBlock(FIRST_INODE_BLOCK + q);
      inode.number := ino;
      inode.ic := DecodeInodes(b)[r];
    }

    method WriteInode(inode: Inode)
      requires store.Ok() && inode.number < INODES && forall c | c in store.chain :: IsData(c)
      modifies store`disk, store`log
      ensures store.Ok() && Stack() == old(Stack()) && store.log == old(store.log) + [store.disk]
      ensures forall i | 0 <= i < INODES ::
                InodeAt(store.disk, i) == if i == inode.number then inode.ic else old(InodeAt(store.disk, i))
      ensures forall b | 0 <= b < DISK_BLOCKS && !(FIRST_INODE_BLOCK <= b < FIRST_DATA) ::
                store.disk[b] == old(store.disk[b])
    {
      hide EncodeSuper, EncodeInodes, DecodeInodes, FreeStack;
      var q, r := inode.number / 8, inode.number % 8;
      var b := store.ReadBlock(FIRST_INODE_BLOCK + q);
      var t := DecodeInodes(b);
      t := t[r := inode.ic];
      var x := EncodeInodes(t);
      store.WriteBlock(FIRST_INODE_BLOCK + q, x);
      assert x + old(store.disk)[FIRST_INODE_BLOCK + q][|x|..] == x;
      PatchInode(old(store.disk), store.disk, inode.number, inode.ic);
    }

    /** getDataBlockAddr, through one buffer. Only an inode whose own index block is beyond the disk
        makes it answer with words of an uninitialised buffer. */
    method GetDataBlockAddr(inode: Inode, byteno: nat) returns (addr: int)
      requires store.Sized()
      ensures var l := Level(byteno / 512);
              (1 <= l <= 3 && inode.ic.ib[l - 1] >= DISK_BLOCKS) || addr == RawAddr(store.disk, inode.ic, byteno / 512)
      ensures TreeReal(store.disk, inode.ic, byteno / 512) ==> addr == TreeAddr(store.disk, inode.ic, byteno / 512)
    {
      hide ToWords, Descent, TreeAddr, TreeReal;
      if TreeReal(store.disk, inode.ic, byteno / 512) {
        RawIsTree(store.disk, inode.ic, byteno / 512);
      }
      var blk := byteno / BLOCK_SIZE;
      if blk < NDADDR {
        return inode.ic.db[blk];
      }
      var ls := BLOCK_SIZE / 4;
      var block: Block := *;
      if blk < ls + NDADDR {
        blk := blk - NDADDR;
        block := store.DiskRd(inode.ic.ib[0], block);
        DescentOne(store.disk, block, blk);
        return ToWords(block)[blk];
      } else if blk < ls * ls + ls + NDADDR {
        blk := blk - (ls + NDADDR);
        block := store.DiskRd(inode.ic.ib[1], block);
        DescentTwo(store.disk, block, blk);
        block := store.DiskRd(ToWords(block)[blk / ls], block);
        return ToWords(block)[blk % ls];
      } else if blk < ls * ls * ls + ls * ls + ls + NDADDR {
        blk := blk - (ls * ls + ls + NDADDR);
        block := store.DiskRd(inode.ic.ib[2], block);
        DescentThree(store.disk, block, blk);
        block := store.DiskRd(ToWords(block)[blk / (ls * ls)], block);
        block := store.DiskRd(ToWords(block)[blk % (ls * ls) / ls], block);
        return ToWords(block)[blk % ls];
      }
      return -1;
    }

    // The one frame every step below keeps: inode i was replaced by the view f, nothing else moved.
    twostate predicate OnlyFile(i: nat, f: FileView)
      requires |old(live)| == |old(cnt)| && |live| == |cnt| && i < |old(live)|
      reads this, store
    {
      Files() == old(Files())[i := f]
    }

    /** writeInode, for a record that keeps the addresses of the blocks in use. */
    method StoreInode(inode: Inode)
      requires Sound() && inode.number < INODES && SameSlots(live[inode.number], inode.ic, cnt[inode.number])
      modifies this`live, store`disk, store`log
      ensures Sound() && Stack() == old(Stack()) && live == old(live)[inode.number := inode.ic]
      ensures var f := old(Files()[inode.number]); OnlyFile(inode.number, FileView(inode.ic, f.addrs, f.blocks))
      ensures forall b | IsData(b) :: store.disk[b] == old(store.disk[b])
    {
      hide EncodeSuper, FreeStack, View, ToWords, Owned, InodeAt;
      var i := inode.number;
      ghost var f := Files()[i];
      assert f == View(store.disk, live[i], cnt[i]);
      WriteInode(inode);
      Relabel(old(store.disk), store.disk, Stack(), live, cnt, owner, i, inode.ic);
      live := live[i := inode.ic];
    }

    // The direct-slot branch of allocateDataBlockAddr.
    method StoreDirect(inode: Inode, blk: nat, addr: word)
      requires Sound() && inode.number < INODES && inode.ic == live[inode.number]
      requires blk == cnt[inode.number] < NDADDR && IsData(addr) && owner[addr] == Nobody
      modifies this`live, this`cnt, this`owner, store`disk, store`log, inode`ic
      ensures Sound() && inode.ic == WithDirect(old(inode.ic), blk, addr)
      ensures live == old(live)[inode.number := inode.ic] && cnt == old(cnt)[inode.number := blk + 1]
      ensures Stack() == old(Stack())
      ensures OnlyFile(inode.number, Extend(old(Files()[inode.number]), inode.ic, addr, old(store.disk)[addr]))
    {
      hide EncodeSuper, FreeStack, View, ToWords, Owned, InodeAt;
      var i := inode.number;
      assert Files()[i] == View(store.disk, live[i], cnt[i]);
      inode.ic := inode.ic.(db := inode.ic.db[blk := addr]);
      WriteInode(inode);
      AttachDirect(old(store.disk), store.disk, Stack(), live, cnt, owner, i, addr);
      live, cnt, owner := live[i := inode.ic], cnt[i := blk + 1], owner[addr := Slot(i, blk)];
    }

    // The end of the single-indirect branch: the address goes into the indirect block.
    method StoreIndirect(inode: Inode, blk: nat, addr: word, taddr: word)
      requires Sound() && inode.number < INODES && inode.ic == live[inode.number]
      requires blk == cnt[inode.number] && IndirectReady(inode.ic, blk, owner, addr, taddr) && inode.ic.ib[0] == taddr
      modifies this`live, this`cnt, this`owner, store`disk, store`log
      ensures Sound() && live == old(live)[inode.number := inode.ic] && cnt == old(cnt)[inode.number := blk + 1]
      ensures Stack() == old(Stack())
      ensures OnlyFile(inode.number, Extend(old(Files()[inode.number]), inode.ic, addr, old(store.disk)[addr]))
    {
      hide EncodeSuper, FreeStack, View, ToWords, ToBytes, Owned, InodeAt;
      var i := inode.number;
      assert Files()[i] == View(store.disk, live[i], cnt[i]);
      if blk > NDADDR {
        IndexHeld(i);
      }
      NotChunk(taddr);
      var block := store.ReadBlock(taddr);
      var ws := ToWords(block)[blk - NDADDR := addr];
      store.WriteBlock(taddr, ToBytes(ws));
      WordsRoundTrip(ws);
      assert ToBytes(ws) + block[|ToBytes(ws)|..] == ToBytes(ws);
      assert WithIndirect(inode.ic, taddr).ib == inode.ic.ib;
      AttachIndirect(old(store.disk), store.disk, Stack(), live, cnt, owner, i, addr, taddr);
      SameInodeBlocks(old(store.disk), store.disk);
      live, cnt, owner := live[i := inode.ic], cnt[i := blk + 1], owner[addr := Slot(i, blk)][taddr := Slot(i, IND)];
    }

    lemma IndexHeld(i: nat)
      requires Sound() && i < INODES && cnt[i] > NDADDR
      ensures IsData(live[i].ib[0]) && owner[live[i].ib[0]] == Slot(i, IND)
    {
      assert InodeOwned(store.disk, live[i], cnt[i], owner, i);
      IndexSlot(store.disk, live[i], cnt[i], owner, i);
    }

    method AllocateDataBlockAddr(inode: Inode, byteno: word) returns (addr: int)
      requires Sound() && inode.number < INODES && inode.ic == live[inode.number] && inode.ic.mode != IFZERO
      requires byteno / 512 == cnt[inode.number] < MAX_BLOCKS
      modifies this`live, this`cnt, this`owner, store, store.fdb, inode`ic
      ensures Sound() && inode.ic == live[inode.number]
      ensures addr == -1 <==> |old(Stack())| < if byteno / 512 == NDADDR then 2 else 1
      ensures addr == -1 ==> Stack() == [] && Files() == old(Files()) && live == old(live) && cnt == old(cnt)
      ensures addr != -1 ==>
                live == old(live)[inode.number := inode.ic] && cnt == old(cnt)[inode.number := byteno / 512 + 1]
      ensures addr != -1 ==>
                var n, was := |old(Stack())|, old(Stack());
                && IsData(addr) && addr == was[n - 1]
                && Stack() == was[..n - if byteno / 512 == NDADDR then 2 else 1]
                && inode.ic.size == old(inode.ic.size) && inode.ic.mode == old(inode.ic.mode)
                && OnlyFile(inode.number, Extend(old(Files()[inode.number]), inode.ic, addr, old(store.disk)[addr]))
                && (byteno / 512 == NDADDR ==> inode.ic.ib[0] == was[n - 2])
                && (byteno / 512 != NDADDR ==> inode.ic.ib == old(inode.ic.ib))
                && inode.ic.db == if byteno / 512 < NDADDR then old(inode.ic.db)[byteno / 512 := addr]
                                  else old(inode.ic.db)
    {
      hide EncodeSuper, FreeStack, View, Views, ToWords, Owned, Recorded;
      var blk := byteno / BLOCK_SIZE;
      addr := Balloc();
      if addr == -1 {
        return -1;
      }
      if blk < NDADDR {
        StoreDirect(inode, blk, addr);
      } else {
        var taddr: int;
        if blk == NDADDR {
          taddr := Balloc();
          if taddr == -1 {
            return -1;
          }
          inode.ic := inode.ic.(ib := inode.ic.ib[0 := taddr]);
          StoreInode(inode);
        } else {
          IndexHeld(inode.number);
          taddr := inode.ic.ib[0];
        }
        StoreIndirect(inode, blk, addr, taddr);
      }
    }
  
    // The growing file has its blocks up to number i - 1, the direct slots from i on are untouched, and
    // so is the rest of its record; `was`, f and ic are from before.
    ghost predicate Growing(num: nat, was: seq<word>, f: FileView, ic: Icommon, b: nat, i: nat)
      requires |live| == |cnt|
      reads this, store, store.fdb
    {
      && Sound() && num < INODES && cnt[num] == i && b < i
      && live[num].size == ic.size && live[num].mode == ic.mode && Files()[num].ic == live[num]
      && Grown(was, Stack(), f, Files()[num], b, i - 1)
      && forall k | i <= k < NDADDR :: live[num].db[k] == ic.db[k]
    }

    // One round of allocateDataBlocks, for file block i.
    method GrowRound(inode: Inode, i: nat, ghost was: seq<word>, ghost f: FileView, ghost ic: Icommon, ghost b: nat)
      returns (a: int)
      requires |live| == |cnt| && Growing(inode.number, was, f, ic, b, i) && inode.ic == live[inode.number]
      requires i < MAX_BLOCKS && ic.mode != IFZERO
      modifies this`live, this`cnt, this`owner, store, store.fdb, inode`ic
      ensures |live| == |cnt| == INODES && inode.ic == live[inode.number] && Sound()
      ensures live == old(live)[inode.number := inode.ic]
      ensures a == -1 <==> |was| < NeedBlocks(b, i)
      ensures a == -1 ==> Stack() == [] && Files() == old(Files()) && live == old(live) && cnt == old(cnt)
      ensures a != -1 ==> cnt == old(cnt)[inode.number := i + 1] && Growing(inode.number, was, f, ic, b, i + 1)
      ensures OnlyFile(inode.number, Files()[inode.number])
    {
      hide EncodeSuper, FreeStack, View, ToWords, Owned, InodeAt, Recorded, Grown, Views;
      ghost var g, stack, d := Files()[inode.number], Stack(), store.disk;
      assert i * BLOCK_SIZE / 512 == i;
      GrownFacts(was, stack, f, g, b, i - 1);
      a := AllocateDataBlockAddr(inode, i * BLOCK_SIZE);
      if a != -1 {
        GrownStep(was, stack, Stack(), f, g, Files()[inode.number], b, i - 1, d[a]);
      }
    }

    /** Grows a file by `bytes` bytes. It fails exactly when the free list is too short, and then
        the size stays, only unreferenced blocks are lost, and the direct slots it did not get to
        still hold what they held; otherwise file block k is the TakeOrder(k)-th block from the top
        of the free stack. */
    method AllocateDataBlocks(inode: Inode, bytes: nat) returns (r: int)
      requires Valid() && inode.number < INODES && inode.number in incore && inode.ic == live[inode.number]
      requires inode.ic.mode != IFZERO && inode.ic.mode != IFDIR
      requires (inode.ic.size + bytes) / 512 < MAX_BLOCKS
      modifies this`live, this`cnt, this`owner, store, store.fdb, inode`ic
      ensures Valid() && inode.ic == live[inode.number] && inode.ic.mode == old(inode.ic.mode)
      ensures var b, n := old(inode.ic.size) / 512, (old(inode.ic.size) + bytes) / 512;
              r == -1 <==> |old(Stack())| < NeedBlocks(b, n)
      ensures r == -1 ==>
                && inode.ic.size == old(inode.ic.size) && Stack() == []
                && OnlyFile(inode.number,
                            FileView(inode.ic, old(Files()[inode.number]).addrs, old(Files()[inode.number]).blocks))
                && forall k | old(inode.ic.size) / 512 + |old(Stack())| < k < NDADDR ::
                  inode.ic.db[k] == old(inode.ic.db)[k]
      ensures r != -1 ==>
                var f, f' := old(Files()[inode.number]), Files()[inode.number];
                && r == inode.ic.size == old(inode.ic.size) + bytes
                && OnlyFile(inode.number, f')
                && Grown(old(Stack()), Stack(), f, f', old(inode.ic.size) / 512, inode.ic.size / 512)
    {
      hide EncodeSuper, FreeStack, View, ToWords, Owned, InodeAt, Recorded, Grown, Views, Growing;
      var num := inode.number;
      var b := inode.ic.size / BLOCK_SIZE;
      var n := (inode.ic.size + bytes) / BLOCK_SIZE;
      ghost var was, files, ic := Stack(), Files(), inode.ic;
      GrownStart(num);

      var i := b + 1;
      while i <= n
        invariant b < i <= n + 1 && |live| == |cnt| == INODES && inode.ic == live[num]
        invariant Growing(num, was, files[num], ic, b, i)
        invariant cnt == old(cnt)[num := i] && live == old(live)[num := inode.ic]
        invariant Files() == files[num := Files()[num]]
      {
        GrowthStops(num, was, files[num], ic, b, i);
        var a := GrowRound(inode, i, was, files[num], ic, b);
        if a == -1 {
          NeedMonotone(b, i, n);
          GiveUp(num, b + 1);
          return -1;
        }
        i := i + 1;
      }

      GrowthDone(num, was, files[num], ic, b, i);
      ghost var g := Files()[num];
      inode.ic := inode.ic.(size := inode.ic.size + bytes);
      Resize(num, inode.ic);
      GrownRelabel(was, Stack(), files[num], g, Files()[num], b, n);
      return inode.ic.size;
    }

    lemma GrowthStops(num: nat, was: seq<word>, f: FileView, ic: Icommon, b: nat, i: nat)
      requires |live| == |cnt| && Growing(num, was, f, ic, b, i) && |f.addrs| == |f.blocks| == b + 1
      ensures Sound() && num < INODES && live[num].size == ic.size && live[num].mode == ic.mode && cnt[num] == i
      ensures Files()[num].ic == live[num] && Files()[num].addrs[..b + 1] == f.addrs
      ensures Files()[num].blocks[..b + 1] == f.blocks
      ensures forall k | b + |was| < k < NDADDR :: live[num].db[k] == ic.db[k]
    {
      hide Grown, Owned, View, Views, EncodeSuper, FreeStack, InodeAt;
      GrownFacts(was, Stack(), f, Files()[num], b, i - 1);
    }

    lemma GrowthDone(num: nat, was: seq<word>, f: FileView, ic: Icommon, b: nat, i: nat)
      requires |live| == |cnt| && Growing(num, was, f, ic, b, i)
      ensures Sound() && num < INODES && live[num].size == ic.size && live[num].mode == ic.mode && cnt[num] == i
      ensures Files()[num].ic == live[num] && Grown(was, Stack(), f, Files()[num], b, i - 1)
      ensures |was| >= NeedBlocks(b, i - 1)
    {
      hide Owned, View, Views, EncodeSuper, FreeStack, InodeAt, Pool;
    }

    lemma NeedMonotone(b: nat, i: nat, n: nat)
      requires i <= n
      ensures NeedBlocks(b, i) <= NeedBlocks(b, n)
    {
    }

    lemma GrownStart(i: nat)
      requires Valid() && i < INODES && live[i].mode != IFZERO && live[i].mode != IFDIR
      ensures cnt[i] == live[i].size / 512 + 1 == |Files()[i].addrs| == |Files()[i].blocks|
      ensures Growing(i, Stack(), Files()[i], live[i], live[i].size / 512, live[i].size / 512 + 1)
    {
      assert Settled(live[i], cnt[i]);
      assert Files()[i] == View(store.disk, live[i], cnt[i]);
    }

    // Drops the blocks of inode i beyond the first n from the account.
    ghost method GiveUp(i: nat, n: nat)
      requires Sound() && i < INODES && n <= cnt[i]
      modifies this`cnt
      ensures Sound() && cnt == old(cnt)[i := n]
      ensures var g := old(Files()[i]); OnlyFile(i, FileView(g.ic, g.addrs[..n], g.blocks[..n]))
    {
      hide View, Owned, FreeStack, EncodeSuper, Recorded;
      assert Files()[i] == View(store.disk, live[i], cnt[i]);
      ViewShape(store.disk, live[i], cnt[i]);
      Shrink(store.disk, Stack(), live, cnt, owner, i, n);
      cnt := cnt[i := n];
    }

    // The record of an in-core inode changes in memory only, keeping its blocks.
    ghost method Resize(i: nat, ic: Icommon)
      requires Sound() && i < INODES && i in incore && SameSlots(live[i], ic, cnt[i]) && ic.mode == live[i].mode
      modifies this`live
      ensures Sound() && live == old(live)[i := ic]
      ensures var f := old(Files()[i]); OnlyFile(i, FileView(ic, f.addrs, f.blocks))
    {
      hide View, Owned, FreeStack, EncodeSuper, InodeAt;
      assert Files()[i] == View(store.disk, live[i], cnt[i]);
      Relabel(store.disk, store.disk, Stack(), live, cnt, owner, i, ic);
      live := live[i := ic];
    }
  
    // Where the freeing loop stands after p pushes; d0, stack0, head0 and fdb0 are from before it.
    ghost predicate FreeingAt(d0: seq<Block>, stack0: seq<word>, head0: word, fdb0: FreeList, num: nat, m: nat, p: nat)
      reads this, store, store.fdb
    {
      && store.Ok() && Owned(d0, stack0, live, cnt, owner) && |owner| == DISK_BLOCKS
      && num < |live| && num < |cnt| && m <= cnt[num] <= MAX_BLOCKS && head0 < FDB_WORDS
      && TopChunk(stack0, head0, fdb0)
      && var f := View(d0, live[num], cnt[num]);
      && p <= |Freed(head0, fdb0, f, m)|
      && Stack() == stack0 + Freed(head0, fdb0, f, m)[..p]
      && Freeing(d0, store.disk, owner, num, f, head0, fdb0, store.fdbhead, store.fdb[..], p)
      && forall b | 0 <= b < FIRST_DATA && b != 1 :: store.disk[b] == d0[b]
    }

    // What a power cut during the loop leaves, after p pushes: every disk image from number n0 on.
    ghost predicate Cuts(n0: nat, d0: seq<Block>, stack0: seq<word>, r: seq<word>, p: nat)
      reads store
    {
      && n0 <= |store.log| && (p == 0 ==> store.disk == d0)
      && forall k | n0 <= k < |store.log| :: CutAt(store.log[k], d0, stack0, r, p)
    }

    // One bfree of the loop.
    method FreeItem(a: word, ghost d0: seq<Block>, ghost stack0: seq<word>, ghost head0: word, ghost fdb0: FreeList,
                    ghost num: nat, ghost m: nat, ghost p: nat, ghost n0: nat)
      requires num < INODES && FreeingAt(d0, stack0, head0, fdb0, num, m, p)
      requires var r := Freed(head0, fdb0, View(d0, live[num], cnt[num]), m);
               p < |r| && a == r[p] && Cuts(n0, d0, stack0, r, p)
      modifies store, store.fdb
      ensures FreeingAt(d0, stack0, head0, fdb0, num, m, p + 1)
      ensures Cuts(n0, d0, stack0, Freed(head0, fdb0, View(d0, live[num], cnt[num]), m), p + 1)
    {
      hide EncodeSuper, FreeStack, ToWords, ToBytes, Freeing, ItemOwner, Owned, View, Freed, CutAt, Boots;
      ghost var f := View(d0, live[num], cnt[num]);
      ViewShape(d0, live[num], cnt[num]);
      OwnedSizes(d0, stack0, live, cnt, owner);
      ghost var r := Freed(head0, fdb0, f, m);
      ItemReady(d0, stack0, head0, fdb0, num, m, p);
      ghost var d, head, fdb := store.disk, store.fdbhead, store.fdb[..];
      var full := store.Bfree(a);
      FreeingStep(d0, d, store.disk, owner, num, f, head0, fdb0, head, fdb, store.fdbhead, store.fdb[..], p, a);
      assert r[..p + 1] == r[..p] + [a];
      assert store.Stack() == stack0 + r[..p + 1] && old(store.Stack()) == stack0 + r[..p];
      MoreCuts(n0, d0, d, stack0, r, p, old(store.log));
    }

    lemma MoreCuts(n0: nat, d0: seq<Block>, d: seq<Block>, stack0: seq<word>, r: seq<word>, p: nat,
                   since: seq<seq<Block>>)
      requires n0 <= |since| && p < |r| && IsData(r[p]) && |d| == |d0| == DISK_BLOCKS
      requires forall k | n0 <= k < |since| :: CutAt(since[k], d0, stack0, r, p)
      requires (forall b | 2 <= b < FIRST_DATA :: d[b] == d0[b]) && (p == 0 ==> d == d0)
      requires store.CrashSafe(since, stack0 + r[..p], stack0 + r[..p + 1]) && store.OnlyIn(since, d, r[p])
      ensures Cuts(n0, d0, stack0, r, p + 1)
    {
      hide Boots, CutAt;
      forall k | n0 <= k < |store.log|
        ensures CutAt(store.log[k], d0, stack0, r, p + 1)
      {
        if k < |since| {
          assert store.log[k] == since[k];
          CutLater(since[k], d0, stack0, r, p);
        } else {
          CutStep(store.log[k], d0, d, stack0, r, p);
        }
      }
    }

    lemma ItemReady(d0: seq<Block>, stack0: seq<word>, head0: word, fdb0: FreeList, num: nat, m: nat, p: nat)
      requires num < INODES && FreeingAt(d0, stack0, head0, fdb0, num, m, p)
      requires p < |Freed(head0, fdb0, View(d0, live[num], cnt[num]), m)|
      ensures var f := View(d0, live[num], cnt[num]);
              var a := Freed(head0, fdb0, f, m)[p];
              && p <= MAX_BLOCKS
              && ItemOwner(owner, num, head0, p, a)
              && IsData(a)
              && (SlotOf(p) < |f.addrs| || (SlotOf(p) == IND && |f.addrs| > NDADDR))
              && a == ItemAt(head0, fdb0, f, p)
              && (|f.addrs| > NDADDR ==> IsData(f.ic.ib[0]) && owner[f.ic.ib[0]] == Slot(num, IND))
              && (store.fdbhead == 63 ==> a !in store.chain)
    {
      hide EncodeSuper, ToWords, ToBytes, SlotAddr, InodeOwned;
      var f := View(d0, live[num], cnt[num]);
      var r := Freed(head0, fdb0, f, m);
      assert InodeOwned(d0, live[num], cnt[num], owner, num);
      var bottom := stack0[..|stack0| - head0];
      assert stack0 == bottom + fdb0[1..head0 + 1];
      forall q | 0 <= q < |r|
        ensures ItemOwner(owner, num, head0, q, r[q])
      {
        ItemOwned(d0, stack0, live, cnt, owner, head0, fdb0, bottom, num, m, q);
      }
      FreedItem(head0, fdb0, f, m, p);
      if cnt[num] > NDADDR {
        IndexSlot(d0, live[num], cnt[num], owner, num);
      }
      if store.fdbhead == 63 {
        NotFreedYet(stack0, owner, num, head0, r, p, 63);
        ChunksAreFree(store.disk, store.chain);
      }
    }

    lemma FreeingStart(num: nat)
      requires Valid() && num < INODES
      ensures FreeingAt(store.disk, Stack(), store.fdbhead, store.fdb[..], num, LeafCount(live[num]), 0)
      ensures LeafCount(live[num]) <= |Files()[num].addrs|
      ensures Files()[num] == View(store.disk, live[num], cnt[num])
    {
      hide EncodeSuper, ToWords, View, InodeOwned, Freeing, TopChunk, Freed, StackOwned, Recorded, FreeStack;
      assert Settled(live[num], cnt[num]);
      assert cnt[num] <= MAX_BLOCKS by { AtMost(store.disk, live[num], cnt[num], owner, num); }
      ViewShape(store.disk, live[num], cnt[num]);
      var fdb, f, m := store.fdb[..], View(store.disk, live[num], cnt[num]), LeafCount(live[num]);
      TopOfStack(store.disk, fdb, store.fdbhead, store.chain);
      FreeingNone(store.disk, owner, num, f, store.fdbhead, fdb);
      assert Freed(store.fdbhead, fdb, f, m)[..0] == [];
    }

    lemma NextLeaf(d0: seq<Block>, stack0: seq<word>, head0: word, fdb0: FreeList, num: nat, m: nat, k: nat)
      requires num < INODES && k < m && FreeingAt(d0, stack0, head0, fdb0, num, m, Pushes(k))
      ensures var r := Freed(head0, fdb0, View(d0, live[num], cnt[num]), m);
              Position(k) == Pushes(k) < |r| && TreeAddr(store.disk, live[num], k) == r[Pushes(k)]
      ensures TreeReal(store.disk, live[num], k)
    {
      hide EncodeSuper, ToWords, SlotAddr, BlockOf, InodeOwned, Freeing, TreeAddr, TreeReal;
      var f := View(d0, live[num], cnt[num]);
      assert InodeOwned(d0, live[num], cnt[num], owner, num);
      FreeingReads(d0, store.disk, owner, num, live[num], cnt[num], head0, fdb0, store.fdbhead, store.fdb[..], k);
      LookupIsSlot(store.disk, live[num], k);
      FreedItem(head0, fdb0, f, m, Pushes(k));
    }

    lemma NextIndirect(d0: seq<Block>, stack0: seq<word>, head0: word, fdb0: FreeList, num: nat, m: nat)
      requires num < INODES && m > NDADDR && FreeingAt(d0, stack0, head0, fdb0, num, m, NDADDR + 1)
      ensures var r := Freed(head0, fdb0, View(d0, live[num], cnt[num]), m);
              NDADDR + 1 < |r| && r[NDADDR + 1] == live[num].ib[0]
    {
      hide EncodeSuper, ToWords, SlotAddr, BlockOf, Freeing, Owned;
      FreedItem(head0, fdb0, View(d0, live[num], cnt[num]), m, NDADDR + 1);
    }

    lemma FreeingEnd(d0: seq<Block>, stack0: seq<word>, head0: word, fdb0: FreeList, num: nat, m: nat)
      requires num < INODES && FreeingAt(d0, stack0, head0, fdb0, num, m, Pushes(m))
      ensures store.Ok() && |d0| == DISK_BLOCKS
      ensures forall b | FIRST_INODE_BLOCK <= b < FIRST_DATA :: store.disk[b] == d0[b]
      ensures m <= |View(d0, live[num], cnt[num]).addrs|
      ensures Stack() == stack0 + Freed(head0, fdb0, View(d0, live[num], cnt[num]), m)
      ensures NoDup(Stack()) <==> !Clobbers(head0, m)
      ensures !Clobbers(head0, m) ==>
                && Owned(store.disk, Stack(), live, cnt[num := 0], AfterRelease(owner, num, m, |stack0|))
                && Views(store.disk, live, cnt[num := 0]) == Views(d0, live, cnt)[num := FileView(live[num], [], [])]
    {
      hide EncodeSuper, ToWords, View, Owned, Views, FreeStack;
      ViewShape(d0, live[num], cnt[num]);
      var bottom := stack0[..|stack0| - head0];
      assert stack0 == bottom + fdb0[1..head0 + 1];
      var r := Freed(head0, fdb0, View(d0, live[num], cnt[num]), m);
      assert r[..Pushes(m)] == r;
      OwnedSizes(d0, stack0, live, cnt, owner);
      FreedOnce(d0, stack0, live, cnt, owner, head0, fdb0, bottom, num, m);
      if !Clobbers(head0, m) {
        ReleaseAll(d0, store.disk, stack0, live, cnt, owner, head0, fdb0, num, m);
      }
    }

    // One round of the loop: the file block that holds byte i, and the indirect block after block 11.
    method FreeRound(inode: Inode, i: nat, ghost d0: seq<Block>, ghost stack0: seq<word>, ghost head0: word,
                     ghost fdb0: FreeList, ghost num: nat, ghost m: nat, ghost n0: nat)
      requires num < INODES && i % 512 == 0 && i / 512 < m
      requires FreeingAt(d0, stack0, head0, fdb0, num, m, Pushes(i / 512))
      requires Cuts(n0, d0, stack0, Freed(head0, fdb0, View(d0, live[num], cnt[num]), m), Pushes(i / 512))
      requires inode.ic == live[num]
      modifies store, store.fdb
      ensures FreeingAt(d0, stack0, head0, fdb0, num, m, Pushes(i / 512 + 1))
      ensures Cuts(n0, d0, stack0, Freed(head0, fdb0, View(d0, live[num], cnt[num]), m), Pushes(i / 512 + 1))
    {
      hide EncodeSuper, FreeStack, ToWords, ToBytes, Freeing, ItemOwner, Owned, View, Views, Freed, TreeAddr, TreeReal,
           CutAt;
      var blk := i / BLOCK_SIZE;
      NextLeaf(d0, stack0, head0, fdb0, num, m, blk);
      var addr := GetDataBlockAddr(inode, i);
      FreeItem(addr, d0, stack0, head0, fdb0, num, m, Position(blk), n0);
      if blk >= NDADDR {
        blk := blk - NDADDR;
        if blk == 0 {
          NextIndirect(d0, stack0, head0, fdb0, num, m);
          FreeItem(inode.ic.ib[0], d0, stack0, head0, fdb0, num, m, NDADDR + 1, n0);
        }
      }
    }

    /** Frees an inode's blocks. In every case exactly the addresses `Freed` go on the free list, in
        that order; the free list and the account stay consistent unless the indirect block's
        pointers were clobbered, and then the free list holds a block twice. */
    method FreeDataBlocks(inode: Inode) returns (r: int)
      requires Valid() && inode.number < INODES && inode.ic == live[inode.number]
      modifies this`cnt, this`owner, this`freed, store, store.fdb
      ensures store.Ok()
      ensures Stack() == old(Stack()) + Freed(old(store.fdbhead), old(store.fdb[..]), old(Files()[inode.number]),
                                              LeafCount(inode.ic))
      ensures NoDup(Stack()) <==> !Clobbers(old(store.fdbhead), LeafCount(inode.ic))
      ensures |live| == |cnt| == INODES
      ensures var r := Freed(old(store.fdbhead), old(store.fdb[..]), old(Files()[inode.number]), LeafCount(inode.ic));
              Cuts(|old(store.log)|, old(store.disk), old(Stack()), r, |r|)
      ensures !Clobbers(old(store.fdbhead), LeafCount(inode.ic)) ==>
                Sound() && cnt == old(cnt)[inode.number := 0] && OnlyFile(inode.number, FileView(inode.ic, [], []))
    {
      hide EncodeSuper, FreeStack, ToWords, ToBytes, Freeing, ItemOwner, Owned, View, Views, Freed, InodeAt,
           FreeingAt, Settled, CutAt;
      var num := inode.number;
      ghost var d0, stack0, head0, fdb0, n0 := store.disk, Stack(), store.fdbhead, store.fdb[..], |store.log|;
      ghost var m := LeafCount(inode.ic);
      FreeingStart(num);
      var i := 0;
      while i < inode.ic.size
        invariant i % 512 == 0 && i / 512 <= m
        invariant FreeingAt(d0, stack0, head0, fdb0, num, m, Pushes(i / 512))
        invariant m <= |View(d0, live[num], cnt[num]).addrs|
        invariant Cuts(n0, d0, stack0, Freed(head0, fdb0, View(d0, live[num], cnt[num]), m), Pushes(i / 512))
        modifies store, store.fdb
      {
        FreeRound(inode, i, d0, stack0, head0, fdb0, num, m, n0);
        i := i + BLOCK_SIZE;
      }
      FreeingEnd(d0, stack0, head0, fdb0, num, m);
      freed := true;
      if !Clobbers(head0, m) {
        SameInodeBlocks(d0, store.disk);
        cnt, owner := cnt[num := 0], AfterRelease(owner, num, m, |stack0|);
      }
      return 0;
    }

    /** The end of unlink: an inode without an in-core copy gives up its blocks and becomes unused. */
    method Erase(inode: Inode)
      requires Valid() && inode.number < INODES && inode.number !in incore && inode.ic == live[inode.number]
      modifies this`live, this`cnt, this`owner, this`freed, store, store.fdb, inode`ic
      ensures store.Ok() && |live| == |cnt| == INODES && inode.ic == old(inode.ic).(mode := IFZERO, size := 0)
      ensures Stack() == old(Stack()) + Freed(old(store.fdbhead), old(store.fdb[..]), old(Files()[inode.number]),
                                              LeafCount(old(inode.ic)))
      ensures var r := Freed(old(store.fdbhead), old(store.fdb[..]), old(Files()[inode.number]),
                             LeafCount(old(inode.ic)));
              var n := |store.log| - 1;
              && n >= |old(store.log)| && store.log[n] == store.disk
              && forall k | |old(store.log)| <= k < n :: CutAt(store.log[k], old(store.disk), old(Stack()), r, |r|)
      ensures Clobbers(old(store.fdbhead), LeafCount(old(inode.ic))) ==> !NoDup(Stack())
      ensures !Clobbers(old(store.fdbhead), LeafCount(old(inode.ic))) ==>
                && Valid() && live == old(live)[inode.number := inode.ic]
                && OnlyFile(inode.number, FileView(inode.ic, [], []))
    {
      hide Owned, View, Views, EncodeSuper, InodeAt, FreeStack, Freed, NoDup, CutAt;
      ghost var n, live0, files0 := inode.number, live, Files();
      var z := FreeDataBlocks(inode);
      ghost var d := store.disk;
      inode.ic := inode.ic.(mode := IFZERO, size := 0);
      WriteInode(inode);
      if !Clobbers(old(store.fdbhead), LeafCount(old(inode.ic))) {
        Relabel(d, store.disk, Stack(), live, cnt, owner, n, inode.ic);
        live := live[n := inode.ic];
        Blank(d, live0[n]);
        assert Files() == files0[n := FileView(inode.ic, [], [])];
      }
    }
  }

  lemma Blank(d: seq<Block>, ic: Icommon)
    ensures View(d, ic, 0).addrs == [] && View(d, ic, 0).blocks == []
  {
  }

  // The in-memory chunk is the top of the free stack.
  ghost predicate TopChunk(stack: seq<word>, head: word, fdb: FreeList) {
    head < FDB_WORDS && |stack| >= head && stack[|stack| - head..] == fdb[1..head + 1]
  }

  lemma TopOfStack(d: seq<Block>, fdb: FreeList, head: word, chain: seq<word>)
    requires head < FDB_WORDS
    ensures TopChunk(FreeStack(d, fdb, head, chain), head, fdb)
  {
    hide ChunkStack;
  }

  lemma FreeingNone(d: seq<Block>, owner: seq<Owner>, num: nat, f: FileView, head: nat, fdb: FreeList)
    requires |d| == |owner| == DISK_BLOCKS && head < FDB_WORDS
    ensures Freeing(d, d, owner, num, f, head, fdb, head, fdb, 0)
  {
  }

  lemma AtMost(d: seq<Block>, ic: Icommon, n: nat, owner: seq<Owner>, i: nat)
    requires |owner| == DISK_BLOCKS && InodeOwned(d, ic, n, owner, i)
    ensures n <= MAX_BLOCKS
  {
  }

  lemma OwnedSizes(d: seq<Block>, stack: seq<word>, live: seq<Icommon>, cnt: seq<nat>, owner: seq<Owner>)
    requires Owned(d, stack, live, cnt, owner)
    ensures |d| == |owner| == DISK_BLOCKS && |live| == |cnt| == INODES
  {
  }

  lemma ViewShape(d: seq<Block>, ic: Icommon, n: nat)
    ensures var f := View(d, ic, n); f.ic == ic && |f.addrs| == |f.blocks| == n
  {
  }

  ghost predicate Settled(ic: Icommon, n: nat) {
    if ic.mode == IFZERO then n == 0 && ic.size == 0 else n == NBlocks(ic)
  }
}

/** allocateDataBlockAddr for file blocks from 139 on, as written: its double and triple indirect
    branches take the steps that module DeepTree judges. */
module DeepAlloc {
  import opened Bytes
  import opened Formats
  import opened FreeChain
  import opened FreeBlocks
  import opened FileMap
  import opened BlockTree
  import opened Inodes
  import opened FileSys
  import opened Release
  import opened DeepTree

  // The two disks agree on everything but superblock and inodes.
  ghost predicate SameData(d: seq<Block>, e: seq<Block>) {
    |d| == |e| == DISK_BLOCKS && forall b | IsData(b) :: d[b] == e[b]
  }

  ghost predicate StackFine(stack: seq<word>) {
    NoDup(stack) && forall a | a in stack :: IsData(a)
  }

  // The first words of the blocks before the data region are the same, but for block `skip`.
  ghost predicate FrontSame(d: seq<Block>, e: seq<Block>, skip: int) {
    |d| == |e| == DISK_BLOCKS && forall b: word | b < FIRST_DATA && b != skip :: Ptr(d, b, 0) == Ptr(e, b, 0)
  }

  // Every index block the code meets on the way to leaf n is a data block in use; nothing is asked of
  // the last one, into which the leaf's address goes.
  ghost predicate RealPath(d: seq<Block>, a: word, h: nat, n: nat, stack: seq<word>)
    decreases h
  {
    h > 1 ==>
      && IsData(a) && a !in stack
      && (Above(n, h - 1) != Count(n, h - 1) ==> RealPath(d, Ptr(d, a, Above(n, h - 1) % 128), h - 1, n, stack))
  }

  // The top k blocks of the free list, topmost first.
  function TopFirst(stack: seq<word>, k: nat): (r: seq<word>)
    requires k <= |stack|
    ensures |r| == k
  {
    seq(k, i requires 0 <= i < k => stack[|stack| - 1 - i])
  }

  // Blocks one call takes: the leaf, missing index blocks, and the root for the very first leaf.
  function BlocksTaken(n: nat, top: nat): nat {
    1 + NewNodes(n, top) + if n == 0 then 1 else 0
  }

  lemma PopFine(stack: seq<word>, a: word, was: seq<word>)
    requires StackFine(was) && stack + [a] == was
    ensures StackFine(stack) && IsData(a) && a !in stack
  {
    assert forall i | 0 <= i < |stack| :: stack[i] == was[i];
    assert was[|stack|] == a;
    assert forall b | b in stack :: b in was;
  }

  lemma SameStep(d: seq<Block>, e: seq<Block>, a: word, slot: nat, x: word, into: word)
    requires SameData(d, e) && IsData(a) && IsData(into) && slot < LS
    ensures Ptr(d, a, slot) == Ptr(e, a, slot)
    ensures SameData(Patch(d, a, slot, x, into), Patch(e, a, slot, x, into))
  {
  }

  // The disk after address x was stored in index block a, if there is such a block.
  function Stored(d: seq<Block>, a: word, slot: nat, x: word): (r: seq<Block>)
    requires |d| == DISK_BLOCKS && slot < LS
    ensures |r| == |d|
  {
    if a < |d| then Patch(d, a, slot, x, a) else d
  }

  lemma SameStored(d: seq<Block>, e: seq<Block>, a: word, slot: nat, x: word)
    requires SameData(d, e) && slot < LS
    ensures SameData(Stored(d, a, slot, x), Stored(e, a, slot, x))
  {
  }

  // The superblock starts with its own address.
  lemma SuperFirst(s: Store)
    requires s.Ok()
    ensures Ptr(s.disk, 1, 0) == 1
  {
    hide ToWords;
    var ws := SuperWords(s.Sb());
    StoredWord(ws, EncodeSuper(s.Sb()), 0);
    assert ToWords(s.disk[1])[0] == WordAt(s.disk[1], 0) by { FirstOfWords(s.disk[1]); }
  }

  lemma FirstOfWords(b: Block)
    ensures ToWords(b)[0] == WordAt(b, 0)
  {
  }

  // An inode block starts with the mode of its first inode.
  lemma InodeFirst(d: seq<Block>, q: nat)
    requires |d| == DISK_BLOCKS && q < 64
    ensures Ptr(d, FIRST_INODE_BLOCK + q, 0) == InodeAt(d, 8 * q).mode
  {
    hide ToWords;
    assert 8 * q / 8 == q && 8 * q % 8 == 0;
    var ws := ToWords(d[FIRST_INODE_BLOCK + q]);
    assert ws[0..16][0] == ws[0];
  }

  // One level down: where an index block is missing, a new one is allocated, filled from its parent
  // with the new pointer in place, and only then written, to its own address.
  method NextLevel(fs: FileSystem, taddr: word, slot: nat, missing: bool, ghost e: seq<Block>)
    returns (next: int, ghost e': seq<Block>)
    requires fs.store.Ok() && StackFine(fs.Stack()) && SameData(fs.store.disk, e)
    requires slot < LS && IsData(taddr) && taddr !in fs.Stack()
    modifies fs.store, fs.store.fdb
    ensures fs.store.Ok() && StackFine(fs.Stack())
    ensures next == -1 <==> missing && old(fs.Stack()) == []
    ensures !missing ==> next == Ptr(e, taddr, slot) && e' == e && fs.Stack() == old(fs.Stack())
    ensures missing && next != -1 ==> fs.Stack() + [next] == old(fs.Stack()) && IsData(next) && next !in fs.Stack()
                                      && e' == Patch(e, taddr, slot, next, next)
    ensures next != -1 ==> SameData(fs.store.disk, e') && FrontSame(old(fs.store.disk), fs.store.disk, -1)
  {
    hide EncodeSuper, FreeStack, ToWords, ToBytes;
    var block := fs.store.ReadBlock(taddr);
    e' := e;
    SameStep(fs.store.disk, e, taddr, slot, 0, taddr);
    SuperFirst(fs.store);
    if missing {
      next := fs.store.Balloc();
      SuperFirst(fs.store);
      if next != -1 {
        ghost var was := old(fs.Stack());
        assert was[|was| - 1] == next;
        PopFine(fs.Stack(), next, was);
        NotInChain(fs, next);
        var ws := ToWords(block)[slot := next];
        e' := Patch(e, taddr, slot, next, next);
        fs.store.WriteBlock(next, ToBytes(ws));
        WholeBlock(ws, old(fs.store.disk)[next]);
      }
    } else {
      next := ToWords(block)[slot];
    }
  }

  lemma WholeBlock(ws: seq<word>, was: Block)
    requires |ws| == WORDS_PER_BLOCK
    ensures ToBytes(ws) + was[|ToBytes(ws)|..] == ToBytes(ws)
  {
  }

  lemma NotInChain(fs: FileSystem, a: word)
    requires fs.store.Ok() && a !in fs.Stack()
    ensures a !in fs.store.chain
  {
    ChunksInStack(fs.store);
  }

  lemma ChunksInStack(s: Store)
    requires s.Listed()
    ensures forall c | c in s.chain :: IsData(c) && c in s.Stack()
  {
    ChunksAreFree(s.disk, s.chain);
  }

  // The last level: the leaf's address goes into its index block, whatever word led there.
  method StoreLeaf(fs: FileSystem, taddr: word, slot: nat, addr: word)
    requires fs.store.Ok() && slot < LS
    modifies fs.store`disk, fs.store`log
    ensures fs.store.disk == Stored(old(fs.store.disk), taddr, slot, addr)
    ensures Harmless(taddr, fs.store.chain) ==> fs.store.Ok() && fs.Stack() == old(fs.Stack())
  {
    hide EncodeSuper, FreeStack, ToWords, ToBytes;
    var block := fs.store.DiskRd(taddr);
    var ws := ToWords(block)[slot := addr];
    fs.store.DiskWr(taddr, ToBytes(ws));
    if taddr < DISK_BLOCKS {
      WholeBlock(ws, old(fs.store.disk)[taddr]);
    } else {
      BeyondChain(fs, taddr);
    }
  }

  // A write to a touches neither superblock nor chunk blocks.
  ghost predicate Harmless(a: word, chain: seq<word>) {
    a != 1 && a !in chain
  }

  lemma BeyondChain(fs: FileSystem, a: word)
    requires fs.store.Ok() && a >= DISK_BLOCKS
    ensures a !in fs.store.chain
  {
  }

  lemma DescendMissing(d: seq<Block>, a: word, h: nat, n: nat, t: word, news: seq<word>, x: word)
    requires |d| == DISK_BLOCKS && h >= 2 && a < |d| && t < |d| && Above(n, h - 1) == Count(n, h - 1)
    ensures Descend(d, a, h, n, [t] + news, x, false)
         == Descend(Patch(d, a, Above(n, h - 1) % 128, t, t), t, h - 1, n, news, x, false)
  {
    hide Ptr, Above, Count, Patch;
    assert ([t] + news)[1..] == news;
  }

  lemma DescendPresent(d: seq<Block>, a: word, h: nat, n: nat, news: seq<word>, x: word)
    requires |d| == DISK_BLOCKS && h >= 2 && a < |d| && Above(n, h - 1) != Count(n, h - 1)
    ensures Descend(d, a, h, n, news, x, false) ==
              Descend(d, Ptr(d, a, Above(n, h - 1) % 128), h - 1, n, news, x, false)
  {
    hide Ptr, Above, Count, Patch;
  }

  // The kernel's index arithmetic, in terms of nodes.
  lemma IndexArithmetic(n: nat)
    ensures Above(n, 1) == n / 128 && Above(n, 2) == n / 16384
    ensures n % 128 == 0 <==> Above(n, 1) == Count(n, 1)
    ensures n % 16384 == 0 <==> Above(n, 2) == Count(n, 2)
    ensures n % 16384 / 128 == Above(n, 1) % 128 && n % 16384 % 128 == n % 128
  {
    CountUp(n, 0);
    CountUp(n, 1);
    LeafAbove(n);
  }

  lemma TopFirstPush(stack: seq<word>, t: word, k: nat)
    requires k <= |stack|
    ensures TopFirst(stack + [t], k + 1) == [t] + TopFirst(stack, k)
    ensures TopFirst(stack, 0) == []
  {
  }

  // The way ahead from index block a of height h, in the blocks still on the free list, ends where the
  // way ahead from a0 of height h0 did.
  ghost predicate OnTrack(e0: seq<Block>, a0: word, h0: nat, stack0: seq<word>, e: seq<Block>, a: word, h: nat,
      stack: seq<word>, n: nat, x: word)
    requires |e0| == |e| == DISK_BLOCKS && h0 >= 1 && h >= 1
  {
    && stack <= stack0
    && |stack| - NewNodes(n, h) == |stack0| - NewNodes(n, h0)
    && (|stack| >= NewNodes(n, h) ==>
          Descend(e, a, h, n, TopFirst(stack, NewNodes(n, h)), x, false)
          == Descend(e0, a0, h0, n, TopFirst(stack0, NewNodes(n, h0)), x, false))
  }

  lemma DownTrack(e: seq<Block>, a: word, h: nat, was: seq<word>, next: word, now: seq<word>, n: nat, x: word)
    requires |e| == DISK_BLOCKS && h >= 2 && RealPath(e, a, h, n, was)
    requires if Above(n, h - 1) == Count(n, h - 1) then now + [next] == was && IsData(next) && next !in now
             else now == was && next == Ptr(e, a, Above(n, h - 1) % 128)
    ensures var e' := if Above(n, h - 1) == Count(n, h - 1) then Patch(e, a, Above(n, h - 1) % 128, next, next) else e;
            OnTrack(e, a, h, was, e', next, h - 1, now, n, x) && RealPath(e', next, h - 1, n, now)
  {
    hide Ptr, Above, Count, Patch, Descend, TopFirst;
    if Above(n, h - 1) == Count(n, h - 1) {
      var k := NewNodes(n, h - 1);
      NewBelow(n, h - 1);
      if |now| >= k {
        TopFirstPush(now, next, k);
        DescendMissing(e, a, h, n, next, TopFirst(now, k), x);
      }
    } else {
      DescendPresent(e, a, h, n, TopFirst(was, if |was| >= NewNodes(n, h) then NewNodes(n, h) else 0), x);
    }
  }

  // NextLevel on the way to leaf n.
  method Down(fs: FileSystem, taddr: word, slot: nat, missing: bool, ghost h: nat, ghost n: nat, ghost x: word,
              ghost e: seq<Block>)
    returns (next: int, ghost e': seq<Block>)
    requires fs.store.Ok() && StackFine(fs.Stack()) && SameData(fs.store.disk, e)
    requires h >= 2 && slot == Above(n, h - 1) % 128 && (missing <==> Above(n, h - 1) == Count(n, h - 1))
    requires RealPath(e, taddr, h, n, fs.Stack())
    modifies fs.store, fs.store.fdb
    ensures fs.store.Ok() && StackFine(fs.Stack())
    ensures next == -1 ==> |old(fs.Stack())| < NewNodes(n, h)
    ensures next != -1 ==>
              && 0 <= next < 0x1_0000_0000 && SameData(fs.store.disk, e')
              && FrontSame(old(fs.store.disk), fs.store.disk, -1)
              && RealPath(e', next, h - 1, n, fs.Stack())
              && OnTrack(e, taddr, h, old(fs.Stack()), e', next, h - 1, fs.Stack(), n, x)
              && if missing then fs.Stack() + [next] == old(fs.Stack()) && IsData(next) && next !in fs.Stack()
                 else next == Ptr(e, taddr, slot)
  {
    hide EncodeSuper, FreeStack, Ptr, Patch, Descend, TopFirst, Above, Count, OnTrack, FrontSame;
    next, e' := NextLevel(fs, taddr, slot, missing, e);
    if next != -1 {
      DownTrack(e, taddr, h, old(fs.Stack()), next, fs.Stack(), n, x);
    }
  }

  lemma {:induction false} RealPathShrink(d: seq<Block>, a: word, h: nat, n: nat, was: seq<word>, now: seq<word>)
    requires RealPath(d, a, h, n, was) && now <= was
    ensures RealPath(d, a, h, n, now)
    decreases h
  {
    hide Ptr, Above, Count;
    if h > 1 && Above(n, h - 1) != Count(n, h - 1) {
      RealPathShrink(d, Ptr(d, a, Above(n, h - 1) % 128), h - 1, n, was, now);
    }
  }

  // The root of the tree of `top` levels: for leaf 0 a new block, entered in the inode.
  method TakeRoot(fs: FileSystem, inode: Inode, top: nat, n: nat, ghost e: seq<Block>) returns (taddr: int)
    requires fs.store.Ok() && StackFine(fs.Stack()) && SameData(fs.store.disk, e) && inode.number < INODES
    requires 1 <= top <= 3
    requires n > 0 ==> RealPath(e, inode.ic.ib[top - 1], top, n, fs.Stack())
    modifies fs.store, fs.store.fdb, inode`ic
    ensures fs.store.Ok() && StackFine(fs.Stack()) && SameData(fs.store.disk, e)
    ensures taddr == -1 <==> n == 0 && old(fs.Stack()) == []
    ensures n > 0 ==> taddr == inode.ic.ib[top - 1] && inode.ic == old(inode.ic) && fs.Stack() == old(fs.Stack())
    ensures n == 0 && taddr != -1 ==> IsData(taddr) && fs.Stack() + [taddr] == old(fs.Stack())
                                      && inode.ic == old(inode.ic).(ib := old(inode.ic).ib[top - 1 := taddr])
    ensures taddr != -1 ==> 0 <= taddr < 0x1_0000_0000 && RealPath(e, taddr, top, n, fs.Stack())
    ensures FrontSame(old(fs.store.disk), fs.store.disk, FIRST_INODE_BLOCK + inode.number / 8)
    ensures InodeAt(old(fs.store.disk), inode.number).mode == old(inode.ic).mode ==>
              FrontSame(old(fs.store.disk), fs.store.disk, -1)
  {
    hide EncodeSuper, FreeStack, Ptr, Above, Count, InodeAt;
    SuperFirst(fs.store);
    InodeFirst(fs.store.disk, inode.number / 8);
    if n == 0 {
      taddr := fs.store.Balloc();
      SuperFirst(fs.store);
      if taddr == -1 {
        return -1;
      }
      ghost var was := old(fs.Stack());
      assert was[|was| - 1] == taddr;
      PopFine(fs.Stack(), taddr, was);
      inode.ic := inode.ic.(ib := inode.ic.ib[top - 1 := taddr]);
      ghost var d := fs.store.disk;
      SameInodeBlocks(old(fs.store.disk), d);
      fs.WriteInode(inode);
      SuperFirst(fs.store);
      FrontWritten(old(fs.store.disk), fs.store.disk, inode.number);
      NoneYet(top - 1);
    } else {
      taddr := inode.ic.ib[top - 1];
    }
  }

  // Storing one inode leaves the first word of its block as it was if the inode's mode is.
  lemma FrontWritten(d: seq<Block>, d': seq<Block>, num: nat)
    requires |d| == |d'| == DISK_BLOCKS && num < INODES && d'[0] == d[0] && Ptr(d', 1, 0) == Ptr(d, 1, 0)
    requires forall i | 0 <= i < INODES && i != num :: InodeAt(d', i) == InodeAt(d, i)
    ensures FrontSame(d, d', FIRST_INODE_BLOCK + num / 8)
    ensures InodeAt(d', num).mode == InodeAt(d, num).mode ==> FrontSame(d, d', -1)
  {
    hide InodeAt, ToWords;
    forall b: word | b < FIRST_DATA
      ensures b != FIRST_INODE_BLOCK + num / 8 || InodeAt(d', num).mode == InodeAt(d, num).mode ==>
                Ptr(d, b, 0) == Ptr(d', b, 0)
    {
      if b >= FIRST_INODE_BLOCK {
        InodeFirst(d, b - FIRST_INODE_BLOCK);
        InodeFirst(d', b - FIRST_INODE_BLOCK);
      }
    }
  }

  // Where the first balloc of the call leaves the way to leaf n.
  lemma FirstPop(d: seq<Block>, a: word, top: nat, n: nat, was: seq<word>, now: seq<word>, addr: word)
    requires StackFine(was) && now + [addr] == was && top >= 1
    requires n > 0 ==> RealPath(d, a, top, n, was)
    ensures StackFine(now)
    ensures n > 0 ==> RealPath(d, a, top, n, now)
  {
    hide RealPath;
    PopFine(now, addr, was);
    if n > 0 {
      RealPathShrink(d, a, top, n, was, now);
    }
  }

  // The whole append, seen from where the way to leaf n starts.
  lemma WholeAppend(d: seq<Block>, a: word, top: nat, n: nat, was: seq<word>, root: word, now: seq<word>, addr: word)
    requires |d| == DISK_BLOCKS && top >= 1 && |was| >= BlocksTaken(n, top)
    requires if n == 0 then was == now + [root, addr] else root == a && was == now + [addr]
    ensures var news := TopFirst(was, BlocksTaken(n, top))[1..];
            Append(d, a, top, n, news, addr, false) ==
            (root, Descend(d, root, top, n, TopFirst(now, NewNodes(n, top)), addr, false))
  {
    hide Descend, TopFirst;
    var k := NewNodes(n, top);
    if n == 0 {
      assert was == (now + [root]) + [addr];
      TopFirstPush(now + [root], addr, k + 1);
      TopFirstPush(now, root, k);
      assert ([addr] + ([root] + TopFirst(now, k)))[1..] == [root] + TopFirst(now, k);
      assert ([root] + TopFirst(now, k))[1..] == TopFirst(now, k);
    } else {
      TopFirstPush(now, addr, k);
      assert ([addr] + TopFirst(now, k))[1..] == TopFirst(now, k);
    }
  }

  // At the last index block only the leaf itself is left to store.
  lemma LastStep(e: seq<Block>, a: word, n: nat, addr: word, stack: seq<word>)
    requires |e| == DISK_BLOCKS
    ensures NewNodes(n, 1) == 0
    ensures Descend(e, a, 1, n, TopFirst(stack, NewNodes(n, 1)), addr, false) == Stored(e, a, n % 128, addr)
  {
    hide Patch;
    LeafAbove(n);
  }

  lemma OnTrackTwice(e0: seq<Block>, a0: word, h0: nat, stack0: seq<word>, e1: seq<Block>, a1: word, h1: nat,
                     stack1: seq<word>, e2: seq<Block>, a2: word, h2: nat, stack2: seq<word>, n: nat, x: word)
    requires |e0| == |e1| == |e2| == DISK_BLOCKS && h0 >= 1 && h1 >= 1 && h2 >= 1
    requires NewNodes(n, h1) >= NewNodes(n, h2)
    requires OnTrack(e0, a0, h0, stack0, e1, a1, h1, stack1, n, x)
    requires OnTrack(e1, a1, h1, stack1, e2, a2, h2, stack2, n, x)
    ensures OnTrack(e0, a0, h0, stack0, e2, a2, h2, stack2, n, x)
  {
    hide Descend, TopFirst, NewNodes;
  }

  /** The outcome of the call: from disk d0 and free list `was`, for leaf n of the tree of `top` levels
      rooted at a. It fails exactly when the list is too short. Otherwise, apart from superblock and
      inodes, the disk is what the unrepaired append makes of it with the topmost free blocks, and its
      last step stored the leaf's address in block `last` of disk `pre`. */
  ghost predicate DeepOutcome(d0: seq<Block>, was: seq<word>, ic0: Icommon, top: nat, n: nat, r: int, ic: Icommon,
                              d: seq<Block>, pre: seq<Block>, last: word)
    requires |d0| == DISK_BLOCKS && 1 <= top <= 3
  {
    var k := BlocksTaken(n, top);
    && (r == -1 <==> |was| < k)
    && (r != -1 ==>
          && 0 <= r < DISK_BLOCKS && r == was[|was| - 1] && |pre| == DISK_BLOCKS
          && d == Stored(pre, last, n % 128, r)
          && var (root, d1) := Append(d0, ic0.ib[top - 1], top, n, TopFirst(was, k)[1..], r, false);
             ic == ic0.(ib := ic0.ib[top - 1 := root]) && SameData(d, d1))
  }

  // Free list and front of the disk where the call succeeds.
  ghost predicate Aftermath(d0: seq<Block>, was: seq<word>, top: nat, n: nat, num: nat, steady: bool, pre: seq<Block>,
                            last: word, root: word, ok: bool, stack: seq<word>, chain: seq<word>)
  {
    var k := BlocksTaken(n, top);
    && |was| >= k && |d0| == DISK_BLOCKS
    && FrontSame(d0, pre, FIRST_INODE_BLOCK + num / 8) && (steady ==> FrontSame(d0, pre, -1))
    && (top == 2 ==> last == if n % 128 == 0 then was[|was| - k] else Ptr(d0, root, n / 128))
    && (Harmless(last, chain) ==> ok && stack == was[..|was| - k])
    && forall c | c in chain :: IsData(c) && c in was[..|was| - k]
  }

  lemma RestOfStack(was: seq<word>, now: seq<word>, stack: seq<word>, n: nat, top: nat, root: word, addr: word)
    requires if n == 0 then was == now + [root, addr] else was == now + [addr]
    requires stack <= now && |stack| == |now| - NewNodes(n, top)
    ensures |was| >= BlocksTaken(n, top) && was[..|was| - BlocksTaken(n, top)] == stack
  {
    hide NewNodes;
    assert now == was[..|now|];
  }

  // Everything after the last index block has been reached.
  method Finish(fs: FileSystem, inode: Inode, taddr: word, slot: nat, addr: word, ghost top: nat, ghost n: nat,
                ghost e: seq<Block>,
                ghost d0: seq<Block>, ghost was: seq<word>, ghost ic0: Icommon, ghost root: word, ghost now: seq<word>)
    requires fs.store.Ok() && SameData(fs.store.disk, e) && |d0| == DISK_BLOCKS && 1 <= top <= 3
    requires slot == n % 128
    requires if n == 0 then was == now + [root, addr] && inode.ic == ic0.(ib := ic0.ib[top - 1 := root])
             else was == now + [addr] && root == ic0.ib[top - 1] && inode.ic == ic0
    requires OnTrack(d0, root, top, now, e, taddr, 1, fs.Stack(), n, addr) && IsData(addr)
    modifies fs.store`disk, fs.store`log
    ensures DeepOutcome(d0, was, ic0, top, n, addr, inode.ic, fs.store.disk, old(fs.store.disk), taddr)
    ensures |was| >= BlocksTaken(n, top)
    ensures Harmless(taddr, fs.store.chain) ==>
              fs.store.Ok() && fs.Stack() == was[..|was| - BlocksTaken(n, top)]
    ensures forall c | c in fs.store.chain :: IsData(c) && c in was[..|was| - BlocksTaken(n, top)]
  {
    hide EncodeSuper, FreeStack, Ptr, Patch, Descend, TopFirst, Above, Count, SameData, Stored, Harmless;
    LastStep(e, taddr, n, addr, fs.Stack());
    WholeAppend(d0, ic0.ib[top - 1], top, n, was, root, now, addr);
    SameStored(fs.store.disk, e, taddr, slot, addr);
    RestOfStack(was, now, fs.Stack(), n, top, root, addr);
    ChunksInStack(fs.store);
    StoreLeaf(fs, taddr, slot, addr);
    assert ic0.ib[top - 1 := ic0.ib[top - 1]] == ic0.ib;
  }

  lemma FrontTwice(d: seq<Block>, e: seq<Block>, f: seq<Block>, skip: int)
    requires FrontSame(d, e, skip) && FrontSame(e, f, -1)
    ensures FrontSame(d, f, skip)
  {
    hide Ptr;
  }

  // The double indirect branch, from the root on.
  method StoreDouble(fs: FileSystem, inode: Inode, blk: nat, addr: word, ghost d0: seq<Block>, ghost was: seq<word>)
    returns (r: int, ghost pre: seq<Block>, ghost last: word, ghost root: word)
    requires fs.store.Ok() && StackFine(fs.Stack()) && SameData(fs.store.disk, d0) && inode.number < INODES
    requires IsData(addr)
    requires fs.Stack() + [addr] == was && (blk > 0 ==> RealPath(d0, inode.ic.ib[1], 2, blk, fs.Stack()))
    requires blk < LS * LS
    modifies fs.store, fs.store.fdb, inode`ic
    ensures r == -1 || r == addr
    ensures DeepOutcome(d0, was, old(inode.ic), 2, blk, r, inode.ic, fs.store.disk, pre, last)
    ensures r == -1 ==> fs.store.Ok()
    ensures r != -1 ==>
              && root == inode.ic.ib[1] && fs.store.Sized()
              && FrontSame(old(fs.store.disk), pre, FIRST_INODE_BLOCK + inode.number / 8)
              && (InodeAt(old(fs.store.disk), inode.number).mode == old(inode.ic).mode ==>
                    FrontSame(old(fs.store.disk), pre, -1))
              && (last == if blk % 128 == 0 then was[|was| - BlocksTaken(blk, 2)] else Ptr(d0, root, blk / 128))
              && (Harmless(last, fs.store.chain) ==>
                    fs.store.Ok() && fs.Stack() == was[..|was| - BlocksTaken(blk, 2)])
              && forall c | c in fs.store.chain :: IsData(c) && c in was[..|was| - BlocksTaken(blk, 2)]
  {
    hide EncodeSuper, FreeStack, Ptr, Patch, Descend, TopFirst, Above, Count, RealPath, Append, FrontSame, InodeAt,
         Harmless, Stored;
    var ls := BLOCK_SIZE / 4;
    pre, last, root := d0, 0, 0;
    IndexArithmetic(blk);
    var taddr := TakeRoot(fs, inode, 2, blk, d0);
    if taddr == -1 {
      return -1, pre, last, root;
    }
    root := taddr;
    ghost var now, e, d1 := fs.Stack(), d0, fs.store.disk;
    taddr, e := Down(fs, taddr, blk / ls, blk % ls == 0, 2, blk, addr, e);
    if taddr == -1 {
      return -1, pre, last, root;
    }
    pre, last := fs.store.disk, taddr;
    FrontTwice(old(fs.store.disk), d1, pre, FIRST_INODE_BLOCK + inode.number / 8);
    if InodeAt(old(fs.store.disk), inode.number).mode == old(inode.ic).mode {
      FrontTwice(old(fs.store.disk), d1, pre, -1);
    }
    LastTaken(blk, was, now, fs.Stack(), root, addr, taddr);
    Finish(fs, inode, taddr, blk % ls, addr, 2, blk, e, d0, was, old(inode.ic), root, now);
    return addr, pre, last, root;
  }

  // Where the newest index block stood in the free list.
  lemma LastTaken(n: nat, was: seq<word>, now: seq<word>, stack: seq<word>, root: word, addr: word, t: word)
    requires if n == 0 then was == now + [root, addr] else was == now + [addr]
    requires if Above(n, 1) == Count(n, 1) then now == stack + [t] else now == stack
    ensures Above(n, 1) == Count(n, 1) ==> |was| >= BlocksTaken(n, 2) && was[|was| - BlocksTaken(n, 2)] == t
  {
    assert NewNodes(n, 1) == 0;
  }

  // The triple indirect branch, from the root on.
  method StoreTriple(fs: FileSystem, inode: Inode, n: nat, addr: word, ghost d0: seq<Block>, ghost was: seq<word>)
    returns (r: int, ghost pre: seq<Block>, ghost last: word, ghost root: word)
    requires fs.store.Ok() && StackFine(fs.Stack()) && SameData(fs.store.disk, d0) && inode.number < INODES
    requires IsData(addr)
    requires fs.Stack() + [addr] == was && (n > 0 ==> RealPath(d0, inode.ic.ib[2], 3, n, fs.Stack()))
    requires n < LS * LS * LS
    modifies fs.store, fs.store.fdb, inode`ic
    ensures r == -1 || r == addr
    ensures DeepOutcome(d0, was, old(inode.ic), 3, n, r, inode.ic, fs.store.disk, pre, last)
    ensures r == -1 ==> fs.store.Ok()
    ensures r != -1 ==>
              && root == inode.ic.ib[2] && fs.store.Sized()
              && FrontSame(old(fs.store.disk), pre, FIRST_INODE_BLOCK + inode.number / 8)
              && (InodeAt(old(fs.store.disk), inode.number).mode == old(inode.ic).mode ==>
                    FrontSame(old(fs.store.disk), pre, -1))
              && (Harmless(last, fs.store.chain) ==>
                    fs.store.Ok() && fs.Stack() == was[..|was| - BlocksTaken(n, 3)])
              && forall c | c in fs.store.chain :: IsData(c) && c in was[..|was| - BlocksTaken(n, 3)]
  {
    hide EncodeSuper, FreeStack, Ptr, Patch, Descend, TopFirst, Above, Count, RealPath, Append, OnTrack, FrontSame,
         InodeAt, Harmless, Stored, NoDup, ChainOk;
    var ls := BLOCK_SIZE / 4;
    var blk := n;
    pre, last, root := d0, 0, 0;
    IndexArithmetic(n);
    var taddr := TakeRoot(fs, inode, 3, blk, d0);
    if taddr == -1 {
      return -1, pre, last, root;
    }
    root := taddr;
    ghost var now, e, d1 := fs.Stack(), d0, fs.store.disk;
    taddr, e := Down(fs, taddr, blk / (ls * ls), blk % (ls * ls) == 0, 3, n, addr, e);
    if taddr == -1 {
      return -1, pre, last, root;
    }
    ghost var e1, mid, stack1, d2 := e, taddr, fs.Stack(), fs.store.disk;
    blk := blk % (ls * ls);
    taddr, e := Down(fs, taddr, blk / ls, blk % ls == 0, 2, n, addr, e);
    if taddr == -1 {
      StillShort(d0, root, now, e1, mid, stack1, n, addr);
      return -1, pre, last, root;
    }
    OnTrackTwice(d0, root, 3, now, e1, mid, 2, stack1, e, taddr, 1, fs.Stack(), n, addr);
    pre, last := fs.store.disk, taddr;
    FrontTwice(d1, d2, pre, -1);
    FrontTwice(old(fs.store.disk), d1, pre, FIRST_INODE_BLOCK + inode.number / 8);
    if InodeAt(old(fs.store.disk), inode.number).mode == old(inode.ic).mode {
      FrontTwice(old(fs.store.disk), d1, pre, -1);
    }
    Finish(fs, inode, taddr, blk % ls, addr, 3, n, e, d0, was, old(inode.ic), root, now);
    return addr, pre, last, root;
  }

  lemma StillShort(d0: seq<Block>, root: word, now: seq<word>, e: seq<Block>, a: word, stack: seq<word>, n: nat,
                   x: word)
    requires |d0| == |e| == DISK_BLOCKS && OnTrack(d0, root, 3, now, e, a, 2, stack, n, x) && |stack| < NewNodes(n, 2)
    ensures |now| < NewNodes(n, 3)
  {
    hide Descend, TopFirst, NewNodes;
  }

  /** allocateDataBlockAddr beyond file block 138, as written. In the double indirect branch nothing is
      asked of the pointer in the root's slot, through which the last step may write anywhere; the free list
      survives unless it leads to the superblock or a chunk. */
  method AllocateDeepAddr(fs: FileSystem, inode: Inode, byteno: word)
    returns (addr: int, ghost pre: seq<Block>, ghost last: word)
    requires fs.store.Ok() && StackFine(fs.Stack()) && inode.number < INODES
    requires var l := Level(byteno / 512);
             && 2 <= l <= 3
             && (Offset(byteno / 512) > 0 ==>
                   RealPath(fs.store.disk, inode.ic.ib[l - 1], l, Offset(byteno / 512), fs.Stack()))
    modifies fs.store, fs.store.fdb, inode`ic
    ensures DeepOutcome(old(fs.store.disk), old(fs.Stack()), old(inode.ic), Level(byteno / 512), Offset(byteno / 512),
                        addr, inode.ic, fs.store.disk, pre, last)
    ensures addr == -1 ==> fs.store.Ok()
    ensures addr != -1 ==>
              && fs.store.Sized()
              && Aftermath(old(fs.store.disk), old(fs.Stack()), Level(byteno / 512), Offset(byteno / 512), inode.number,
                           InodeAt(old(fs.store.disk), inode.number).mode == old(inode.ic).mode, pre, last,
                           inode.ic.ib[Level(byteno / 512) - 1],
                           fs.store.Ok(), if fs.store.Listed() then fs.Stack() else [],
                           fs.store.chain)
  {
    hide EncodeSuper, FreeStack, Ptr, Patch, Descend, TopFirst, Above, Count, RealPath, Append, NewNodes, InodeAt,
         FrontSame, Stored, Harmless, DeepOutcome, BlocksTaken, NoDup, ChainOk;
    var blk := byteno / BLOCK_SIZE;
    ghost var d0, was, n := fs.store.disk, fs.Stack(), Offset(byteno / 512);
    SuperFirst(fs.store);
    pre, last := d0, 0;
    addr := fs.store.Balloc();
    if addr == -1 {
      NothingFree(d0, inode.ic, Level(blk), n, pre, last);
      return -1, pre, last;
    }
    assert was[|was| - 1] == addr;
    PopFine(fs.Stack(), addr, was);
    FirstPop(d0, inode.ic.ib[Level(blk) - 1], Level(blk), n, was, fs.Stack(), addr);
    SuperFirst(fs.store);
    SameInodeBlocks(d0, fs.store.disk);
    assert FrontSame(d0, fs.store.disk, -1) by { BallocFront(d0, fs.store.disk); }
    ghost var d1, root := fs.store.disk, 0;
    var ls := BLOCK_SIZE / 4;
    if blk < ls * ls + ls + NDADDR {
      addr, pre, last, root := StoreDouble(fs, inode, blk - (ls + NDADDR), addr, d0, was);
    } else {
      addr, pre, last, root := StoreTriple(fs, inode, blk - (ls * ls + ls + NDADDR), addr, d0, was);
    }
    if addr != -1 {
      Took(d0, was, old(inode.ic), Level(blk), n, addr, inode.ic, fs.store.disk, pre, last);
      FrontAfter(d0, d1, pre, FIRST_INODE_BLOCK + inode.number / 8);
      if InodeAt(d0, inode.number).mode == old(inode.ic).mode {
        FrontAfter(d0, d1, pre, -1);
      }
    }
  }

  lemma NothingFree(d: seq<Block>, ic: Icommon, top: nat, n: nat, pre: seq<Block>, last: word)
    requires |d| == DISK_BLOCKS && 1 <= top <= 3
    ensures DeepOutcome(d, [], ic, top, n, -1, ic, d, pre, last)
  {
  }

  lemma Took(d: seq<Block>, was: seq<word>, ic0: Icommon, top: nat, n: nat, r: int, ic: Icommon, fin: seq<Block>,
             pre: seq<Block>, last: word)
    requires |d| == DISK_BLOCKS && 1 <= top <= 3 && DeepOutcome(d, was, ic0, top, n, r, ic, fin, pre, last) && r != -1
    ensures |was| >= BlocksTaken(n, top)
  {
  }

  lemma BallocFront(d: seq<Block>, d': seq<Block>)
    requires |d| == |d'| == DISK_BLOCKS && Ptr(d, 1, 0) == Ptr(d', 1, 0)
    requires forall b | 0 <= b < |d| && b != 1 :: d'[b] == d[b]
    ensures FrontSame(d, d', -1)
  {
    hide ToWords;
  }

  lemma FrontAfter(d: seq<Block>, e: seq<Block>, f: seq<Block>, skip: int)
    requires FrontSame(d, e, -1) && FrontSame(e, f, skip)
    ensures FrontSame(d, f, skip)
  {
    hide Ptr;
  }
}

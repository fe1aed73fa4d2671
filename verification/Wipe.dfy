/** Formatting the disk: the base case of every run. */
module Wipe {
  import opened Bytes
  import opened Formats
  import opened FreeChain
  import opened FormatList
  import opened FileMap
  import opened Inodes
  import opened FileSys
  import opened Directory
  import opened OpenFiles

  // The account right after a format: the topmost block holds the root directory, all others are free.
  function FormatOwner(): (o: seq<Owner>)
    ensures |o| == DISK_BLOCKS
  {
    seq(DISK_BLOCKS, b requires 0 <= b < DISK_BLOCKS =>
      if !IsData(b) || b == SKIPPED then Nobody
      else if DepthOf(b) == LIST_LEN - 1 then Slot(ROOT_DIR, 0)
      else Free(DepthOf(b)))
  }

  function FormatCount(): (c: seq<nat>)
    ensures |c| == INODES
  {
    seq(INODES, i requires 0 <= i < INODES => if i == ROOT_DIR then 1 else 0)
  }

  // Behind the chunks the two disks differ in the root directory's block at most, and block 0 is the same.
  ghost predicate OnlyRootBlock(d: seq<Block>, d': seq<Block>) {
    |d| == |d'| == DISK_BLOCKS && d'[0] == d[0]
    && forall b | FIRST_DATA + CHUNKS <= b < DISK_BLOCKS && b != FormatAt(LIST_LEN - 1) as int :: d'[b] == d[b]
  }

  // Inode i as a format leaves it.
  predicate Pristine(i: nat, ic: Icommon, root: word) {
    if i == ROOT_DIR then ic.mode == IFDIR && ic.size == 32 && ic.db[0] == root else ic.mode == IFZERO && ic.size == 0
  }

  lemma FormattedAccount(d: seq<Block>, live: seq<Icommon>, root: word)
    requires |d| == DISK_BLOCKS && |live| == INODES && root == FormatAt(LIST_LEN - 1)
    requires forall i | 0 <= i < INODES :: Pristine(i, live[i], root)
    ensures Owned(d, FormatStack()[..LIST_LEN - 1], live, FormatCount(), FormatOwner())
    ensures forall i | 0 <= i < INODES :: Settled(live[i], FormatCount()[i])
  {
    hide SlotAddr;
    var o := FormatOwner();
    forall k | 0 <= k < LIST_LEN - 1
      ensures IsData(FormatStack()[k]) && o[FormatStack()[k]] == Free(k)
    {
      AtInverse(k);
    }
    AtInverse(LIST_LEN - 1);
    forall i | 0 <= i < INODES
      ensures InodeOwned(d, live[i], FormatCount()[i], o, i)
    {
      RootSlot(d, live[i]);
      assert Pristine(i, live[i], root);
    }
  }

  lemma RootSlot(d: seq<Block>, ic: Icommon)
    ensures SlotAddr(d, ic, 0) == ic.db[0]
  {
  }

  /** wipe, without the program files it installs at the end: a valid filesystem with an empty root
      directory, every data block but that directory's and block 1986 on the free list. `junk` is the
      uninitialised buffer the root's first block is built in. */
  method Format(fs: FileSystem, junk: DirBlock)
    requires fs.store.Sized()
    modifies fs`live, fs`cnt, fs`owner, fs`mark, fs`freed, fs.store, fs.store.fdb
    ensures fs.Valid() && fs.mark == fs.store.disk && !fs.freed && fs.Stack() == FormatStack()[..LIST_LEN - 1]
    ensures OnlyRootBlock(old(fs.store.disk), fs.store.disk)
    ensures var root := fs.Files()[ROOT_DIR];
            && root.ic.mode == IFDIR == 2 && root.addrs == [FormatAt(LIST_LEN - 1)]
            && |Entries(root)| == 1 && Entries(root)[0].ino == ROOT_DIR && Entries(root)[0].name[..3] == [1, 0, 46]
    ensures forall i | 0 < i < INODES :: fs.Files()[i].ic.mode == IFZERO == 0 && fs.Files()[i].addrs == []
    ensures DirsOk(fs.Files())
  {
    hide EncodeSuper, FreeStack, FormatStack, Owned, View, Views, DecodeDir, EncodeDir, InodeAt;
    fs.store.FormatFreeList();
    var root: word := 0;
    for i := 0 to 64
      modifies fs.store, fs.store.fdb
      invariant fs.store.Ok() && OnlyRootBlock(old(fs.store.disk), fs.store.disk)
      invariant if i == 0 then fs.Stack() == FormatStack()
                else
                  && fs.Stack() == FormatStack()[..LIST_LEN - 1] && root == FormatAt(LIST_LEN - 1)
                  && RootBlock(fs.store.disk, root)
      invariant forall n | 0 <= n < 8 * i :: Pristine(n, InodeAt(fs.store.disk, n), root)
    {
      root := FormatInodeBlock(fs, i, root, junk);
    }
    fs.live, fs.cnt, fs.owner := InodesOnDisk(fs.store.disk), FormatCount(), FormatOwner();
    fs.mark, fs.freed := fs.store.disk, false;
    FormattedAccount(fs.store.disk, fs.live, root);
    RootView(fs, root);
  }

  // Block a holds a directory whose entry 0 is "." for the root: length 1 in two bytes, then the dot.
  predicate RootBlock(d: seq<Block>, a: word) {
    a < |d| && var e := DecodeDir(d[a])[0]; e.ino == ROOT_DIR && e.name[..3] == [1, 0, 46]
  }

  // One round of wipe's second loop: the eight inodes of inode block i.
  method FormatInodeBlock(fs: FileSystem, i: nat, root0: word, junk: DirBlock) returns (root: word)
    requires fs.store.Ok() && i < 64
    requires if i == 0 then fs.Stack() == FormatStack()
             else
               && fs.Stack() == FormatStack()[..LIST_LEN - 1] && root0 == FormatAt(LIST_LEN - 1)
               && RootBlock(fs.store.disk, root0)
    requires forall n | 0 <= n < 8 * i :: Pristine(n, InodeAt(fs.store.disk, n), root0)
    modifies fs.store, fs.store.fdb
    ensures fs.store.Ok() && fs.Stack() == FormatStack()[..LIST_LEN - 1]
    ensures OnlyRootBlock(old(fs.store.disk), fs.store.disk)
    ensures root == FormatAt(LIST_LEN - 1) && RootBlock(fs.store.disk, root)
    ensures forall n | 0 <= n < 8 * (i + 1) :: Pristine(n, InodeAt(fs.store.disk, n), root)
  {
    hide EncodeSuper, FreeStack, FormatStack, DecodeDir, EncodeDir, EncodeInodes, DecodeInodes, RootBlock, Pristine,
         InodeAt;
    var b := fs.store.ReadBlock(FIRST_INODE_BLOCK + i);
    var ic: InodeTable;
    ic, root := ResetTable(fs, i, DecodeInodes(b), root0, junk);
    var x := EncodeInodes(ic);
    ghost var d := fs.store.disk;
    NoChunkBelow(fs, FIRST_INODE_BLOCK + i);
    fs.store.WriteBlock(FIRST_INODE_BLOCK + i, x);
    assert x + d[FIRST_INODE_BLOCK + i][|x|..] == x;
    InodesRoundTrip(ic);
    SameInodeBlocks(old(fs.store.disk), d);
    RootBlockFrame(d, fs.store.disk, root);
    NextPristine(d, fs.store.disk, i, ic, root);
  }

  lemma NextPristine(d: seq<Block>, d': seq<Block>, i: nat, ic: InodeTable, root: word)
    requires |d| == |d'| == DISK_BLOCKS && i < 64
    requires forall b | FIRST_INODE_BLOCK <= b < FIRST_INODE_BLOCK + i :: d'[b] == d[b]
    requires DecodeInodes(d'[FIRST_INODE_BLOCK + i]) == ic
    requires forall n | 0 <= n < 8 * i :: Pristine(n, InodeAt(d, n), root)
    requires forall k | 0 <= k < 8 :: Pristine(8 * i + k, ic[k], root)
    ensures forall n | 0 <= n < 8 * (i + 1) :: Pristine(n, InodeAt(d', n), root)
  {
    hide DecodeInodes, Pristine;
    forall n | 0 <= n < 8 * (i + 1)
      ensures Pristine(n, InodeAt(d', n), root)
    {
      if n < 8 * i {
        assert InodeAt(d', n) == InodeAt(d, n);
      } else {
        var k := n - 8 * i;
        assert InodeAt(d', n) == ic[k] && Pristine(8 * i + k, ic[k], root);
      }
    }
  }

  lemma NoChunkBelow(fs: FileSystem, b: word)
    requires fs.store.Ok() && b < FIRST_DATA
    ensures b !in fs.store.chain
  {
  }

  lemma RootBlockFrame(d: seq<Block>, d': seq<Block>, root: word)
    requires root == FormatAt(LIST_LEN - 1) && RootBlock(d, root) && |d'| == |d|
    requires forall b | IsData(b) && b < |d| :: d'[b] == d[b]
    ensures RootBlock(d', root)
  {
    AtInverse(LIST_LEN - 1);
  }

  // The inner loop of that round; with the root directory comes its first block.
  method ResetTable(fs: FileSystem, i: nat, t: InodeTable, root0: word, junk: DirBlock)
    returns (ic: InodeTable, root: word)
    requires fs.store.Ok()
    requires if i == 0 then fs.Stack() == FormatStack()
             else
               && fs.Stack() == FormatStack()[..LIST_LEN - 1] && root0 == FormatAt(LIST_LEN - 1)
               && RootBlock(fs.store.disk, root0)
    modifies fs.store, fs.store.fdb
    ensures fs.store.Ok() && fs.Stack() == FormatStack()[..LIST_LEN - 1]
    ensures OnlyRootBlock(old(fs.store.disk), fs.store.disk)
    ensures root == FormatAt(LIST_LEN - 1) && RootBlock(fs.store.disk, root)
    ensures forall b | FIRST_INODE_BLOCK <= b < FIRST_DATA :: fs.store.disk[b] == old(fs.store.disk[b])
    ensures i > 0 ==> root == root0
    ensures forall k | 0 <= k < 8 :: Pristine(8 * i + k, ic[k], root)
  {
    hide EncodeSuper, FreeStack, FormatStack, RootBlock, FormatAt;
    ic, root := t, root0;
    for j := 0 to 8
      modifies fs.store, fs.store.fdb
      invariant fs.store.Ok() && OnlyRootBlock(old(fs.store.disk), fs.store.disk)
      invariant if i == 0 && j == 0 then fs.Stack() == FormatStack()
                else
                  && fs.Stack() == FormatStack()[..LIST_LEN - 1] && root == FormatAt(LIST_LEN - 1)
                  && RootBlock(fs.store.disk, root)
      invariant i > 0 ==> root == root0
      invariant forall b | FIRST_INODE_BLOCK <= b < FIRST_DATA :: fs.store.disk[b] == old(fs.store.disk[b])
      invariant forall k | 0 <= k < j :: Pristine(8 * i + k, ic[k], root)
    {
      if i == 0 && j == ROOT_DIR {
        ic := ic[j := ic[j].(mode := IFDIR, size := 32)];
        root := MakeRoot(fs, junk);
        ic := ic[j := ic[j].(db := ic[j].db[0 := root])];
      } else {
        ic := ic[j := ic[j].(mode := IFZERO, size := 0)];
      }
    }
  }

  // The root's first block: allocated, and written with entry 0 filled in.
  method MakeRoot(fs: FileSystem, junk: DirBlock) returns (root: word)
    requires fs.store.Ok() && fs.Stack() == FormatStack()
    modifies fs.store, fs.store.fdb
    ensures fs.store.Ok() && fs.Stack() == FormatStack()[..LIST_LEN - 1]
    ensures OnlyRootBlock(old(fs.store.disk), fs.store.disk)
    ensures root == FormatAt(LIST_LEN - 1) && RootBlock(fs.store.disk, root)
    ensures forall n | FIRST_INODE_BLOCK <= n < FIRST_DATA :: fs.store.disk[n] == old(fs.store.disk[n])
  {
    hide EncodeSuper, FreeStack, DecodeDir, EncodeDir, FormatAt;
    var addr := fs.store.Balloc();
    ghost var was := FormatStack();
    assert was == fs.Stack() + [addr] && was[LIST_LEN - 1] == addr == FormatAt(LIST_LEN - 1);
    AtInverse(LIST_LEN - 1);
    NotAChunk(fs, addr);
    var dir: DirBlock := junk;
    var name: Name := dir[0].name;
    name := name[0 := 1][1 := 0][2 := DOT];
    dir := dir[0 := Entry(ROOT_DIR, name)];
    var x := EncodeDir(dir);
    ghost var d := fs.store.disk;
    fs.store.WriteBlock(addr, x);
    assert x + d[addr][|x|..] == x;
    DirRoundTrip(dir);
    return addr;
  }

  lemma NotAChunk(fs: FileSystem, a: word)
    requires fs.store.Ok() && fs.Stack() + [a] == FormatStack()
    ensures a !in fs.store.chain
  {
    hide FormatStack, EncodeSuper;
    FormatCovers();
    LastIsNew(fs.Stack(), a, FormatStack());
    ChunksAreFree(fs.store.disk, fs.store.chain);
    assert forall c | c in fs.store.chain :: c in fs.Stack();
  }

  lemma LastIsNew(s: seq<word>, a: word, t: seq<word>)
    requires t == s + [a] && forall j, k :: 0 <= j < k < |t| ==> t[j] != t[k]
    ensures a !in s
  {
    assert forall j | 0 <= j < |s| :: s[j] == t[j] && t[j] != t[|s|];
  }

  lemma RootView(fs: FileSystem, root: word)
    requires fs.Sound() && fs.cnt == FormatCount() && RootBlock(fs.store.disk, root)
    requires forall i | 0 <= i < INODES :: Pristine(i, fs.live[i], root)
    ensures var f := fs.Files()[ROOT_DIR];
            && f.ic.mode == IFDIR && f.addrs == [root]
            && |Entries(f)| == 1 && Entries(f)[0].ino == ROOT_DIR && Entries(f)[0].name[..3] == [1, 0, 46]
    ensures forall i | 0 < i < INODES :: fs.Files()[i].ic.mode == IFZERO && fs.Files()[i].addrs == []
    ensures DirsOk(fs.Files())
  {
    hide Owned, DecodeDir, EncodeSuper, FreeStack;
    forall i | 0 <= i < INODES
      ensures fs.Files()[i] == View(fs.store.disk, fs.live[i], fs.cnt[i]) && Pristine(i, fs.live[i], root)
    {
    }
    var f := fs.Files()[ROOT_DIR];
    RootSlot(fs.store.disk, fs.live[ROOT_DIR]);
    assert f.blocks == [fs.store.disk[root]];
    assert Entries(f)[0] == EntryAt(f, 0);
    assert Entries(f)[0].name[2] == Entries(f)[0].name[..3][2] == DOT;
    forall i | 0 <= i < INODES
      ensures DirOk(fs.Files()[i])
    {
      if i != ROOT_DIR {
        NotADir(fs.Files()[i]);
      }
    }
  }
}

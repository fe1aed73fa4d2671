/** The lost blocks as programs meet them: a file that has blocks 0 to 138 grows. */
module LossRuns {
  import opened Bytes
  import opened Formats
  import opened FreeChain
  import opened FormatList
  import opened FileMap
  import opened BlockTree
  import opened Inodes
  import opened FileSys
  import opened FileIO
  import opened Attach
  import opened Release
  import opened DeepAlloc
  import opened DeepLoss
  import opened Directory
  import opened OpenTable
  import opened OpenFiles
  import opened Paths
  import opened Wipe
  import opened Scenarios

  lemma FineStack(fs: FileSystem)
    requires fs.Sound()
    ensures StackFine(fs.Stack())
  {
    hide EncodeSuper, FreeStack, View, InodeAt;
    Exclusive(fs.store.disk, fs.Stack(), fs.live, fs.cnt, fs.owner);
    assert StackOwned(fs.Stack(), fs.owner);
  }

  /** The allocations of an fwrite that takes an open file over blocks 139 and 140, in any state of the
      filesystem. Block 139 is lost, and the address of block 140 overwrites a word of the block that the
      new root's leftover slot leads to, under exactly the conditions of LoseTwo. */
  method GrowBeyond(t: OpenFiles, fd: int) returns (a139: int, f139: int, a140: int, f140: int)
    requires t.Valid() && t.IsOpen(fd) && t.FileOf(fd).ic.size / 512 == 138 && |t.fs.Stack()| >= 4
    modifies t.ai, t.fs.store, t.fs.store.fdb
    ensures var d, was := old(t.fs.store.disk), old(t.fs.Stack());
            var root, x := was[|was| - 2], was[|was| - 3];
            var left := Ptr(d, root, 0);
            && a139 == was[|was| - 1] && a140 == was[|was| - 4] && t.fs.store.Sized()
            && (f139 == a139 <==> left == x || (left < DISK_BLOCKS && Ptr(d, left, 0) == a139))
            && (left < DISK_BLOCKS ==> f140 == a140)
            && (left < DISK_BLOCKS && left != x ==> ToWords(t.fs.store.disk[left])[1] == a140)
            && (left != 1 && left !in t.fs.store.chain ==> t.fs.store.Ok() && t.fs.Stack() == was[..|was| - 4])
            && forall c | c in t.fs.store.chain :: IsData(c) && c in was[..|was| - 4]
  {
    hide EncodeSuper, FreeStack, InodeAt, Ptr, ToWords, ToBytes, NoDup, Owned, View, Views, Untouched, SlotsMatch,
         LinksMatch, Mirrored, Settled, DirsOk, Recorded, StackFine;
    BehindFacts(t, fd);
    t.EntryInRange(fd);
    t.CopyFacts(t.Behind(fd));
    FineStack(t.fs);
    ModesOnDisk(t.fs);
    var inode := t.ai[t.of[t.fdt[t.FdSlot(fd)]].inptr];
    a139, f139, a140, f140 := LoseTwo(t.fs, inode);
  }

  // On a freshly wiped disk a file is created and written 138 * 512 bytes.
  method FillToEdge(t: OpenFiles, ghost names: seq<Name>, ghost entries: seq<seq<byte>>, name: Name, data: seq<byte>)
    returns (fd: int)
    requires t.Valid() && t.cwd == ROOT_DIR && !t.Full() && Installed(t.fs.Files(), names, entries, PROGRAMS)
    requires t.fs.Stack() == FormatStack()[..LIST_LEN - 1 - PROGRAMS]
    requires FirstChar(name) != DOT && name !in names && |data| == 138 * 512
    modifies t`back, t.ai, t.of, t.fdt, t.fs`live, t.fs`cnt, t.fs`owner, t.fs`incore, t.fs.store, t.fs.store.fdb
    ensures t.Valid() && t.IsOpen(fd) && t.FileOf(fd).ic.size == |data|
    ensures t.fs.Stack() <= FormatStack() && |t.fs.Stack()| == 1832
  {
    hide EncodeSuper, FreeStack, InodeAt, NoDup, Owned, View, Views, Untouched, SlotsMatch, LinksMatch, Mirrored,
         Settled, DirsOk, Recorded, FormatStack, FormatAt, NewInRoot, Entries, Present, Content, RootGrowth, Concat,
         NeedBlocks, Installed;
    MayFill(t.fs.Files(), names, entries, name);
    OnePart(data);
    assert NeedBlocks(0, 138) == 139 by { EdgeNeed(); }
    ghost var files, was := t.fs.Files(), t.fs.Stack();
    ghost var n;
    fd, n := CreateAndWrite(t, name, [data]);
    NowFull(t, fd, files, was, name, n, data);
  }

  lemma MayFill(files: seq<FileView>, names: seq<Name>, entries: seq<seq<byte>>, name: Name)
    requires Installed(files, names, entries, PROGRAMS) && DirsOk(files) && FirstChar(name) != DOT && name !in names
    ensures |files| == INODES && NewInRoot(files, name) && RootGrowth(files) == 0
    ensures exists i :: 0 <= i < INODES && files[i].ic.mode == IFZERO
  {
    hide Content, Entries, NewInRoot, RootGrowth, DirsOk;
    RoomForName(files, names, entries, PROGRAMS, name);
  }

  /** One run that loses a block: a disk of zeros is wiped, a file is created and written 138 * 512 bytes,
      and the write that follows takes it over blocks 139 and 140. Block 139 goes to 198 and is not found;
      the address of block 140, 195, is written into block 0. The free list is not harmed. */
  method LostInRun(fs: FileSystem, junk: DirBlock, inodes: seq<Inode>, names: seq<Name>, entries: seq<seq<byte>>,
                   name: Name, data: seq<byte>)
    returns (a139: int, f139: int, a140: int, f140: int)
    requires fs.store.Sized() && forall b | 0 <= b < DISK_BLOCKS :: fs.store.disk[b] == ZeroBlock()
    requires fs.incore == {} && ProgramsOk(names, entries)
    requires |inodes| == AIT_LIMIT && forall a, b | 0 <= a < b < AIT_LIMIT :: inodes[a] != inodes[b]
    requires forall a | 0 <= a < AIT_LIMIT :: inodes[a].links == 0 && inodes[a].ic.mode == IFZERO
    requires FirstChar(name) != DOT && name !in names && |data| == 138 * 512
    modifies fs, fs.store, fs.store.fdb, inodes
    ensures a139 == 198 && f139 != a139
    ensures fs.store.Ok() && a140 == 195 && f140 == a140 && ToWords(fs.store.disk[0])[1] == a140
  {
    hide EncodeSuper, FreeStack, Ptr, ToWords, Owned, View, Views, Untouched, SlotsMatch, LinksMatch, Mirrored,
         Settled, DirsOk, Recorded, FormatStack, FormatAt, ZeroBlock, OnlyRootBlock, Installed;
    var t := WipeAll(fs, junk, inodes, names, entries);
    var fd := FillToEdge(t, names, entries, name, data);
    TopAddresses(fs.Stack());
    ZeroTop(old(fs.store.disk), fs.mark, fs.store.disk, fs.Stack());
    a139, f139, a140, f140 := GrowBeyond(t, fd);
  }

  lemma NowFull(t: OpenFiles, fd: int, files: seq<FileView>, was: seq<word>, name: Name, n: word, data: seq<byte>)
    requires t.Valid() && t.IsOpen(fd) && t.Ino(fd) == n as nat
    requires Present(files, t.fs.Files(), was, t.fs.Stack(), name, n, data)
    ensures |files| == INODES && t.FileOf(fd).ic.size == |data|
    ensures t.fs.Stack() <= was && |t.fs.Stack()| == |was| - 1 - RootGrowth(files) - NeedBlocks(0, |data| / 512)
  {
    hide Owned, View, Views, EncodeSuper, InodeAt, FreeStack, Recorded, SlotsMatch, LinksMatch, Mirrored, Settled,
         DirsOk, Entries, Pool, RootGrowth, Untouched;
    BehindFacts(t, fd);
    assert |Content(t.fs.Files()[n])| == t.fs.Files()[n].ic.size;
  }

  lemma EdgeNeed()
    ensures NeedBlocks(0, 138) == 139
  {
  }

  lemma OnePart(data: seq<byte>)
    ensures Concat([data]) == data
  {
    assert [data][1..] == [] && Concat([]) == [];
  }

  // Where the free list then ends.
  lemma TopAddresses(stack: seq<word>)
    requires stack <= FormatStack() && |stack| == 1832
    ensures stack[1831] == 198 && stack[1830] == 197 && stack[1829] == 196 && stack[1828] == 195
  {
  }

  lemma ZeroTop(d: seq<Block>, mark: seq<Block>, d': seq<Block>, stack: seq<word>)
    requires |d| == DISK_BLOCKS && forall b | 0 <= b < DISK_BLOCKS :: d[b] == ZeroBlock()
    requires OnlyRootBlock(d, mark) && Untouched(mark, d', stack) && 197 in stack
    ensures Ptr(d', 197, 0) == 0 && Ptr(d', 0, 0) == 0
  {
    AtInverse(LIST_LEN - 1);
  }
}

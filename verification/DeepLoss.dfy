/** What the missing parent write means on the disk itself: when a file's block beyond number 138 is
    found again, and where the address of the next one goes. */
module DeepLoss {
  import opened Bytes
  import opened Formats
  import opened FreeChain
  import opened FileMap
  import opened BlockTree
  import opened Inodes
  import opened FileSys
  import opened Release
  import opened DeepTree
  import opened DeepAlloc

  /** The double indirect root is a data block in use, unless the tree is still empty. */
  ghost predicate RootInUse(root: word, n: nat, stack: seq<word>) {
    n > 0 ==> IsData(root) && root !in stack
  }

  // The word the lookup compares: the first of block `left`, or, a read beyond the disk leaving the
  // buffer alone, the first of the root.
  function Found(d: seq<Block>, root: word, left: word): word {
    if left < DISK_BLOCKS then Ptr(d, left, 0) else Ptr(d, root, 0)
  }

  // From the pure append to the disk that the call leaves.
  lemma LostOnDisk(d: seq<Block>, d1: seq<Block>, pre: seq<Block>, fin: seq<Block>, root: word, n: nat, t: word,
                   x: word)
    requires |d| == |d1| == |pre| == DISK_BLOCKS && IsData(root) && IsData(t) && root != t && n % 128 == 0
    requires n < LS * LS
    requires (forall b | 0 <= b < |d| && b != t :: d1[b] == d[b]) && Ptr(d1, t, 0) == x
    requires fin == Stored(pre, t, 0, x) && SameData(fin, d1)
    requires var left := Ptr(d, root, n / 128); left < FIRST_DATA ==> Ptr(pre, left, 0) == Ptr(d, left, 0)
    ensures |fin| == DISK_BLOCKS && fin[root] == d[root]
    ensures var left := Ptr(d, root, n / 128);
            Descent(fin, fin[root], 2, n) == x <==> left == t || Found(d, root, left) == x
  {
    hide ToWords, ToBytes, Descent;
    DescentTwo(fin, fin[root], n);
    var left := Ptr(d, root, n / 128);
    if left < FIRST_DATA {
      assert fin[left] == pre[left];
    }
  }

  lemma RootsRealPath(d: seq<Block>, root: word, n: nat, stack: seq<word>)
    requires IsData(root) && root !in stack
    ensures RealPath(d, root, 2, n, stack)
  {
    assert RealPath(d, Ptr(d, root, Above(n, 1) % 128), 1, n, stack);
  }

  // What one call for the first leaf of a new index block leaves, in terms of the disk before it.
  lemma FirstLeaf(d: seq<Block>, was: seq<word>, ic0: Icommon, n: nat, r: int, ic: Icommon, fin: seq<Block>,
                  pre: seq<Block>, last: word)
    requires |d| == DISK_BLOCKS && StackFine(was) && n < LS * LS && n % 128 == 0 && RootInUse(ic0.ib[1], n, was)
    requires DeepOutcome(d, was, ic0, 2, n, r, ic, fin, pre, last) && r != -1
    requires last == was[|was| - BlocksTaken(n, 2)]
    ensures |was| >= BlocksTaken(n, 2) >= 2 && last !in was[..|was| - BlocksTaken(n, 2)]
    ensures IsData(last) && IsData(ic.ib[1]) && ic.ib[1] != last && ic.ib[1] !in was[..|was| - BlocksTaken(n, 2)]
    ensures n == 0 ==> BlocksTaken(n, 2) == 3 && ic.ib[1] == was[|was| - 2]
    ensures var d1 := Append(d, ic0.ib[1], 2, n, TopFirst(was, BlocksTaken(n, 2))[1..], r, false).1;
            && (forall b | 0 <= b < |d| && b != last :: d1[b] == d[b]) && Ptr(d1, last, 0) == r
            && SameData(fin, d1) && fin == Stored(pre, last, 0, r)
  {
    hide Descend, Ptr, ToWords, ToBytes, Patch, Stored, Count, Above;
    IndexArithmetic(n);
    var k := BlocksTaken(n, 2);
    assert NewNodes(n, 1) == 0 && k == if n == 0 then 3 else 2;
    var news := TopFirst(was, k)[1..];
    assert forall i | 0 <= i < |news| :: news[i] == was[|was| - 2 - i] && was[|was| - 2 - i] in was;
    var root := ic.ib[1];
    NewIndex(d, root, n, if n == 0 then news[1..] else news, r);
  }

  /** File blocks 139, 267, 395, ...: allocated by the code as written and looked up again, the block is
      found if and only if the root's slot, which was not written, held the new index block already
      or leads to a block whose first word is the block's address already. */
  method AllocateAndLookUp(fs: FileSystem, inode: Inode, byteno: word) returns (addr: int, found: int)
    requires fs.store.Ok() && StackFine(fs.Stack()) && inode.number < INODES
    requires InodeAt(fs.store.disk, inode.number).mode == inode.ic.mode
    requires Level(byteno / 512) == 2 && Offset(byteno / 512) % 128 == 0
    requires RootInUse(inode.ic.ib[1], Offset(byteno / 512), fs.Stack())
    requires |fs.Stack()| >= BlocksTaken(Offset(byteno / 512), 2)
    modifies fs.store, fs.store.fdb, inode`ic
    ensures fs.store.Ok() && fs.Stack() == old(fs.Stack())[..|old(fs.Stack())| - BlocksTaken(Offset(byteno / 512), 2)]
    ensures var d, was, n, root := old(fs.store.disk), old(fs.Stack()), Offset(byteno / 512), inode.ic.ib[1];
            var left := Ptr(d, root, n / 128);
            && addr == was[|was| - 1]
            && (found == addr <==> left == was[|was| - BlocksTaken(n, 2)] || Found(d, root, left) == addr)
            && IsData(addr) && IsData(root) && root !in fs.Stack() && fs.store.disk[root] == d[root]
            && (n == 0 ==> root == was[|was| - 2])
  {
    hide EncodeSuper, FreeStack, InodeAt, Ptr, ToWords, ToBytes, Stored, Append, Descent, TopFirst, BlocksTaken, NoDup;
    ghost var d, was, n := fs.store.disk, fs.Stack(), Offset(byteno / 512);
    if n > 0 {
      RootsRealPath(d, inode.ic.ib[1], n, was);
    }
    ghost var pre, last;
    addr, pre, last := AllocateDeepAddr(fs, inode, byteno);
    FirstLeaf(d, was, old(inode.ic), n, addr, inode.ic, fs.store.disk, pre, last);
    ghost var root := inode.ic.ib[1];
    LostOnDisk(d, Append(d, old(inode.ic).ib[1], 2, n, TopFirst(was, BlocksTaken(n, 2))[1..], addr, false).1,
               pre, fs.store.disk, root, n, last, addr);
    found := fs.GetDataBlockAddr(inode, byteno);
  }

  /** Any other file block of the double indirect range: its address is stored in the block that the
      root's slot leads to, whoever owns that block; beyond the disk it is stored nowhere. Looked up
      again, the block is found there if there is such a block, a write into the root itself apart; if
      there is none, it is found only if the word behind it in the root is its address already. The free
      list survives unless that block is the superblock or a chunk. */
  method AllocateBehind(fs: FileSystem, inode: Inode, byteno: word) returns (addr: int, found: int)
    requires fs.store.Ok() && StackFine(fs.Stack()) && inode.number < INODES
    requires Level(byteno / 512) == 2 && Offset(byteno / 512) % 128 != 0
    requires RootInUse(inode.ic.ib[1], Offset(byteno / 512), fs.Stack()) && fs.Stack() != []
    modifies fs.store, fs.store.fdb, inode`ic
    ensures inode.ic == old(inode.ic) && fs.store.Sized() && addr == old(fs.Stack())[|old(fs.Stack())| - 1]
    ensures var d, n := old(fs.store.disk), Offset(byteno / 512);
            var left := Ptr(d, inode.ic.ib[1], n / 128);
            if left < DISK_BLOCKS then
              && ToWords(fs.store.disk[left])[n % 128] == addr
              && forall b | IsData(b) && b != left :: fs.store.disk[b] == d[b]
            else forall b | IsData(b) :: fs.store.disk[b] == d[b]
    ensures var d, n, root := old(fs.store.disk), Offset(byteno / 512), inode.ic.ib[1];
            var left := Ptr(d, root, n / 128);
            && IsData(addr)
            && (found == addr <==>
                  if left == root then n / 128 != n % 128 || Ptr(d, addr, n % 128) == addr
                  else left < DISK_BLOCKS || Ptr(d, root, n % 128) == addr)
            && (left != 1 && left !in fs.store.chain ==>
                  fs.store.Ok() && fs.Stack() == old(fs.Stack())[..|old(fs.Stack())| - 1])
            && forall c | c in fs.store.chain :: IsData(c) && c in old(fs.Stack())[..|old(fs.Stack())| - 1]
  {
    hide EncodeSuper, FreeStack, InodeAt, Ptr, ToWords, ToBytes, Stored, Append, TopFirst, NoDup, FrontSame, Descent;
    ghost var d, was, n := fs.store.disk, fs.Stack(), Offset(byteno / 512);
    RootsRealPath(d, inode.ic.ib[1], n, was);
    TakenBehind(n);
    ghost var pre, last;
    addr, pre, last := AllocateDeepAddr(fs, inode, byteno);
    assert IsData(addr) && addr == was[|was| - 1] && addr in was;
    BehindStale(d, was, old(inode.ic), n, addr, inode.ic, fs.store.disk, pre, last);
    BehindFound(d, fs.store.disk, inode.ic.ib[1], n, addr);
    found := fs.GetDataBlockAddr(inode, byteno);
  }

  // What the lookup then sees.
  lemma BehindFound(d: seq<Block>, fin: seq<Block>, root: word, n: nat, x: word)
    requires |d| == |fin| == DISK_BLOCKS && IsData(root) && IsData(x) && x != root && n < LS * LS
    requires var left := Ptr(d, root, n / 128);
             && (left < DISK_BLOCKS ==> ToWords(fin[left])[n % 128] == x)
             && (forall b | IsData(b) && b != left as int :: fin[b] == d[b])
    requires Ptr(d, root, n / 128) == root ==> fin[root] == Stored(d, root, n % 128, x)[root]
    ensures var left := Ptr(d, root, n / 128);
            Descent(fin, fin[root], 2, n) == x <==>
            if left == root then n / 128 != n % 128 || Ptr(d, x, n % 128) == x
            else left < DISK_BLOCKS || Ptr(d, root, n % 128) == x
  {
    hide ToWords, ToBytes, Descent;
    DescentTwo(fin, fin[root], n);
    var left := Ptr(d, root, n / 128);
    if left == root {
      var ws := ToWords(d[root])[n % 128 := x];
      WordsRoundTrip(ws);
      assert ToWords(fin[root]) == ws;
    }
  }

  lemma TakenBehind(n: nat)
    requires n % 128 != 0
    ensures BlocksTaken(n, 2) == 1
  {
    IndexArithmetic(n);
    assert NewNodes(n, 1) == 0;
  }

  lemma BehindStale(d: seq<Block>, was: seq<word>, ic0: Icommon, n: nat, r: int, ic: Icommon, fin: seq<Block>,
                    pre: seq<Block>, last: word)
    requires |d| == DISK_BLOCKS && n < LS * LS && n % 128 != 0 && IsData(ic0.ib[1])
    requires DeepOutcome(d, was, ic0, 2, n, r, ic, fin, pre, last) && r != -1
    requires last == Ptr(d, ic.ib[1], n / 128)
    ensures ic == ic0 && |fin| == DISK_BLOCKS
    ensures IsData(last) ==> fin[last] == Stored(d, last, n % 128, r)[last]
    ensures if last < DISK_BLOCKS then
              ToWords(fin[last])[n % 128] == r && forall b | IsData(b) && b != last :: fin[b] == d[b]
            else forall b | IsData(b) :: fin[b] == d[b]
  {
    hide Ptr, ToWords, ToBytes, Count, Above, TopFirst;
    IndexArithmetic(n);
    LeafAbove(n);
    var root := ic0.ib[1];
    var news := TopFirst(was, BlocksTaken(n, 2))[1..];
    assert ic0.ib[1 := root] == ic0.ib;
    DescendPresent(d, root, 2, n, news, r);
    assert Descend(d, last, 1, n, news, r, false) == Stored(d, last, n % 128, r);
    if last < DISK_BLOCKS {
      PatchedWord(pre, last, n % 128, r);
    }
  }

  lemma PatchedWord(d: seq<Block>, a: word, slot: nat, x: word)
    requires |d| == DISK_BLOCKS && a < |d| && slot < LS
    ensures ToWords(Patch(d, a, slot, x, a)[a])[slot] == x
  {
    hide ToWords, ToBytes;
    WordsRoundTrip(ToWords(d[a])[slot := x]);
  }

  /** Growing a file over block 139 and then 140 by the code as written. Unless the new index block
      happens to be where the root's slot leads already, the second address is written into word 1 of
      whatever block that slot leads to, and block 140 is found again there, although 139 is not. */
  method LoseTwo(fs: FileSystem, inode: Inode) returns (a139: int, f139: int, a140: int, f140: int)
    requires fs.store.Ok() && StackFine(fs.Stack()) && inode.number < INODES && |fs.Stack()| >= 4
    requires InodeAt(fs.store.disk, inode.number).mode == inode.ic.mode
    modifies fs.store, fs.store.fdb, inode`ic
    ensures var d, was := old(fs.store.disk), old(fs.Stack());
            var root, t := was[|was| - 2], was[|was| - 3];
            var left := Ptr(d, root, 0);
            && a139 == was[|was| - 1] && a140 == was[|was| - 4] && fs.store.Sized()
            && (f139 == a139 <==> left == t || (left < DISK_BLOCKS && Ptr(d, left, 0) == a139))
            && (left < DISK_BLOCKS ==> f140 == a140)
            && (left < DISK_BLOCKS && left != t ==> ToWords(fs.store.disk[left])[1] == a140)
            && (left != 1 && left !in fs.store.chain ==> fs.store.Ok() && fs.Stack() == was[..|was| - 4])
            && forall c | c in fs.store.chain :: IsData(c) && c in was[..|was| - 4]
  {
    hide EncodeSuper, FreeStack, InodeAt, Ptr, ToWords, ToBytes, NoDup;
    ghost var d, was := fs.store.disk, fs.Stack();
    FirstTaken();
    a139, f139 := AllocateAndLookUp(fs, inode, 139 * 512);
    FinePrefix(was, fs.Stack());
    SameAt(d, fs.store.disk, inode.ic.ib[1], 0);
    a140, f140 := AllocateBehind(fs, inode, 140 * 512);
  }

  lemma FinePrefix(was: seq<word>, now: seq<word>)
    requires StackFine(was) && now <= was
    ensures StackFine(now)
  {
    assert forall i | 0 <= i < |now| :: now[i] == was[i];
    assert forall a | a in now :: a in was;
  }

  lemma FirstTaken()
    ensures BlocksTaken(0, 2) == 3
  {
    NoneYet(1);
    assert NewNodes(0, 1) == 0;
  }
}

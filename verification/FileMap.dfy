/** Which disk blocks belong to whom. An inode reaches its blocks through 11 direct slots and
    one indirect block (file block numbers below 139); everything else is free or leaked. */
module FileMap {
  import opened Bytes
  import opened Formats
  import opened FreeChain

  const INODES: nat := 512
  const MAX_BLOCKS: nat := 139
  // The slot that stands for the single indirect block itself.
  const IND: nat := 139

  datatype Owner = Nobody | Free(depth: nat) | Slot(ino: nat, slot: nat)

  /** The address an inode holds in slot s. */
  function SlotAddr(d: seq<Block>, ic: Icommon, s: nat): word {
    if s < NDADDR then ic.db[s]
    else if s == IND then ic.ib[0]
    else if s < IND && ic.ib[0] < |d| then ToWords(d[ic.ib[0]])[s - NDADDR]
    else 0
  }

  // The slots of a file of n blocks.
  predicate HasSlot(n: nat, s: nat) {
    s < n || (s == IND && n > NDADDR)
  }

  /** How many blocks an inode of this size has: a regular file always keeps one more block
      than it has full ones, a directory gets a block only when an entry needs it. */
  function NBlocks(ic: Icommon): nat {
    if ic.mode == IFDIR then (ic.size + 511) / 512 else ic.size / 512 + 1
  }

  ghost predicate SlotOwned(d: seq<Block>, ic: Icommon, owner: seq<Owner>, i: nat, s: nat)
    requires |owner| == DISK_BLOCKS
  {
    var a := SlotAddr(d, ic, s);
    IsData(a) && owner[a] == Slot(i, s)
  }

  ghost predicate StackOwned(stack: seq<word>, owner: seq<Owner>)
    requires |owner| == DISK_BLOCKS
  {
    forall k | 0 <= k < |stack| :: IsData(stack[k]) && owner[stack[k]] == Free(k)
  }

  ghost predicate InodeOwned(d: seq<Block>, ic: Icommon, n: nat, owner: seq<Owner>, i: nat)
    requires |owner| == DISK_BLOCKS
  {
    n <= MAX_BLOCKS && forall s | HasSlot(n, s) :: SlotOwned(d, ic, owner, i, s)
  }

  /** `owner` is a consistent account: it names the one holder of every free or used block. */
  ghost predicate Owned(d: seq<Block>, stack: seq<word>, live: seq<Icommon>, cnt: seq<nat>, owner: seq<Owner>)
  {
    && |d| == |owner| == DISK_BLOCKS
    && |live| == |cnt| == INODES
    && StackOwned(stack, owner)
    && forall i | 0 <= i < INODES :: InodeOwned(d, live[i], cnt[i], owner, i)
  }

  /** No block is on the free list twice, both free and in use, or used by two slots. */
  lemma Exclusive(d: seq<Block>, stack: seq<word>, live: seq<Icommon>, cnt: seq<nat>, owner: seq<Owner>)
    requires Owned(d, stack, live, cnt, owner)
    ensures forall j, k :: 0 <= j < k < |stack| ==> stack[j] != stack[k]
    ensures forall i, s | 0 <= i < INODES && HasSlot(cnt[i], s) ::
              IsData(SlotAddr(d, live[i], s)) && SlotAddr(d, live[i], s) !in stack
    ensures forall i, s, j, t | 0 <= i < INODES && HasSlot(cnt[i], s) && 0 <= j < INODES && HasSlot(cnt[j], t) ::
              SlotAddr(d, live[i], s) == SlotAddr(d, live[j], t) ==> i == j && s == t
  {
    hide SlotAddr, HasSlot;
    forall i, s | 0 <= i < INODES && HasSlot(cnt[i], s)
      ensures SlotOwned(d, live[i], owner, i, s)
    {
      assert InodeOwned(d, live[i], cnt[i], owner, i);
    }
  }

  // ----- what a file consists of -----

  datatype FileView = FileView(ic: Icommon, addrs: seq<word>, blocks: seq<Block>)

  function BlockOf(d: seq<Block>, a: word): Block {
    if a < |d| then d[a] else ZeroBlock()
  }

  function View(d: seq<Block>, ic: Icommon, n: nat): FileView {
    FileView(ic, seq(n, s requires 0 <= s < n => SlotAddr(d, ic, s)),
                 seq(n, s requires 0 <= s < n => BlockOf(d, SlotAddr(d, ic, s))))
  }

  ghost function Views(d: seq<Block>, live: seq<Icommon>, cnt: seq<nat>): (v: seq<FileView>)
    requires |live| == |cnt|
    ensures |v| == |live|
  {
    seq(|live|, i requires 0 <= i < |live| => View(d, live[i], cnt[i]))
  }

  /** Byte p of a file. */
  function ByteAt(f: FileView, p: nat): byte {
    if p / 512 < |f.blocks| then f.blocks[p / 512][p % 512] else 0
  }

  /** A file's contents: the first `size` bytes of its blocks in order. */
  function Content(f: FileView): (c: seq<byte>)
    ensures |c| == f.ic.size
  {
    seq(f.ic.size, p requires 0 <= p < f.ic.size => ByteAt(f, p))
  }

  // Byte p is byte p % 512 of file block p / 512.
  lemma ContentAt(f: FileView, p: nat)
    requires p < f.ic.size && p / 512 < |f.blocks|
    ensures Content(f)[p] == f.blocks[p / 512][p % 512]
  {
  }

  // ----- frames -----

  lemma IndexSlot(d: seq<Block>, ic: Icommon, n: nat, owner: seq<Owner>, i: nat)
    requires |d| == |owner| == DISK_BLOCKS && InodeOwned(d, ic, n, owner, i) && n > NDADDR
    ensures IsData(ic.ib[0]) && owner[ic.ib[0]] == Slot(i, IND)
  {
    assert HasSlot(n, IND) && SlotOwned(d, ic, owner, i, IND);
  }

  lemma SlotFrame(d: seq<Block>, d': seq<Block>, ic: Icommon, n: nat, s: nat)
    requires |d| == |d'| == DISK_BLOCKS && HasSlot(n, s)
    requires n > NDADDR && ic.ib[0] < DISK_BLOCKS ==> d'[ic.ib[0]] == d[ic.ib[0]]
    ensures SlotAddr(d', ic, s) == SlotAddr(d, ic, s)
  {
    hide ToWords;
  }

  /** An inode keeps its slots as long as its indirect block and its entries in the account do. */
  lemma InodeFrame(d: seq<Block>, d': seq<Block>, ic: Icommon, n: nat, owner: seq<Owner>, owner': seq<Owner>, i: nat)
    requires |d| == |d'| == |owner| == |owner'| == DISK_BLOCKS
    requires InodeOwned(d, ic, n, owner, i)
    requires n > NDADDR && ic.ib[0] < DISK_BLOCKS ==> d'[ic.ib[0]] == d[ic.ib[0]]
    requires forall b | IsData(b) && owner[b].Slot? && owner[b].ino == i :: owner'[b] == owner[b]
    ensures InodeOwned(d', ic, n, owner', i)
    ensures View(d', ic, n).addrs == View(d, ic, n).addrs
  {
    hide SlotAddr;
    forall s | HasSlot(n, s)
      ensures SlotOwned(d', ic, owner', i, s) && SlotAddr(d', ic, s) == SlotAddr(d, ic, s)
    {
      assert SlotOwned(d, ic, owner, i, s);
      SlotFrame(d, d', ic, n, s);
    }
  }

  /** A file none of whose blocks changed is unchanged: same blocks, same bytes. */
  lemma ViewFrame(d: seq<Block>, d': seq<Block>, ic: Icommon, n: nat, owner: seq<Owner>, owner': seq<Owner>, i: nat)
    requires |d| == |d'| == |owner| == |owner'| == DISK_BLOCKS
    requires InodeOwned(d, ic, n, owner, i)
    requires forall b | IsData(b) && owner[b].Slot? && owner[b].ino == i :: owner'[b] == owner[b] && d'[b] == d[b]
    ensures InodeOwned(d', ic, n, owner', i)
    ensures View(d', ic, n) == View(d, ic, n)
  {
    hide SlotAddr;
    if n > NDADDR {
      IndexSlot(d, ic, n, owner, i);
    }
    InodeFrame(d, d', ic, n, owner, owner', i);
    forall s | 0 <= s < n
      ensures SlotAddr(d', ic, s) == SlotAddr(d, ic, s)
      ensures BlockOf(d', SlotAddr(d, ic, s)) == BlockOf(d, SlotAddr(d, ic, s))
    {
      assert HasSlot(n, s) && SlotOwned(d, ic, owner, i, s);
      SlotFrame(d, d', ic, n, s);
    }
  }

  // What i does not own is still owned as before, in blocks still holding what they held.
  ghost predicate OthersKept(d: seq<Block>, d': seq<Block>, owner: seq<Owner>, owner': seq<Owner>, i: int)
    requires |d| == |d'| == |owner| == |owner'| == DISK_BLOCKS
  {
    forall b | IsData(b) && owner[b].Slot? && owner[b].ino != i :: owner'[b] == owner[b] && d'[b] == d[b]
  }

  /** Changing one inode's record, its blocks, and blocks that belong to no other inode
      keeps the account of everybody else. */
  lemma OwnedStep(d: seq<Block>, d': seq<Block>, stack: seq<word>, stack': seq<word>,
                  live: seq<Icommon>, live': seq<Icommon>, cnt: seq<nat>, cnt': seq<nat>,
                  owner: seq<Owner>, owner': seq<Owner>, i: nat)
    requires Owned(d, stack, live, cnt, owner) && i < INODES
    requires |d'| == |owner'| == DISK_BLOCKS && |live'| == |cnt'| == INODES
    requires live' == live[i := live'[i]] && cnt' == cnt[i := cnt'[i]]
    requires OthersKept(d, d', owner, owner', i)
    requires StackOwned(stack', owner') && InodeOwned(d', live'[i], cnt'[i], owner', i)
    ensures Owned(d', stack', live', cnt', owner')
    ensures Views(d', live', cnt') == Views(d, live, cnt)[i := View(d', live'[i], cnt'[i])]
  {
    hide View, StackOwned, InodeOwned;
    forall j | 0 <= j < INODES && j != i
      ensures InodeOwned(d', live'[j], cnt'[j], owner', j)
      ensures View(d', live'[j], cnt'[j]) == View(d, live[j], cnt[j])
    {
      assert live'[j] == live[j] && cnt'[j] == cnt[j];
      ViewFrame(d, d', live[j], cnt[j], owner, owner', j);
    }
  }

  /** Between disks d and d' no block of the free list was written, nor block 0. */
  ghost predicate Untouched(d: seq<Block>, d': seq<Block>, stack: seq<word>) {
    && |d| == |d'| == DISK_BLOCKS && d'[0] == d[0]
    && forall b | b in stack && IsData(b) :: d'[b] == d[b]
  }

  lemma StillUntouched(d: seq<Block>, d1: seq<Block>, d2: seq<Block>, stack: seq<word>, stack': seq<word>)
    requires Untouched(d, d1, stack) && stack' <= stack && |d2| == DISK_BLOCKS && d2[0] == d1[0]
    requires forall b | b in stack' && IsData(b) :: d2[b] == d1[b]
    ensures Untouched(d, d2, stack')
  {
    assert forall b | b in stack' :: b in stack;
  }

  lemma StackPop(stack: seq<word>, a: word, owner: seq<Owner>)
    requires |owner| == DISK_BLOCKS && StackOwned(stack + [a], owner)
    ensures IsData(a) && owner[a] == Free(|stack|) && StackOwned(stack, owner[a := Nobody])
  {
    var s := stack + [a];
    assert s[|stack|] == a;
    forall k | 0 <= k < |stack|
      ensures IsData(stack[k]) && owner[a := Nobody][stack[k]] == Free(k)
    {
      assert s[k] == stack[k];
    }
  }

  /** A change to the disk and the free list alone. */
  lemma OwnedAside(d: seq<Block>, d': seq<Block>, stack: seq<word>, stack': seq<word>,
                   live: seq<Icommon>, cnt: seq<nat>, owner: seq<Owner>, owner': seq<Owner>)
    requires Owned(d, stack, live, cnt, owner)
    requires |d'| == |owner'| == DISK_BLOCKS && OthersKept(d, d', owner, owner', -1)
    requires StackOwned(stack', owner')
    ensures Owned(d', stack', live, cnt, owner')
    ensures Views(d', live, cnt) == Views(d, live, cnt)
  {
    hide View, StackOwned, InodeOwned;
    forall j | 0 <= j < INODES
      ensures InodeOwned(d', live[j], cnt[j], owner', j)
      ensures View(d', live[j], cnt[j]) == View(d, live[j], cnt[j])
    {
      ViewFrame(d, d', live[j], cnt[j], owner, owner', j);
    }
  }
}

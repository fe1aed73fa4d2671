/** How the kernel turns a file block number into a disk address: 11 direct slots, then
    pointer trees of one, two and three levels with 128 pointers per block. */
module BlockTree {
  import opened Bytes
  import opened Formats
  import opened FreeChain
  import opened FileMap

  const LS: nat := 128
  const SINGLE_END: nat := NDADDR + LS
  const DOUBLE_END: nat := SINGLE_END + LS * LS
  const TRIPLE_END: nat := DOUBLE_END + LS * LS * LS

  function Power(e: nat): (p: nat)
    ensures p > 0
  {
    if e == 0 then 1 else LS * Power(e - 1)
  }

  // Pointer k of index block a.
  function Ptr(d: seq<Block>, a: word, k: nat): word {
    if a < |d| && k < LS then ToWords(d[a])[k] else 0
  }

  /** Leaf k of the pointer tree of `levels` levels rooted at a. */
  function Walk(d: seq<Block>, a: word, levels: nat, k: nat): word
    decreases levels
  {
    if levels == 0 then a
    else Walk(d, Ptr(d, a, k / Power(levels - 1)), levels - 1, k % Power(levels - 1))
  }

  // Every index block on the way to leaf k is a block of the disk.
  predicate WalkReal(d: seq<Block>, a: word, levels: nat, k: nat)
    decreases levels
  {
    levels == 0 || (a < |d| && WalkReal(d, Ptr(d, a, k / Power(levels - 1)), levels - 1, k % Power(levels - 1)))
  }

  // Which of the three trees holds block number blk, and where in it.
  function Level(blk: nat): (l: nat)
    ensures l <= 4
  {
    if blk < NDADDR then 0 else if blk < SINGLE_END then 1 else if blk < DOUBLE_END then 2
    else if blk < TRIPLE_END then 3 else 4
  }

  function Offset(blk: nat): nat {
    if blk < NDADDR then blk
    else if blk < SINGLE_END then blk - NDADDR
    else if blk < DOUBLE_END then blk - SINGLE_END
    else if blk < TRIPLE_END then blk - DOUBLE_END
    else 0
  }

  /** The address of file block blk, -1 beyond the largest file. */
  function TreeAddr(d: seq<Block>, ic: Icommon, blk: nat): int {
    var l := Level(blk);
    if l == 4 then -1 else if l == 0 then ic.db[blk] else Walk(d, ic.ib[l - 1], l, Offset(blk))
  }

  predicate TreeReal(d: seq<Block>, ic: Icommon, blk: nat) {
    var l := Level(blk);
    l == 0 || l == 4 || WalkReal(d, ic.ib[l - 1], l, Offset(blk))
  }

  function WordOf(b: Block, i: nat): word {
    if i < LS then ToWords(b)[i] else 0
  }

  /** Leaf k of the tree of `levels` levels whose root block was read into a buffer as b, the way the
      kernel walks: every level is read into the same buffer. */
  function Descent(d: seq<Block>, b: Block, levels: nat, k: nat): word
    decreases levels
  {
    if levels <= 1 then WordOf(b, k)
    else Descent(d, ReadOver(d, WordOf(b, k / Power(levels - 1)), b), levels - 1, k % Power(levels - 1))
  }

  /** What getDataBlockAddr returns, whether the pointers it follows lead to blocks of the disk or not. */
  function RawAddr(d: seq<Block>, ic: Icommon, blk: nat): int {
    var l := Level(blk);
    if l == 4 then -1 else if l == 0 then ic.db[blk]
    else Descent(d, ReadOver(d, ic.ib[l - 1], ZeroBlock()), l, Offset(blk))
  }

  lemma DescentTwo(d: seq<Block>, b: Block, k: nat)
    ensures Descent(d, b, 2, k) == WordOf(ReadOver(d, WordOf(b, k / LS), b), k % LS)
  {
    hide WordOf, ReadOver;
    assert Power(1) == LS by { assert Power(0) == 1; }
    var c := ReadOver(d, WordOf(b, k / LS), b);
    assert Descent(d, c, 1, k % LS) == WordOf(c, k % LS);
  }

  lemma DescentThree(d: seq<Block>, b: Block, k: nat)
    ensures var c := ReadOver(d, WordOf(b, k / (LS * LS)), b);
            Descent(d, b, 3, k) == WordOf(ReadOver(d, WordOf(c, k % (LS * LS) / LS), c), k % LS)
  {
    hide WordOf, ReadOver;
    assert Power(2) == LS * LS by { assert Power(1) == LS * Power(0) && Power(0) == 1; }
    DescentTwo(d, ReadOver(d, WordOf(b, k / (LS * LS)), b), k % (LS * LS));
    assert k % (LS * LS) % LS == k % LS;
  }

  /** Where all pointers lead to blocks of the disk, that is the block's place in the pointer tree. */
  lemma RawIsTree(d: seq<Block>, ic: Icommon, blk: nat)
    requires TreeReal(d, ic, blk)
    ensures RawAddr(d, ic, blk) == TreeAddr(d, ic, blk)
    ensures 1 <= Level(blk) <= 3 ==> ic.ib[Level(blk) - 1] < |d|
  {
    hide ToWords, Descent, Walk, WalkReal;
    var l, k := Level(blk), Offset(blk);
    if l == 1 {
      SingleWalk(d, ic.ib[0], k);
      assert Descent(d, d[ic.ib[0]], 1, k) == WordOf(d[ic.ib[0]], k) by { DescentOne(d, d[ic.ib[0]], k); }
    } else if l == 2 {
      DoubleWalk(d, ic.ib[1], k);
      DescentTwo(d, d[ic.ib[1]], k);
    } else if l == 3 {
      TripleWalk(d, ic.ib[2], k);
      DescentThree(d, d[ic.ib[2]], k);
    }
  }

  lemma DescentOne(d: seq<Block>, b: Block, k: nat)
    ensures Descent(d, b, 1, k) == WordOf(b, k)
  {
  }

  lemma SingleWalk(d: seq<Block>, a: word, k: nat)
    requires k < LS
    ensures Walk(d, a, 1, k) == Ptr(d, a, k)
    ensures WalkReal(d, a, 1, k) <==> a < |d|
  {
    hide Ptr;
    assert Power(0) == 1;
    assert Walk(d, Ptr(d, a, k), 0, 0) == Ptr(d, a, k);
    assert WalkReal(d, Ptr(d, a, k), 0, 0);
  }

  lemma DoubleWalk(d: seq<Block>, a: word, k: nat)
    requires k < LS * LS
    ensures Walk(d, a, 2, k) == Ptr(d, Ptr(d, a, k / LS), k % LS)
    ensures WalkReal(d, a, 2, k) <==> a < |d| && Ptr(d, a, k / LS) < |d|
  {
    hide Ptr;
    assert Power(1) == LS by { assert Power(0) == 1; }
    SingleWalk(d, Ptr(d, a, k / LS), k % LS);
  }

  lemma TripleWalk(d: seq<Block>, a: word, k: nat)
    requires k < LS * LS * LS
    ensures Walk(d, a, 3, k) == Ptr(d, Ptr(d, Ptr(d, a, k / (LS * LS)), k % (LS * LS) / LS), k % LS)
    ensures WalkReal(d, a, 3, k) <==> a < |d| && Ptr(d, a, k / (LS * LS)) < |d|
                                      && Ptr(d, Ptr(d, a, k / (LS * LS)), k % (LS * LS) / LS) < |d|
  {
    hide Ptr;
    assert Power(2) == LS * LS by { assert Power(1) == LS * Power(0) && Power(0) == 1; }
    DoubleWalk(d, Ptr(d, a, k / (LS * LS)), k % (LS * LS));
    assert k % (LS * LS) % LS == k % LS;
  }

  /** Up to block 138 the lookup finds exactly the slot the account speaks of. */
  lemma LookupIsSlot(d: seq<Block>, ic: Icommon, blk: nat)
    requires |d| == DISK_BLOCKS && blk < MAX_BLOCKS
    ensures TreeAddr(d, ic, blk) == SlotAddr(d, ic, blk)
    ensures TreeReal(d, ic, blk) <==> blk < NDADDR || ic.ib[0] < |d|
  {
    hide ToWords;
    if blk >= NDADDR {
      SingleWalk(d, ic.ib[0], blk - NDADDR);
    }
  }
}

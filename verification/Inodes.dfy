/** The inode region of the disk (blocks 2 to 65, eight inodes a block) and in-core inodes. */
module Inodes {
  import opened Bytes
  import opened Formats
  import opened FreeChain
  import opened FileMap

  const FIRST_INODE_BLOCK: nat := 2

  /** An in-core inode (inode_t). */
  class Inode {
    var number: word
    var links: nat
    var ic: Icommon

    constructor ()
      ensures links == 0 && ic.mode == IFZERO
    {
      number, links := 0, 0;
      ic := Icommon(0, 0, seq(NDADDR, _ => 0), seq(NIADDR, _ => 0));
    }
  }

  function InodeAt(d: seq<Block>, i: nat): Icommon
    requires |d| == DISK_BLOCKS && i < INODES
  {
    DecodeInodes(d[FIRST_INODE_BLOCK + i / 8])[i % 8]
  }

  function InodesOnDisk(d: seq<Block>): seq<Icommon>
    requires |d| == DISK_BLOCKS
  {
    seq(INODES, i requires 0 <= i < INODES => InodeAt(d, i))
  }

  /** The disk agrees with the records in force: wholly for an inode that is not in core,
      and about being in use for every inode. */
  ghost predicate Recorded(d: seq<Block>, live: seq<Icommon>, incore: set<nat>)
    requires |d| == DISK_BLOCKS && |live| == INODES
  {
    forall i | 0 <= i < INODES ::
      && InodeAt(d, i).mode == live[i].mode
      && (i !in incore ==> InodeAt(d, i) == live[i])
  }

  lemma SameInodeBlocks(d: seq<Block>, d': seq<Block>)
    requires |d| == |d'| == DISK_BLOCKS
    requires forall b | FIRST_INODE_BLOCK <= b < FIRST_DATA :: d'[b] == d[b]
    ensures forall i | 0 <= i < INODES :: InodeAt(d', i) == InodeAt(d, i)
  {
    hide DecodeInodes;
  }

  /** Patching one record of one inode block changes that inode and no other. */
  lemma PatchInode(d: seq<Block>, d': seq<Block>, n: nat, ic: Icommon)
    requires |d| == DISK_BLOCKS && n < INODES
    requires d' == d[FIRST_INODE_BLOCK + n / 8 := EncodeInodes(DecodeInodes(d[FIRST_INODE_BLOCK + n / 8])[n % 8 := ic])]
    ensures forall i | 0 <= i < INODES :: InodeAt(d', i) == if i == n then ic else InodeAt(d, i)
  {
    hide DecodeInodes, EncodeInodes;
    var t: InodeTable := DecodeInodes(d[FIRST_INODE_BLOCK + n / 8])[n % 8 := ic];
    InodesRoundTrip(t);
  }
}

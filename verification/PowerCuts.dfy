/** What a power cut while a file's blocks are being released leaves on the disk. */
module PowerCuts {
  import opened Bytes
  import opened Formats
  import opened FreeChain
  import opened FileMap
  import opened Inodes
  import opened FileSys
  import opened Release

  /** The image boots, and with the inode records on it and the free list it boots with there is a
      consistent account: nobody's blocks are free or somebody else's. */
  ghost predicate Accounted(d: seq<Block>, stack: seq<word>, cnt: seq<nat>, owner: seq<Owner>) {
    && |d| == DISK_BLOCKS && Boots(d, stack) && Owned(d, stack, InodesOnDisk(d), cnt, owner)
    && forall i | 0 <= i < INODES :: Settled(InodeAt(d, i), cnt[i])
  }

  ghost predicate Consistent(d: seq<Block>) {
    exists stack, cnt, owner :: Accounted(d, stack, cnt, owner)
  }

  // With no file open the disk itself is consistent.
  lemma AtRest(fs: FileSystem)
    requires fs.Valid() && fs.incore == {}
    ensures Consistent(fs.store.disk) && Boots(fs.store.disk, fs.Stack())
  {
    hide EncodeSuper, FreeStack, Owned, Boots, InodeAt, Settled;
    var d := fs.store.disk;
    assert InodesOnDisk(d) == fs.live;
    fs.store.NowBoots();
    assert Accounted(d, fs.Stack(), fs.cnt, fs.owner);
  }

  // The account is not about the contents of a file's first block.
  lemma FirstBlockAside(d: seq<Block>, d': seq<Block>, stack: seq<word>, cnt: seq<nat>, owner: seq<Owner>, num: nat)
    requires Accounted(d, stack, cnt, owner) && num < INODES
    requires InodeAt(d, num).size > 0 && InodeAt(d, num).mode != IFZERO
    requires |d'| == DISK_BLOCKS && Boots(d', stack)
    requires forall b | 0 <= b < DISK_BLOCKS && b != 1 && b != InodeAt(d, num).db[0] as int :: d'[b] == d[b]
    ensures Accounted(d', stack, cnt, owner)
  {
    hide InodeAt, SlotAddr, StackOwned, Boots, InodeOwned;
    FirstSlot(d, stack, cnt, owner, num);
    assert forall b | FIRST_INODE_BLOCK <= b < FIRST_DATA :: d'[b] == d[b];
    SameInodeBlocks(d, d');
    assert InodesOnDisk(d') == InodesOnDisk(d);
    var live := InodesOnDisk(d);
    forall i | 0 <= i < INODES
      ensures InodeOwned(d', live[i], cnt[i], owner, i)
    {
      if cnt[i] > NDADDR {
        IndexSlot(d, live[i], cnt[i], owner, i);
      }
      InodeFrame(d, d', live[i], cnt[i], owner, owner, i);
    }
  }

  lemma FirstSlot(d: seq<Block>, stack: seq<word>, cnt: seq<nat>, owner: seq<Owner>, num: nat)
    requires Accounted(d, stack, cnt, owner) && num < INODES
    requires InodeAt(d, num).size > 0 && InodeAt(d, num).mode != IFZERO
    ensures |owner| == DISK_BLOCKS == |d| && |cnt| == INODES && HasSlot(cnt[num], 0)
    ensures IsData(InodeAt(d, num).db[0]) && owner[InodeAt(d, num).db[0]] == Slot(num, 0)
    ensures InodeAt(d, num).db[0] !in stack
  {
    hide InodeAt, Boots;
    Exclusive(d, stack, InodesOnDisk(d), cnt, owner);
    assert Settled(InodeAt(d, num), cnt[num]) && InodesOnDisk(d)[num] == InodeAt(d, num);
    assert InodeOwned(d, InodesOnDisk(d)[num], cnt[num], owner, num);
    assert SlotOwned(d, InodesOnDisk(d)[num], owner, num, 0);
  }

  /** A disk image left by a power cut during the release of file num is consistent if and only if it still
      boots with the whole old free list, and the disk was consistent before. From the first freed block
      on, that block is on the image's free list while the record on it still claims it. */
  lemma PowerCut(img: seq<Block>, d: seq<Block>, stack: seq<word>, r: seq<word>, num: nat)
    requires CutAt(img, d, stack, r, |r|) && Boots(d, stack) && num < INODES && r != []
    requires InodeAt(d, num).mode != IFZERO && InodeAt(d, num).size > 0 && r[0] == InodeAt(d, num).db[0]
    ensures Consistent(img) <==> Boots(img, stack) && Consistent(d)
  {
    hide InodeAt, Owned, Boots, Settled;
    var j :| 0 <= j <= |r| && CutAfter(img, d, stack, r, j);
    SameInodeBlocks(d, img);
    if j > 0 {
      assert r[0] in stack + r[..j] by { assert r[..j][0] == r[0]; }
      if Boots(img, stack) {
        BootsUnique(img, stack, stack + r[..j]);
      }
      if Consistent(img) {
        var s, cnt, owner :| Accounted(img, s, cnt, owner);
        BootsUnique(img, s, stack + r[..j]);
        FirstSlot(img, s, cnt, owner, num);
      }
    } else {
      assert stack + r[..0] == stack;
      if Consistent(d) {
        var s, cnt, owner :| Accounted(d, s, cnt, owner);
        BootsUnique(d, s, stack);
        FirstBlockAside(d, img, stack, cnt, owner, num);
      }
      if Consistent(img) {
        var s, cnt, owner :| Accounted(img, s, cnt, owner);
        BootsUnique(img, s, stack);
        FirstBlockAside(img, d, stack, cnt, owner, num);
      }
    }
  }

  lemma {:induction false} FirstFreed(head: nat, fdb: FreeList, f: FileView, m: nat)
    requires 0 < m <= |f.addrs|
    ensures Freed(head, fdb, f, m)[0] == f.addrs[0]
    decreases m
  {
    if m > 1 {
      FirstFreed(head, fdb, f, m - 1);
    }
  }

  lemma FirstAddress(fs: FileSystem, num: nat)
    requires fs.Valid() && num < INODES && fs.live[num].mode != IFZERO && fs.live[num].size > 0
    ensures LeafCount(fs.live[num]) <= |fs.Files()[num].addrs| && fs.Files()[num].addrs != []
    ensures fs.Files()[num].addrs[0] == fs.live[num].db[0]
  {
    hide Owned, Boots, EncodeSuper, FreeStack, Recorded;
    fs.FreeingStart(num);
    assert Settled(fs.live[num], fs.cnt[num]);
  }

  /** The end of unlink under power cuts: of all the disk images it goes through, those before the last are
      consistent exactly if the disk was and no freed block is on their free list yet; the last one is, if no
      file is open and no indirect block was overwritten while being freed. */
  method EraseUnderCuts(fs: FileSystem, inode: Inode)
    requires fs.Valid() && inode.number < INODES && inode.number !in fs.incore && inode.ic == fs.live[inode.number]
    requires inode.ic.mode != IFZERO && inode.ic.size > 0
    modifies fs`live, fs`cnt, fs`owner, fs`freed, fs.store, fs.store.fdb, inode`ic
    ensures var n := |fs.store.log| - 1;
            && n >= |old(fs.store.log)| && fs.store.log[n] == fs.store.disk
            && (forall k | |old(fs.store.log)| <= k < n ::
                  Consistent(fs.store.log[k])
                  <==> Boots(fs.store.log[k], old(fs.Stack())) && Consistent(old(fs.store.disk)))
            && (!Clobbers(old(fs.store.fdbhead), LeafCount(old(inode.ic))) && fs.incore == {} ==>
                  Consistent(fs.store.log[n]))
  {
    hide Owned, Boots, Consistent, Accounted, CutAt, EncodeSuper, FreeStack, InodeAt, Freed, View, Views, Settled;
    ghost var num, d, stack := inode.number, fs.store.disk, fs.Stack();
    FirstAddress(fs, num);
    ghost var r := Freed(fs.store.fdbhead, fs.store.fdb[..], fs.Files()[num], LeafCount(inode.ic));
    FirstFreed(fs.store.fdbhead, fs.store.fdb[..], fs.Files()[num], LeafCount(inode.ic));
    assert Boots(d, stack) && InodeAt(d, num) == inode.ic by { RecordAtRest(fs, num); }
    fs.Erase(inode);
    ghost var log := fs.store.log;
    forall k | |old(fs.store.log)| <= k < |log| - 1
      ensures Consistent(log[k]) <==> Boots(log[k], stack) && Consistent(d)
    {
      PowerCut(log[k], d, stack, r, num);
    }
    if !Clobbers(old(fs.store.fdbhead), LeafCount(old(inode.ic))) && fs.incore == {} {
      AtRest(fs);
    }
  }

  lemma RecordAtRest(fs: FileSystem, num: nat)
    requires fs.Valid() && num < INODES && num !in fs.incore
    ensures Boots(fs.store.disk, fs.Stack()) && InodeAt(fs.store.disk, num) == fs.live[num]
  {
    hide Owned, Boots, EncodeSuper, FreeStack, InodeAt;
    fs.store.NowBoots();
  }
}

/** What freeDataBlocks pushes on the free list. It frees file blocks in order, and the indirect
    block right after file block 11, but goes on reading pointers from that freed block. */
module Release {
  import opened Bytes
  import opened Formats
  import opened FreeChain
  import opened FileMap
  import opened Attach

  // The number of file blocks freeDataBlocks visits.
  function LeafCount(ic: Icommon): nat {
    (ic.size + 511) / 512
  }

  /** The fill level of the in-memory chunk at which freeing the indirect block spills into it. */
  const SPILL_HEAD: nat := 51

  // The chunk that then overwrites the pointers of the indirect block.
  function Spilled(fdb: FreeList, f: FileView): (ws: FreeList)
    requires |f.addrs| > NDADDR
  {
    fdb[..SPILL_HEAD + 1] + f.addrs[..NDADDR + 1]
  }

  /** The pointer read for file block j, the chunk in memory having been fdb[..head + 1] at the start. */
  function LeafRead(head: nat, fdb: FreeList, f: FileView, j: nat): word
    requires j < |f.addrs|
  {
    if head == SPILL_HEAD && NDADDR < j < NDADDR + FDB_WORDS then Spilled(fdb, f)[j - NDADDR] else f.addrs[j]
  }

  /** Everything freed in the first m rounds, in order. */
  function Freed(head: nat, fdb: FreeList, f: FileView, m: nat): (r: seq<word>)
    requires m <= |f.addrs|
    ensures |r| == m + if m > NDADDR then 1 else 0
  {
    if m == 0 then []
    else Freed(head, fdb, f, m - 1) + [LeafRead(head, fdb, f, m - 1)] + if m - 1 == NDADDR then [f.ic.ib[0]] else []
  }

  // Where the release of slot s stands in that order.
  function Position(s: nat): nat {
    if s == IND then NDADDR + 1 else if s > NDADDR then s + 1 else s
  }

  // How many pushes the first k rounds make.
  function Pushes(k: nat): nat {
    if k > NDADDR then k + 1 else k
  }

  /** A disk image on which the release of the blocks r has got as far as its first j pushes; d and stack
      are from before. */
  ghost predicate CutAfter(img: seq<Block>, d: seq<Block>, stack: seq<word>, r: seq<word>, j: nat) {
    && j <= |r| && Boots(img, stack + r[..j])
    && (j == 0 && r != [] && |img| == |d| ==> forall b | 0 <= b < |d| && b != 1 && b != r[0] as int :: img[b] == d[b])
  }

  ghost predicate CutAt(img: seq<Block>, d: seq<Block>, stack: seq<word>, r: seq<word>, p: nat) {
    && |img| == |d| == DISK_BLOCKS && (forall b | 2 <= b < FIRST_DATA :: img[b] == d[b])
    && exists j :: 0 <= j <= p && CutAfter(img, d, stack, r, j)
  }

  // An image made by push number p.
  lemma CutStep(img: seq<Block>, d0: seq<Block>, d: seq<Block>, stack: seq<word>, r: seq<word>, p: nat)
    requires |img| == |d| == |d0| == DISK_BLOCKS && p < |r| && IsData(r[p])
    requires Boots(img, stack + r[..p]) || Boots(img, stack + r[..p + 1])
    requires forall b | 0 <= b < |d| && b != 1 && b != r[p] as int :: img[b] == d[b]
    requires (forall b | 2 <= b < FIRST_DATA :: d[b] == d0[b]) && (p == 0 ==> d == d0)
    ensures CutAt(img, d0, stack, r, p + 1)
  {
    hide Boots;
    var j := if Boots(img, stack + r[..p]) then p else p + 1;
    assert CutAfter(img, d0, stack, r, j);
  }

  lemma CutLater(img: seq<Block>, d: seq<Block>, stack: seq<word>, r: seq<word>, p: nat)
    requires CutAt(img, d, stack, r, p)
    ensures CutAt(img, d, stack, r, p + 1)
  {
    hide CutAfter;
  }

  // The overwritten pointers are read: the guard under which freeDataBlocks goes wrong.
  predicate Clobbers(head: nat, m: nat) {
    head == SPILL_HEAD && m > NDADDR + 1
  }

  ghost predicate NoDup(s: seq<word>) {
    forall i, j :: 0 <= i < j < |s| ==> s[i] != s[j]
  }

  // The slot released at a position.
  function SlotOf(p: nat): nat {
    if p == NDADDR + 1 then IND else if p > NDADDR then p - 1 else p
  }

  /** Unless the pointers were clobbered, round by round exactly the inode's own blocks are freed. */
  lemma {:induction false} FreedSlots(head: nat, fdb: FreeList, d: seq<Block>, ic: Icommon, n: nat, m: nat)
    requires m <= n <= MAX_BLOCKS && !Clobbers(head, m)
    ensures var r := Freed(head, fdb, View(d, ic, n), m);
            forall p | 0 <= p < |r| :: HasSlot(m, SlotOf(p)) && r[p] == SlotAddr(d, ic, SlotOf(p))
    decreases m
  {
    hide SlotAddr;
    if m > 0 {
      FreedSlots(head, fdb, d, ic, n, m - 1);
      var f := View(d, ic, n);
      assert f.addrs[m - 1] == SlotAddr(d, ic, m - 1);
      assert m - 1 == NDADDR ==> f.ic.ib[0] == SlotAddr(d, ic, IND) by { IndirectSlot(d, ic); }
    }
  }

  lemma IndirectSlot(d: seq<Block>, ic: Icommon)
    ensures SlotAddr(d, ic, IND) == ic.ib[0]
  {
  }

  /** The pushed blocks and the old free list together form a free list without repetition
      exactly when the pointers were not clobbered. */
  lemma FreedOnce(d: seq<Block>, stack: seq<word>, live: seq<Icommon>, cnt: seq<nat>, owner: seq<Owner>,
                  head: nat, fdb: FreeList, bottom: seq<word>, i: nat, m: nat)
    requires Owned(d, stack, live, cnt, owner) && i < INODES && m <= cnt[i]
    requires head < FDB_WORDS && stack == bottom + fdb[1..head + 1]
    ensures NoDup(stack + Freed(head, fdb, View(d, live[i], cnt[i]), m)) <==> !Clobbers(head, m)
  {
    var f := View(d, live[i], cnt[i]);
    if Clobbers(head, m) {
      DoubleFree(head, fdb, f, m, bottom);
    } else {
      hide SlotAddr;
      var r := Freed(head, fdb, f, m);
      var s := stack + r;
      FreedSlots(head, fdb, d, live[i], cnt[i], m);
      assert InodeOwned(d, live[i], cnt[i], owner, i);
      forall p | 0 <= p < |r|
        ensures IsData(r[p]) && owner[r[p]] == Slot(i, SlotOf(p))
      {
        assert HasSlot(cnt[i], SlotOf(p));
        assert SlotOwned(d, live[i], owner, i, SlotOf(p));
      }
    }
  }

  /** With the chunk in memory at level 51 and more than 12 blocks to free, the block at the
      bottom of that chunk is freed a second time. */
  lemma DoubleFree(head: nat, fdb: FreeList, f: FileView, m: nat, bottom: seq<word>)
    requires m <= |f.addrs| && Clobbers(head, m)
    ensures var s := bottom + fdb[1..head + 1] + Freed(head, fdb, f, m);
            s[|bottom|] == fdb[1] == s[|bottom| + SPILL_HEAD + NDADDR + 2]
  {
    FreedPrefix(head, fdb, f, NDADDR + 2, m);
    var r := Freed(head, fdb, f, NDADDR + 2);
    assert r[NDADDR + 2] == LeafRead(head, fdb, f, NDADDR + 1) == fdb[1];
  }

  lemma {:induction false} FreedPrefix(head: nat, fdb: FreeList, f: FileView, k: nat, m: nat)
    requires k <= m <= |f.addrs|
    ensures Freed(head, fdb, f, k) <= Freed(head, fdb, f, m)
    decreases m
  {
    if k < m {
      FreedPrefix(head, fdb, f, k, m - 1);
    }
  }

  lemma {:induction false} FreedForm(head: nat, fdb: FreeList, f: FileView, m: nat)
    requires m <= |f.addrs| && !Clobbers(head, m)
    ensures Freed(head, fdb, f, m)
         == if m <= NDADDR then f.addrs[..m] else f.addrs[..NDADDR + 1] + [f.ic.ib[0]] + f.addrs[NDADDR + 1..m]
    decreases m
  {
    hide Spilled;
    if m > 0 {
      FreedForm(head, fdb, f, m - 1);
      assert LeafRead(head, fdb, f, m - 1) == f.addrs[m - 1];
      assert f.addrs[..m] == f.addrs[..m - 1] + [f.addrs[m - 1]];
    }
  }

  lemma FreedMultiset(head: nat, fdb: FreeList, f: FileView, m: nat)
    requires m <= |f.addrs| && !Clobbers(head, m)
    ensures multiset(Freed(head, fdb, f, m)) == multiset(f.addrs[..m])
                                                + if m > NDADDR then multiset{f.ic.ib[0]} else multiset{}
  {
    hide Freed;
    FreedForm(head, fdb, f, m);
    if m > NDADDR {
      assert f.addrs[..m] == f.addrs[..NDADDR + 1] + f.addrs[NDADDR + 1..m];
    }
  }

  /** Freeing returns every block the inode held, its indirect block included, exactly when it
      visits as many file blocks as the inode has. */
  lemma FreedEverything(head: nat, fdb: FreeList, f: FileView, m: nat)
    requires m <= |f.addrs| && !Clobbers(head, m)
    ensures multiset(Freed(head, fdb, f, m)) == multiset(Held(f)) <==> m == |f.addrs|
  {
    FreedMultiset(head, fdb, f, m);
    if m == |f.addrs| {
      assert f.addrs[..m] == f.addrs;
    } else {
      assert |multiset(Held(f))| == |Held(f)|;
      assert |multiset(Freed(head, fdb, f, m))| == |Freed(head, fdb, f, m)|;
    }
  }

  /** A file whose size calls for |f.addrs| blocks gets all of them freed exactly when it is a
      directory or its last block is not empty; otherwise its last block is leaked. */
  lemma LeakCondition(ic: Icommon)
    ensures LeafCount(ic) == NBlocks(ic) <==> ic.mode == IFDIR || ic.size % 512 != 0
    ensures ic.mode != IFDIR && ic.size % 512 == 0 ==> LeafCount(ic) == NBlocks(ic) - 1
  {
  }

  // ----- steps of the freeing loop -----

  // The account after inode i gave up everything: released slots are on the free stack from
  // depth `base` on, anything else it ever held is nobody's.
  function AfterRelease(owner: seq<Owner>, i: nat, m: nat, base: nat): (r: seq<Owner>)
    ensures |r| == |owner|
  {
    seq(|owner|, b requires 0 <= b < |owner| =>
      match owner[b]
      case Slot(j, s) => if j != i then owner[b] else if HasSlot(m, s) then Free(base + Position(s)) else Nobody
      case _ => owner[b])
  }

  lemma ReleasedStack(d: seq<Block>, stack: seq<word>, live: seq<Icommon>, cnt: seq<nat>, owner: seq<Owner>,
                      head: nat, fdb: FreeList, i: nat, m: nat)
    requires Owned(d, stack, live, cnt, owner) && i < INODES && m <= cnt[i] && !Clobbers(head, m)
    ensures StackOwned(stack + Freed(head, fdb, View(d, live[i], cnt[i]), m), AfterRelease(owner, i, m, |stack|))
  {
    hide SlotAddr;
    var r := Freed(head, fdb, View(d, live[i], cnt[i]), m);
    FreedSlots(head, fdb, d, live[i], cnt[i], m);
    assert InodeOwned(d, live[i], cnt[i], owner, i);
    var s, o := stack + r, AfterRelease(owner, i, m, |stack|);
    forall k | 0 <= k < |s|
      ensures IsData(s[k]) && o[s[k]] == Free(k)
    {
      if k < |stack| {
        assert s[k] == stack[k];
      } else {
        var t := SlotOf(k - |stack|);
        assert HasSlot(cnt[i], t);
        assert SlotOwned(d, live[i], owner, i, t);
        assert Position(t) == k - |stack|;
      }
    }
  }

  /** Releasing an inode's blocks leaves a consistent account. */
  lemma ReleaseAll(d: seq<Block>, d': seq<Block>, stack: seq<word>, live: seq<Icommon>, cnt: seq<nat>,
                   owner: seq<Owner>, head: nat, fdb: FreeList, i: nat, m: nat)
    requires Owned(d, stack, live, cnt, owner) && i < INODES && m <= cnt[i] && !Clobbers(head, m)
    requires |d'| == DISK_BLOCKS
    requires forall b | IsData(b) && owner[b].Slot? && owner[b].ino != i :: d'[b] == d[b]
    ensures Owned(d', stack + Freed(head, fdb, View(d, live[i], cnt[i]), m), live, cnt[i := 0],
                  AfterRelease(owner, i, m, |stack|))
    ensures Views(d', live, cnt[i := 0]) == Views(d, live, cnt)[i := FileView(live[i], [], [])]
  {
    hide SlotAddr, BlockOf, InodeOwned, StackOwned;
    var o := AfterRelease(owner, i, m, |stack|);
    var s := stack + Freed(head, fdb, View(d, live[i], cnt[i]), m);
    ReleasedStack(d, stack, live, cnt, owner, head, fdb, i, m);
    assert InodeOwned(d', live[i], 0, o, i) by { NothingOwned(d', live[i], o, i); }
    OwnedStep(d, d', stack, s, live, live, cnt, cnt[i := 0], owner, o, i);
    assert View(d', live[i], 0) == FileView(live[i], [], []);
  }

  lemma NothingOwned(d: seq<Block>, ic: Icommon, owner: seq<Owner>, i: nat)
    requires |owner| == DISK_BLOCKS
    ensures InodeOwned(d, ic, 0, owner, i)
  {
  }

  // The block pushed at position p.
  function ItemAt(head: nat, fdb: FreeList, f: FileView, p: nat): word
    requires SlotOf(p) == IND || SlotOf(p) < |f.addrs|
  {
    if SlotOf(p) == IND then f.ic.ib[0] else LeafRead(head, fdb, f, SlotOf(p))
  }

  lemma {:induction false} FreedItem(head: nat, fdb: FreeList, f: FileView, m: nat, p: nat)
    requires m <= |f.addrs| <= MAX_BLOCKS && p < |Freed(head, fdb, f, m)|
    ensures (SlotOf(p) == IND || SlotOf(p) < |f.addrs|) && Freed(head, fdb, f, m)[p] == ItemAt(head, fdb, f, p)
    decreases m
  {
    if p < |Freed(head, fdb, f, m - 1)| {
      FreedItem(head, fdb, f, m - 1, p);
    }
  }

  // The pointers in the freed indirect block: overwritten when freeing it spilled.
  ghost function PointersLeft(head: nat, fdb: FreeList, f: FileView, words: seq<word>): seq<word>
    requires |words| == WORDS_PER_BLOCK && |f.addrs| > NDADDR
  {
    if head == SPILL_HEAD then Spilled(fdb, f) + words[FDB_WORDS..] else words
  }

  /** State of the freeing loop after p pushes, for the inode num whose file was f: blocks still to
      be freed hold what they held at the start (disk d0), and so does everybody else's. */
  ghost predicate Freeing(d0: seq<Block>, d: seq<Block>, owner: seq<Owner>, num: nat, f: FileView,
                          head0: nat, fdb0: FreeList, head: nat, fdb: FreeList, p: nat)
    requires |d0| == |d| == |owner| == DISK_BLOCKS
  {
    && (forall b | IsData(b) && owner[b].Slot? && !(owner[b].ino == num && Position(owner[b].slot) < p) ::
          d[b] == d0[b])
    && head == (head0 + p) % FDB_WORDS
    && (head0 == SPILL_HEAD && p <= NDADDR + 1 && p <= |f.addrs| ==>
          fdb[..SPILL_HEAD + 1 + p] == fdb0[..SPILL_HEAD + 1] + f.addrs[..p])
    && (p > NDADDR + 1 && |f.addrs| > NDADDR && IsData(f.ic.ib[0]) ==>
          ToWords(d[f.ic.ib[0]]) == PointersLeft(head0, fdb0, f, ToWords(d0[f.ic.ib[0]])))
  }

  // Who holds the block pushed at position p; in the clobbered range it may be free already.
  ghost predicate ItemOwner(owner: seq<Owner>, num: nat, head0: nat, p: nat, a: word)
    requires |owner| == DISK_BLOCKS
  {
    IsData(a) && (owner[a] == Slot(num, SlotOf(p))
                  || (head0 == SPILL_HEAD && NDADDR + 2 <= p < NDADDR + 1 + FDB_WORDS
                      && (owner[a].Free? || (owner[a].Slot? && owner[a].ino == num && owner[a].slot <= NDADDR))))
  }

  lemma ItemOwned(d: seq<Block>, stack: seq<word>, live: seq<Icommon>, cnt: seq<nat>, owner: seq<Owner>,
                  head0: nat, fdb0: FreeList, bottom: seq<word>, num: nat, m: nat, p: nat)
    requires Owned(d, stack, live, cnt, owner) && num < INODES && m <= cnt[num]
    requires head0 < FDB_WORDS && stack == bottom + fdb0[1..head0 + 1]
    requires p < |Freed(head0, fdb0, View(d, live[num], cnt[num]), m)|
    ensures ItemOwner(owner, num, head0, p, Freed(head0, fdb0, View(d, live[num], cnt[num]), m)[p])
  {
    hide SlotAddr;
    var f, s := View(d, live[num], cnt[num]), SlotOf(p);
    FreedItem(head0, fdb0, f, m, p);
    IndirectSlot(d, live[num]);
    assert InodeOwned(d, live[num], cnt[num], owner, num);
    assert HasSlot(cnt[num], s) && SlotOwned(d, live[num], owner, num, s);
    if head0 == SPILL_HEAD && s != IND && NDADDR < s < NDADDR + FDB_WORDS {
      var x := s - NDADDR;
      if x <= SPILL_HEAD {
        assert stack[|bottom| + x - 1] == fdb0[x];
      } else {
        assert HasSlot(cnt[num], x - SPILL_HEAD - 1) && SlotOwned(d, live[num], owner, num, x - SPILL_HEAD - 1);
      }
    }
  }

  /** One bfree of the loop. */
  lemma FreeingStep(d0: seq<Block>, d: seq<Block>, d': seq<Block>, owner: seq<Owner>, num: nat, f: FileView, head0: nat,
                    fdb0: FreeList, head: nat, fdb: FreeList, head': nat, fdb': FreeList, p: nat, a: word)
    requires |d0| == |d| == |d'| == |owner| == DISK_BLOCKS && head0 < FDB_WORDS && p <= MAX_BLOCKS
    requires Freeing(d0, d, owner, num, f, head0, fdb0, head, fdb, p) && ItemOwner(owner, num, head0, p, a)
    requires SlotOf(p) < |f.addrs| || (SlotOf(p) == IND && |f.addrs| > NDADDR)
    requires a == ItemAt(head0, fdb0, f, p)
    requires |f.addrs| > NDADDR ==> IsData(f.ic.ib[0]) && owner[f.ic.ib[0]] == Slot(num, IND)
    requires head' == (head + 1) % FDB_WORDS
    requires head == 63 ==> d'[a] == ToBytes(fdb) + d[a][256..]
    requires head < 63 ==> d'[a] == d[a] && fdb' == fdb[head + 1 := a]
    requires forall b | IsData(b) && b != a :: d'[b] == d[b]
    ensures Freeing(d0, d', owner, num, f, head0, fdb0, head', fdb', p + 1)
  {
    hide ToWords, ToBytes, PointersLeft;
    if p >= NDADDR + 1 && |f.addrs| > NDADDR {
      PointersAfter(d0, d, d', owner, num, f, head0, fdb0, head, fdb, p, a);
    }
  }

  // What the indirect block's words are after a push from its own on.
  lemma PointersAfter(d0: seq<Block>, d: seq<Block>, d': seq<Block>, owner: seq<Owner>, num: nat, f: FileView,
                      head0: nat, fdb0: FreeList, head: nat, fdb: FreeList, p: nat, a: word)
    requires |d0| == |d| == |d'| == |owner| == DISK_BLOCKS && head0 < FDB_WORDS && NDADDR + 1 <= p <= MAX_BLOCKS
    requires Freeing(d0, d, owner, num, f, head0, fdb0, head, fdb, p) && ItemOwner(owner, num, head0, p, a)
    requires SlotOf(p) < |f.addrs| || (SlotOf(p) == IND && |f.addrs| > NDADDR)
    requires a == ItemAt(head0, fdb0, f, p) && |f.addrs| > NDADDR
    requires IsData(f.ic.ib[0]) && owner[f.ic.ib[0]] == Slot(num, IND)
    requires head == 63 ==> d'[a] == ToBytes(fdb) + d[a][256..]
    requires head < 63 ==> d'[a] == d[a]
    requires forall b | IsData(b) && b != a :: d'[b] == d[b]
    ensures ToWords(d'[f.ic.ib[0]]) == PointersLeft(head0, fdb0, f, ToWords(d0[f.ic.ib[0]]))
  {
    hide ToWords, ToBytes;
    if p == NDADDR + 1 && head == 63 {
      WordsAfterStore(fdb, d[a]);
      assert fdb[..FDB_WORDS] == fdb;
    }
  }

  /** The pointer the loop reads next. */
  lemma FreeingReads(d0: seq<Block>, d: seq<Block>, owner: seq<Owner>, num: nat, ic: Icommon, n: nat, head0: nat,
                     fdb0: FreeList, head: nat, fdb: FreeList, k: nat)
    requires |d0| == |d| == |owner| == DISK_BLOCKS && k < n <= MAX_BLOCKS
    requires InodeOwned(d0, ic, n, owner, num)
    requires Freeing(d0, d, owner, num, View(d0, ic, n), head0, fdb0, head, fdb, Position(k))
    ensures SlotAddr(d, ic, k) == LeafRead(head0, fdb0, View(d0, ic, n), k)
    ensures k >= NDADDR ==> IsData(ic.ib[0])
  {
    hide ToWords, BlockOf;
    if k >= NDADDR {
      IndexSlot(d0, ic, n, owner, num);
    }
  }

  // A block about to spill is not a chunk block: those are all free or already released.
  lemma NotFreedYet(stack: seq<word>, owner: seq<Owner>, num: nat, head0: nat, r: seq<word>, p: nat, head: nat)
    requires |owner| == DISK_BLOCKS && StackOwned(stack, owner) && p < |r| <= MAX_BLOCKS + 1 && head0 < FDB_WORDS
    requires forall q | 0 <= q < |r| :: ItemOwner(owner, num, head0, q, r[q])
    requires head == (head0 + p) % FDB_WORDS == 63
    ensures r[p] !in stack + r[..p]
  {
    var a := r[p];
    assert ItemOwner(owner, num, head0, p, a);
    assert owner[a] == Slot(num, SlotOf(p));
    forall k | 0 <= k < |stack + r[..p]|
      ensures (stack + r[..p])[k] != a
    {
      if k >= |stack| {
        assert ItemOwner(owner, num, head0, k - |stack|, r[k - |stack|]);
      }
    }
  }
}

/** Giving an inode its next block: what the account looks like after the pointer is stored
    in a direct slot, or in the indirect block. */
module Attach {
  import opened Bytes
  import opened Formats
  import opened FreeChain
  import opened FileMap

  // The file f with one more block b at address a, its inode record now ic.
  function Extend(f: FileView, ic: Icommon, a: word, b: Block): FileView {
    FileView(ic, f.addrs + [a], f.blocks + [b])
  }

  /** Every block an inode holds: its file blocks, and the indirect block if it has one. */
  function Held(f: FileView): seq<word> {
    f.addrs + if |f.addrs| > NDADDR then [f.ic.ib[0]] else []
  }

  function WithDirect(ic: Icommon, blk: nat, a: word): Icommon
    requires blk < NDADDR
  {
    ic.(db := ic.db[blk := a])
  }

  function WithIndirect(ic: Icommon, t: word): Icommon {
    ic.(ib := ic.ib[0 := t])
  }

  lemma NobodyKept(d: seq<Block>, d': seq<Block>, stack: seq<word>, owner: seq<Owner>, owner': seq<Owner>)
    requires |d| == |d'| == |owner| == |owner'| == DISK_BLOCKS && StackOwned(stack, owner)
    requires forall b | IsData(b) && owner[b].Free? :: owner'[b] == owner[b]
    ensures StackOwned(stack, owner')
  {
  }

  lemma AttachDirect(d: seq<Block>, d': seq<Block>, stack: seq<word>, live: seq<Icommon>, cnt: seq<nat>,
                     owner: seq<Owner>, i: nat, a: word)
    requires Owned(d, stack, live, cnt, owner) && i < INODES && cnt[i] < NDADDR
    requires IsData(a) && owner[a] == Nobody
    requires |d'| == DISK_BLOCKS && forall b | IsData(b) :: d'[b] == d[b]
    ensures var ic := WithDirect(live[i], cnt[i], a);
            && Owned(d', stack, live[i := ic], cnt[i := cnt[i] + 1], owner[a := Slot(i, cnt[i])])
            && Views(d', live[i := ic], cnt[i := cnt[i] + 1])
               == Views(d, live, cnt)[i := Extend(View(d, live[i], cnt[i]), ic, a, d[a])]
  {
    var blk, ic := cnt[i], WithDirect(live[i], cnt[i], a);
    var owner' := owner[a := Slot(i, blk)];
    forall s | HasSlot(blk + 1, s)
      ensures SlotOwned(d', ic, owner', i, s)
    {
      assert s < blk ==> SlotOwned(d, live[i], owner, i, s);
    }
    NobodyKept(d, d', stack, owner, owner');
    OwnedStep(d, d', stack, stack, live, live[i := ic], cnt, cnt[i := blk + 1], owner, owner', i);
    DirectView(d, d', live[i], blk, owner, i, a);
  }

  lemma DirectView(d: seq<Block>, d': seq<Block>, ic: Icommon, blk: nat, owner: seq<Owner>, i: nat, a: word)
    requires |d| == |d'| == |owner| == DISK_BLOCKS && InodeOwned(d, ic, blk, owner, i) && blk < NDADDR && IsData(a)
    requires forall b | IsData(b) :: d'[b] == d[b]
    ensures View(d', WithDirect(ic, blk, a), blk + 1) == Extend(View(d, ic, blk), WithDirect(ic, blk, a), a, d[a])
  {
    var ic' := WithDirect(ic, blk, a);
    forall s | 0 <= s < blk
      ensures SlotAddr(d', ic', s) == SlotAddr(d, ic, s)
      ensures BlockOf(d', SlotAddr(d, ic, s)) == BlockOf(d, SlotAddr(d, ic, s))
    {
      assert HasSlot(blk, s) && SlotOwned(d, ic, owner, i, s);
    }
    assert SlotAddr(d', ic', blk) == a;
  }

  // The indirect block t of an inode with blk blocks is fresh for block 11, else the one it has.
  ghost predicate IndirectReady(ic: Icommon, blk: nat, owner: seq<Owner>, a: word, t: word)
    requires |owner| == DISK_BLOCKS
  {
    && NDADDR <= blk < MAX_BLOCKS
    && IsData(a) && owner[a] == Nobody
    && IsData(t) && t != a
    && if blk == NDADDR then owner[t] == Nobody else t == ic.ib[0]
  }

  ghost predicate Patched(d: seq<Block>, d': seq<Block>, t: word, k: nat, a: word)
    requires |d| == |d'| == DISK_BLOCKS && IsData(t) && k < WORDS_PER_BLOCK
  {
    && (forall b | IsData(b) && b != t :: d'[b] == d[b])
    && ToWords(d'[t]) == ToWords(d[t])[k := a]
  }

  lemma IndirectSlots(d: seq<Block>, d': seq<Block>, ic: Icommon, blk: nat, owner: seq<Owner>, i: nat, a: word, t: word)
    requires |d| == |d'| == |owner| == DISK_BLOCKS && InodeOwned(d, ic, blk, owner, i)
    requires IndirectReady(ic, blk, owner, a, t) && Patched(d, d', t, blk - NDADDR, a)
    ensures InodeOwned(d', WithIndirect(ic, t), blk + 1, owner[a := Slot(i, blk)][t := Slot(i, IND)], i)
    ensures View(d', WithIndirect(ic, t), blk + 1) == Extend(View(d, ic, blk), WithIndirect(ic, t), a, d[a])
  {
    hide ToWords;
    var ic', owner' := WithIndirect(ic, t), owner[a := Slot(i, blk)][t := Slot(i, IND)];
    if blk > NDADDR {
      IndexSlot(d, ic, blk, owner, i);
    }
    forall s: nat | HasSlot(blk + 1, s)
      ensures SlotOwned(d', ic', owner', i, s)
      ensures s < blk ==>
                && SlotAddr(d', ic', s) == SlotAddr(d, ic, s)
                && BlockOf(d', SlotAddr(d, ic, s)) == BlockOf(d, SlotAddr(d, ic, s))
    {
      if s < blk {
        assert HasSlot(blk, s) && SlotOwned(d, ic, owner, i, s);
        assert SlotAddr(d', ic', s) == SlotAddr(d, ic, s);
      } else if s == blk {
        assert SlotAddr(d', ic', s) == a;
      }
    }
    assert HasSlot(blk + 1, blk);
    forall s | 0 <= s < blk
      ensures SlotAddr(d', ic', s) == SlotAddr(d, ic, s)
      ensures BlockOf(d', SlotAddr(d, ic, s)) == BlockOf(d, SlotAddr(d, ic, s))
    {
      assert HasSlot(blk + 1, s);
    }
  }

  lemma AttachIndirect(d: seq<Block>, d': seq<Block>, stack: seq<word>, live: seq<Icommon>, cnt: seq<nat>,
                       owner: seq<Owner>, i: nat, a: word, t: word)
    requires Owned(d, stack, live, cnt, owner) && i < INODES && |d'| == DISK_BLOCKS
    requires IndirectReady(live[i], cnt[i], owner, a, t) && Patched(d, d', t, cnt[i] - NDADDR, a)
    ensures var ic := WithIndirect(live[i], t);
            && Owned(d', stack, live[i := ic], cnt[i := cnt[i] + 1], owner[a := Slot(i, cnt[i])][t := Slot(i, IND)])
            && Views(d', live[i := ic], cnt[i := cnt[i] + 1])
               == Views(d, live, cnt)[i := Extend(View(d, live[i], cnt[i]), ic, a, d[a])]
  {
    hide View, InodeOwned;
    var blk, ic := cnt[i], WithIndirect(live[i], t);
    var owner' := owner[a := Slot(i, blk)][t := Slot(i, IND)];
    assert InodeOwned(d, live[i], blk, owner, i);
    if blk > NDADDR {
      IndexSlot(d, live[i], blk, owner, i);
    }
    IndirectSlots(d, d', live[i], blk, owner, i, a, t);
    NobodyKept(d, d', stack, owner, owner');
    OwnedStep(d, d', stack, stack, live, live[i := ic], cnt, cnt[i := blk + 1], owner, owner', i);
  }

  // ic' holds the same addresses as ic in the slots of a file of n blocks.
  ghost predicate SameSlots(ic: Icommon, ic': Icommon, n: nat) {
    && (forall s: nat | s < n && s < NDADDR :: ic'.db[s] == ic.db[s])
    && (n > NDADDR ==> ic'.ib[0] == ic.ib[0])
  }

  /** Changing only size, mode or unused slots of an inode keeps every block where it is. */
  lemma Relabel(d: seq<Block>, d': seq<Block>, stack: seq<word>, live: seq<Icommon>, cnt: seq<nat>, owner: seq<Owner>,
                i: nat, ic: Icommon)
    requires Owned(d, stack, live, cnt, owner) && i < INODES && SameSlots(live[i], ic, cnt[i])
    requires |d'| == DISK_BLOCKS && forall b | IsData(b) :: d'[b] == d[b]
    ensures var f := View(d, live[i], cnt[i]);
            && Owned(d', stack, live[i := ic], cnt, owner)
            && Views(d', live[i := ic], cnt) == Views(d, live, cnt)[i := FileView(ic, f.addrs, f.blocks)]
  {
    hide ToWords;
    var n := cnt[i];
    assert InodeOwned(d, live[i], n, owner, i);
    if n > NDADDR {
      IndexSlot(d, live[i], n, owner, i);
    }
    forall s: nat | HasSlot(n, s)
      ensures SlotOwned(d', ic, owner, i, s) && SlotAddr(d', ic, s) == SlotAddr(d, live[i], s)
    {
      assert SlotOwned(d, live[i], owner, i, s);
    }
    forall s: nat | s < n
      ensures BlockOf(d', SlotAddr(d', ic, s)) == BlockOf(d, SlotAddr(d, live[i], s))
    {
      assert HasSlot(n, s) && SlotOwned(d, live[i], owner, i, s);
    }
    RelabelView(d, d', live[i], ic, n);
    OwnedStep(d, d', stack, stack, live, live[i := ic], cnt, cnt, owner, owner, i);
  }

  lemma RelabelView(d: seq<Block>, d': seq<Block>, ic: Icommon, ic': Icommon, n: nat)
    requires forall s: nat | s < n ::
               && SlotAddr(d', ic', s) == SlotAddr(d, ic, s)
               && BlockOf(d', SlotAddr(d', ic', s)) == BlockOf(d, SlotAddr(d, ic, s))
    ensures View(d', ic', n) == FileView(ic', View(d, ic, n).addrs, View(d, ic, n).blocks)
  {
    hide SlotAddr, BlockOf;
  }

  /** Giving up the blocks of an inode beyond the first n: they are leaked, nothing else changes. */
  lemma Shrink(d: seq<Block>, stack: seq<word>, live: seq<Icommon>, cnt: seq<nat>, owner: seq<Owner>, i: nat, n: nat)
    requires Owned(d, stack, live, cnt, owner) && i < INODES && n <= cnt[i]
    ensures Owned(d, stack, live, cnt[i := n], owner)
    ensures var f := View(d, live[i], cnt[i]);
            Views(d, live, cnt[i := n]) == Views(d, live, cnt)[i := FileView(f.ic, f.addrs[..n], f.blocks[..n])]
  {
    hide SlotAddr, BlockOf;
    assert InodeOwned(d, live[i], cnt[i], owner, i);
    forall s: nat | HasSlot(n, s)
      ensures SlotOwned(d, live[i], owner, i, s)
    {
      assert HasSlot(cnt[i], s);
    }
    OwnedStep(d, d, stack, stack, live, live, cnt, cnt[i := n], owner, owner, i);
    var f := View(d, live[i], cnt[i]);
    assert View(d, live[i], n) == FileView(f.ic, f.addrs[..n], f.blocks[..n]);
  }

  // Blocks taken from the free list when a file grows from block number b to block number n.
  function NeedBlocks(b: nat, n: nat): nat {
    (if b < n then n - b else 0) + if b < NDADDR <= n then 1 else 0
  }

  // Position, counted from the top of the free stack, of the block that becomes file block k.
  function TakeOrder(b: nat, k: nat): nat
    requires b < k
  {
    k - b - 1 + if b < NDADDR < k then 1 else 0
  }

  // Free blocks and the blocks of one file, together.
  ghost function Pool(stack: seq<word>, f: FileView): multiset<word> {
    multiset(stack) + multiset(Held(f))
  }

  lemma PoolSame(stack: seq<word>, f: FileView, f': FileView)
    requires f'.addrs == f.addrs && f'.ic.ib == f.ic.ib
    ensures Pool(stack, f') == Pool(stack, f)
  {
  }

  /** One more block for a file moves blocks from the free list to the file and loses none. */
  lemma PoolStep(was: seq<word>, now: seq<word>, f: FileView, f': FileView)
    requires |f'.addrs| == |f.addrs| + 1 && f'.addrs[..|f.addrs|] == f.addrs
    requires var k := if |f.addrs| == NDADDR then 2 else 1;
             && |was| >= k && now == was[..|was| - k]
             && f'.addrs[|f.addrs|] == was[|was| - 1]
             && (|f.addrs| == NDADDR ==> f'.ic.ib[0] == was[|was| - 2])
             && (|f.addrs| > NDADDR ==> f'.ic.ib[0] == f.ic.ib[0])
    ensures Pool(now, f') == Pool(was, f)
  {
    var a := f'.addrs[|f.addrs|];
    assert f'.addrs == f.addrs + [a];
    if |f.addrs| == NDADDR {
      PoolStepTwo(was, now, f, f', a, f'.ic.ib[0]);
    } else {
      PoolStepOne(was, now, f, f', a);
    }
  }

  lemma PoolStepOne(was: seq<word>, now: seq<word>, f: FileView, f': FileView, a: word)
    requires f'.addrs == f.addrs + [a] && |was| >= 1 && now == was[..|was| - 1] && a == was[|was| - 1]
    requires |f.addrs| != NDADDR && (|f.addrs| > NDADDR ==> f'.ic.ib[0] == f.ic.ib[0])
    ensures Pool(now, f') == Pool(was, f)
  {
    assert was == now + [a];
    var x := if |f.addrs| > NDADDR then [f.ic.ib[0]] else [];
    assert Held(f) == f.addrs + x && Held(f') == (f.addrs + [a]) + x;
    assert multiset(Held(f')) == multiset(f.addrs) + multiset{a} + multiset(x);
    assert multiset(was) == multiset(now) + multiset{a};
  }

  lemma BagOfTwo(s: seq<word>, a: word, b: word)
    ensures multiset((s + [a]) + [b]) == multiset(s) + multiset{a} + multiset{b}
    ensures multiset(s + [a, b]) == multiset(s) + multiset{a} + multiset{b}
  {
    assert s + [a, b] == (s + [a]) + [b];
  }

  lemma TwoMoved(m: multiset<word>, k: multiset<word>, a: word, t: word)
    ensures (m + multiset{t} + multiset{a}) + k == m + (k + multiset{a} + multiset{t})
  {
  }

  lemma PoolOf(stack: seq<word>, f: FileView)
    ensures Pool(stack, f) == multiset(stack) + multiset(Held(f))
  {
  }

  lemma PoolStepTwo(was: seq<word>, now: seq<word>, f: FileView, f': FileView, a: word, t: word)
    requires f'.addrs == f.addrs + [a] && |was| >= 2 && now == was[..|was| - 2] && a == was[|was| - 1]
    requires t == was[|was| - 2]
    requires |f.addrs| == NDADDR && f'.ic.ib[0] == t
    ensures Pool(now, f') == Pool(was, f)
  {
    assert was == now + [t, a];
    hide Pool;
    assert Held(f) == f.addrs && Held(f') == (f.addrs + [a]) + [t];
    BagOfTwo(f.addrs, a, t);
    BagOfTwo(now, t, a);
    PoolOf(was, f);
    PoolOf(now, f');
    TwoMoved(multiset(now), multiset(f.addrs), a, t);
  }

  /** The file f with blocks up to number b became g with blocks up to number n: old blocks stay
      in place, new block k is the TakeOrder(k)-th from the top of the free stack `was`, and
      `now` is what is left of that stack. */
  ghost predicate Grown(was: seq<word>, now: seq<word>, f: FileView, g: FileView, b: nat, n: nat) {
    && |was| >= NeedBlocks(b, n) && now == was[..|was| - NeedBlocks(b, n)]
    && |g.addrs| == |g.blocks| == n + 1
    && f.addrs <= g.addrs && f.blocks <= g.blocks
    && (forall k | b < k <= n :: g.addrs[k] == was[|was| - 1 - TakeOrder(b, k)])
    && Pool(now, g) == Pool(was, f)
  }

  lemma GrownStep(was: seq<word>, now: seq<word>, now': seq<word>, f: FileView, g: FileView, g': FileView, b: nat,
                  n: nat, x: Block)
    requires b <= n && Grown(was, now, f, g, b, n)
    requires now != [] && g' == Extend(g, g'.ic, now[|now| - 1], x)
    requires var k := if n + 1 == NDADDR then 2 else 1;
             && |now| >= k && now' == now[..|now| - k]
             && (n + 1 == NDADDR ==> g'.ic.ib[0] == now[|now| - 2])
             && (n + 1 > NDADDR ==> g'.ic.ib[0] == g.ic.ib[0])
    ensures Grown(was, now', f, g', b, n + 1)
  {
    hide Pool;
    PoolStep(now, now', g, g');
  }

  lemma GrownFacts(was: seq<word>, now: seq<word>, f: FileView, g: FileView, b: nat, n: nat)
    requires b <= n && Grown(was, now, f, g, b, n)
    ensures |now| == |was| - NeedBlocks(b, n) && now <= was
    ensures |g.addrs| == |g.blocks| == n + 1
    ensures |f.addrs| == |f.blocks| == b + 1 ==> g.addrs[..b + 1] == f.addrs && g.blocks[..b + 1] == f.blocks
  {
    hide Pool, TakeOrder;
  }

  lemma GrownRelabel(was: seq<word>, now: seq<word>, f: FileView, g: FileView, g': FileView, b: nat, n: nat)
    requires Grown(was, now, f, g, b, n) && g'.addrs == g.addrs && g'.blocks == g.blocks && g'.ic.ib == g.ic.ib
    ensures Grown(was, now, f, g', b, n)
  {
    hide Pool, TakeOrder;
    PoolSame(now, g, g');
  }
}

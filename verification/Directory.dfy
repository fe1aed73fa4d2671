/** Directories as lists of entries, and the way the kernel scans them. */
module Directory {
  import opened Bytes
  import opened Formats
  import opened FreeChain
  import opened FileMap
  import opened Inodes
  import opened FileSys
  import opened FileIO
  import opened Attach

  function EntryAt(f: FileView, k: nat): Entry {
    if k / 16 < |f.blocks| then DecodeDir(f.blocks[k / 16])[k % 16] else Entry(0, seq(NAME_BYTES, _ => 0))
  }

  /** The directory's entries: entry k is slot k % 16 of block k / 16. */
  function Entries(f: FileView): (es: seq<Entry>)
    ensures |es| == f.ic.size / 32
  {
    seq(f.ic.size / 32, k requires 0 <= k < f.ic.size / 32 => EntryAt(f, k))
  }

  // Entry k is the 32 bytes from 32 (k % 16) on in file block k / 16.
  lemma EntryPlace(f: FileView, k: nat)
    requires k < f.ic.size / 32 && k / 16 < |f.blocks|
    ensures var b, q := f.blocks[k / 16], k % 16;
            Entries(f)[k].ino == WordAt(b, 8 * q) && Entries(f)[k].name == b[32 * q + 4..32 * q + 32]
  {
    var b, q := f.blocks[k / 16], k % 16;
    var part := b[32 * q..32 * q + 32];
    assert Entries(f)[k] == EntryOf(part);
    assert forall j | 0 <= j < 32 :: part[j] == b[32 * q + j];
    assert part[4..] == b[32 * q + 4..32 * q + 32];
  }

  /** The entries a scan looks at: a last block that is exactly full is left out. */
  function Scanned(es: seq<Entry>): seq<Entry> {
    if |es| > 0 && |es| % 16 == 0 then es[..|es| - 16] else es
  }

  predicate NoMatch(es: seq<Entry>, name: Name) {
    forall k | 0 <= k < |es| :: es[k].name != name
  }

  /** The inode number of the first entry of that name, -1 if there is none. */
  function FirstMatch(es: seq<Entry>, name: Name): int {
    if es == [] then -1 else if es[0].name == name then es[0].ino else FirstMatch(es[1..], name)
  }

  function NameToInoSpec(f: FileView, name: Name): int {
    FirstMatch(Scanned(Entries(f)), name)
  }

  lemma {:induction false} FirstMatchAt(es: seq<Entry>, k: nat, name: Name)
    requires k < |es| && es[k].name == name && NoMatch(es[..k], name)
    ensures FirstMatch(es, name) == es[k].ino
    decreases k
  {
    if k > 0 {
      assert es[..k][0] == es[0];
      assert es[1..][..k - 1] == es[..k][1..];
      FirstMatchAt(es[1..], k - 1, name);
    }
  }

  lemma {:induction false} FirstMatchNone(es: seq<Entry>, name: Name)
    ensures NoMatch(es, name) ==> FirstMatch(es, name) == -1
    ensures !NoMatch(es, name) ==> FirstMatch(es, name) >= 0
    decreases |es|
  {
    if es != [] {
      FirstMatchNone(es[1..], name);
      if es[0].name != name && NoMatch(es[1..], name) {
        assert forall k | 0 < k < |es| :: es[k] == es[1..][k - 1];
      }
    }
  }

  lemma {:induction false} FirstMatchPrefix(es: seq<Entry>, more: seq<Entry>, name: Name)
    ensures FirstMatch(es + more, name) == if NoMatch(es, name) then FirstMatch(more, name) else FirstMatch(es, name)
    decreases |es|
  {
    if es == [] {
      assert es + more == more;
    } else {
      assert (es + more)[1..] == es[1..] + more;
      FirstMatchPrefix(es[1..], more, name);
      if es[0].name != name && NoMatch(es[1..], name) {
        assert forall k | 0 < k < |es| :: es[k] == es[1..][k - 1];
      }
    }
  }

  ghost predicate DistinctNames(es: seq<Entry>) {
    forall j, k | 0 <= j < k < |es| :: es[j].name != es[k].name
  }

  /** In a directory without repeated names the scan finds every entry exactly when the last
      block is not exactly full. */
  lemma ScanComplete(es: seq<Entry>)
    requires DistinctNames(es)
    ensures (forall name: Name :: FirstMatch(Scanned(es), name) == FirstMatch(es, name)) <==>
            |es| == 0 || |es| % 16 != 0
  {
    hide FirstMatch;
    if |es| > 0 && |es| % 16 == 0 {
      var k := |es| - 1;
      var name := es[k].name;
      FirstMatchAt(es, k, name);
      FirstMatchNone(Scanned(es), name);
      assert FirstMatch(Scanned(es), name) == -1 != FirstMatch(es, name);
    } else {
      assert Scanned(es) == es;
    }
  }

  /** Appending an entry under a name the scan does not find: it is found, and every other name resolves as
      before, exactly when the last block is exactly full neither before nor after. */
  lemma AppendVisible(es: seq<Entry>, e: Entry)
    requires NoMatch(Scanned(es), e.name) && DistinctNames(es)
    ensures (forall name: Name :: FirstMatch(Scanned(es + [e]), name)
                               == if name == e.name then e.ino as int else FirstMatch(Scanned(es), name))
            <==> |es| == 0 || (|es| % 16 != 0 && (|es| + 1) % 16 != 0)
  {
    var es' := es + [e];
    if (|es| + 1) % 16 == 0 {
      assert NoMatch(Scanned(es'), e.name);
      FirstMatchNone(Scanned(es'), e.name);
    } else if |es| > 0 && |es| % 16 == 0 {
      ScanReappears(es, e);
    } else {
      forall name: Name
        ensures FirstMatch(Scanned(es'), name) == if name == e.name then e.ino as int else FirstMatch(Scanned(es), name)
      {
        AppendFound(es, e, name);
        FirstMatchNone(es, name);
      }
    }
  }

  // A scan that is complete after the append finds the first match, the new entry coming last.
  lemma AppendFound(es: seq<Entry>, e: Entry, name: Name)
    requires (|es| + 1) % 16 != 0
    ensures FirstMatch(Scanned(es + [e]), name)
         == if !NoMatch(es, name) then FirstMatch(es, name) else if name == e.name then e.ino as int else -1
  {
    FirstMatchPrefix(es, [e], name);
    assert FirstMatch([e][1..], name) == -1;
  }

  // An append behind a full block makes the entries of that block visible again.
  lemma ScanReappears(es: seq<Entry>, e: Entry)
    requires |es| > 0 && |es| % 16 == 0 && DistinctNames(es)
    ensures exists name: Name :: name != e.name && FirstMatch(Scanned(es + [e]), name) != FirstMatch(Scanned(es), name)
  {
    hide FirstMatch, NoMatch, Scanned;
    var k := if es[|es| - 1].name != e.name then |es| - 1 else |es| - 2;
    var name := es[k].name;
    assert name != e.name;
    HiddenName(es, k);
    AppendFound(es, e, name);
    FirstMatchNone(es, name);
    FirstMatchNone(Scanned(es), name);
  }

  lemma HiddenName(es: seq<Entry>, k: nat)
    requires |es| % 16 == 0 && |es| - 16 <= k < |es| && DistinctNames(es)
    ensures NoMatch(Scanned(es), es[k].name) && !NoMatch(es, es[k].name)
  {
    assert Scanned(es) == es[..|es| - 16];
  }

  // ----- scanning -----

  // Where the scan of a directory stops, in blocks and entries.
  lemma ScanShape(es: seq<Entry>)
    ensures |Scanned(es)| <= |es| && Scanned(es) == es[..|Scanned(es)|]
    ensures |es| == 0 ==> |Scanned(es)| == 0
    ensures |es| > 0 ==> |Scanned(es)| == 16 * ((|es| - 1) / 16) + |es| % 16
  {
  }

  lemma BlockEntries(f: FileView, i: nat)
    requires i < |f.blocks|
    ensures forall j | 0 <= j < 16 :: EntryAt(f, 16 * i + j) == DecodeDir(f.blocks[i])[j]
  {
    hide DecodeDir;
    forall j | 0 <= j < 16
      ensures EntryAt(f, 16 * i + j) == DecodeDir(f.blocks[i])[j]
    {
      assert (16 * i + j) / 16 == i && (16 * i + j) % 16 == j;
    }
  }

  /** name_to_ino: the first entry of that name among those it looks at, or -1. */
  method NameToIno(fs: FileSystem, name: Name, inode: Inode) returns (ino: int)
    requires fs.Valid() && inode.number < INODES && inode.ic == fs.live[inode.number]
    ensures ino == NameToInoSpec(fs.Files()[inode.number], name)
  {
    hide Owned, View, Views, EncodeSuper, InodeAt, FreeStack, Recorded, DecodeDir, EntryAt, FirstMatch, Settled,
         Entries, Scanned, NoMatch;
    ghost var es := Entries(fs.Files()[inode.number]);
    ScanRoom(fs, inode.number);
    ScanShape(es);
    NoMatchBelow(es, name);
    var dirs := inode.ic.size / 32;
    if dirs > 0 {
      var blks := (dirs - 1) / 16 + 1;
      var r := dirs % 16;
      var j;
      for i := 0 to blks - 1
        invariant NoMatch(es[..16 * i], name)
      {
        j, ino := ScanBlock(fs, name, inode, i, 16);
        if j < 16 {
          ScanHit(es, 16 * i + j, name);
          return;
        }
      }
      j, ino := ScanBlock(fs, name, inode, blks - 1, r);
      if j < r {
        ScanHit(es, 16 * (blks - 1) + j, name);
        return;
      }
    }
    FirstMatchNone(Scanned(es), name);
    return -1;
  }

  lemma NoMatchBelow(es: seq<Entry>, name: Name)
    ensures NoMatch(es[..0], name)
  {
  }

  // The scan of the first n entries of directory block i: stops at the first hit j.
  method ScanBlock(fs: FileSystem, name: Name, inode: Inode, i: nat, n: nat) returns (j: nat, ino: int)
    requires fs.Valid() && inode.number < INODES && inode.ic == fs.live[inode.number]
    requires n <= 16 && 16 * i + n <= inode.ic.size / 32 && i < fs.cnt[inode.number]
    requires NoMatch(Entries(fs.Files()[inode.number])[..16 * i], name)
    ensures j <= n && NoMatch(Entries(fs.Files()[inode.number])[..16 * i + j], name)
    ensures j < n ==> var e := Entries(fs.Files()[inode.number])[16 * i + j]; e.name == name && ino == e.ino
  {
    hide Owned, View, Views, EncodeSuper, InodeAt, FreeStack, Recorded, DecodeDir, EntryAt, FirstMatch, Settled,
         NoMatch, Entries;
    ghost var f := fs.Files()[inode.number];
    ghost var es := Entries(f);
    ScanRoom(fs, inode.number);
    var buf := new byte[BLOCK_SIZE];
    assert BLOCK_SIZE * i / 512 == i;
    var addr := GetDataBlock(fs, buf, inode, BLOCK_SIZE * i);
    var dir := DecodeDir(buf[..]);
    BlockEntries(f, i);
    j := 0;
    while j < n
      invariant j <= n && NoMatch(es[..16 * i + j], name)
    {
      EntriesAt(f, 16 * i + j);
      assert es[16 * i + j] == dir[j];
      if dir[j].name == name {
        return j, dir[j].ino;
      }
      NoMatchStep(es, 16 * i + j, name);
      j := j + 1;
    }
    ino := -1;
  }

  lemma NoMatchStep(es: seq<Entry>, k: nat, name: Name)
    requires k < |es| && NoMatch(es[..k], name) && es[k].name != name
    ensures NoMatch(es[..k + 1], name)
  {
    assert forall m | 0 <= m < k :: es[..k + 1][m] == es[..k][m];
  }

  lemma ScanHit(es: seq<Entry>, k: nat, name: Name)
    requires k < |Scanned(es)| && es[k].name == name && NoMatch(es[..k], name)
    ensures FirstMatch(Scanned(es), name) == es[k].ino
  {
    assert Scanned(es)[..k] == es[..k];
    FirstMatchAt(Scanned(es), k, name);
  }

  // Every entry of inode i lies in one of its blocks.
  lemma ScanRoom(fs: FileSystem, i: nat)
    requires fs.Valid() && i < INODES
    ensures var f := fs.Files()[i];
            f.ic == fs.live[i] && |f.blocks| == |f.addrs| == fs.cnt[i] && f.ic.size <= 512 * fs.cnt[i]
  {
    assert Settled(fs.live[i], fs.cnt[i]);
    assert fs.Files()[i] == View(fs.store.disk, fs.live[i], fs.cnt[i]);
  }

  // ----- changing a directory -----

  // Free blocks addInodeToDirectory takes: one when the last block is full, two when that new
  // block is the first behind the indirect block.
  function GrowNeed(ic: Icommon): nat {
    if ic.size / 32 % 16 == 0 && ic.size > 0 then if ic.size / 512 == NDADDR then 2 else 1 else 0
  }

  // A directory record as every operation leaves it.
  predicate IsDir(ic: Icommon) {
    ic.mode == IFDIR && ic.size % 32 == 0 && ic.size > 0
  }

  /** Storing e in slot size / 32 of the last block and growing the size appends e. */
  lemma AppendEntry(f: FileView, f': FileView, e: Entry)
    requires IsDir(f.ic) && f.ic.size / 512 < |f.blocks|
    requires var k := f.ic.size / 512;
             f'.blocks == f.blocks[k := EncodeDir(DecodeDir(f.blocks[k])[f.ic.size / 32 % 16 := e])]
    requires f'.ic.size == f.ic.size + 32
    ensures Entries(f') == Entries(f) + [e]
  {
    hide DecodeDir, EncodeDir;
    var n, k := f.ic.size / 32, f.ic.size / 512;
    var t: DirBlock := DecodeDir(f.blocks[k])[n % 16 := e];
    DirRoundTrip(t);
    assert n / 16 == k;
    forall j | 0 <= j < n + 1
      ensures EntryAt(f', j) == if j == n then e else EntryAt(f, j)
    {
      if j / 16 == k && j != n {
        assert j % 16 != n % 16;
      }
    }
  }

  lemma SameEntries(f: FileView, f': FileView)
    requires f'.ic.size == f.ic.size && f.blocks <= f'.blocks && f.ic.size <= 512 * |f.blocks|
    ensures Entries(f') == Entries(f)
  {
    hide DecodeDir;
    forall j | 0 <= j < f.ic.size / 32
      ensures EntryAt(f', j) == EntryAt(f, j)
    {
      assert j / 16 < |f.blocks| && f'.blocks[j / 16] == f.blocks[j / 16];
    }
  }

  // Copies a directory block back into the byte buffer it was read into.
  method FillBuffer(buf: array<byte>, b: Block)
    requires buf.Length == BLOCK_SIZE
    modifies buf
    ensures buf[..] == b
  {
    forall p | 0 <= p < BLOCK_SIZE {
      buf[p] := b[p];
    }
  }

  // addInodeToDirectory, first half: a full last block gets a successor.
  method MakeRoom(fs: FileSystem, par: Inode)
    requires fs.Valid() && par.number < INODES && par.ic == fs.live[par.number] && IsDir(par.ic)
    requires par.ic.size / 512 < MAX_BLOCKS && |fs.Stack()| >= GrowNeed(par.ic)
    modifies fs`live, fs`cnt, fs`owner, fs.store, fs.store.fdb, par`ic
    ensures fs.Sound() && fs.live == old(fs.live)[par.number := par.ic]
    ensures par.ic.mode == IFDIR && par.ic.size == old(par.ic.size)
    ensures fs.cnt == old(fs.cnt)[par.number := par.ic.size / 512 + 1]
    ensures fs.Stack() == old(fs.Stack())[..|old(fs.Stack())| - GrowNeed(old(par.ic))]
    ensures var f, f' := old(fs.Files()[par.number]), fs.Files()[par.number];
            && fs.OnlyFile(par.number, f')
            && f'.ic == par.ic && Entries(f') == Entries(f) && f.addrs <= f'.addrs
            && Pool(fs.Stack(), f') == Pool(old(fs.Stack()), f)
  {
    hide Owned, View, Views, EncodeSuper, InodeAt, FreeStack, Recorded, Entries, Pool;
    var num := par.number;
    ghost var f, was := fs.Files()[num], fs.Stack();
    ScanRoom(fs, num);
    assert Settled(fs.live[num], fs.cnt[num]);
    var r := par.ic.size / 32 % 16;
    if r == 0 && par.ic.size > 0 {
      ghost var d := fs.store.disk;
      var a := fs.AllocateDataBlockAddr(par, par.ic.size);
      assert fs.Files()[num] == Extend(f, par.ic, a, d[a]);
      PoolStep(was, fs.Stack(), f, fs.Files()[num]);
    } else {
      assert was[..|was|] == was;
      assert fs.cnt[num] == par.ic.size / 512 + 1;
    }
    SameEntries(f, fs.Files()[num]);
  }

  // addInodeToDirectory, second half: the entry goes into its slot and the size grows.
  method StoreEntry(fs: FileSystem, par: Inode, e: Entry)
    requires fs.Sound() && par.number < INODES && par.ic == fs.live[par.number] && IsDir(par.ic)
    requires fs.cnt[par.number] == par.ic.size / 512 + 1
    modifies fs`live, fs.store`disk, fs.store`log, par`ic
    ensures fs.Sound() && fs.live == old(fs.live)[par.number := par.ic] && fs.Stack() == old(fs.Stack())
    ensures par.ic == old(par.ic).(size := old(par.ic.size) + 32)
    ensures var f, f' := old(fs.Files()[par.number]), fs.Files()[par.number];
            && fs.OnlyFile(par.number, f')
            && Entries(f') == Entries(f) + [e] && f'.addrs == f.addrs && f'.ic == par.ic
  {
    hide Owned, View, Views, EncodeSuper, InodeAt, FreeStack, Recorded, DecodeDir, EncodeDir, Entries;
    var num := par.number;
    ghost var f := fs.Files()[num];
    LeafAt(fs, num, par.ic.size / 512);
    FileRecord(fs, num);
    var r := par.ic.size / 32 % 16;
    var buf := new byte[BLOCK_SIZE];
    var addr := GetDataBlock(fs, buf, par, par.ic.size);
    var dir := DecodeDir(buf[..]);
    dir := dir[r := e];
    FillBuffer(buf, EncodeDir(dir));
    PutDataBlock(fs, addr, buf, num, par.ic.size / 512);
    par.ic := par.ic.(size := par.ic.size + 32);
    fs.StoreInode(par);
    AppendEntry(f, fs.Files()[num], e);
  }

  lemma FileRecord(fs: FileSystem, i: nat)
    requires fs.Sound() && i < INODES
    ensures fs.Files()[i].ic == fs.live[i]
  {
    assert fs.Files()[i] == View(fs.store.disk, fs.live[i], fs.cnt[i]);
  }

  /** addInodeToDirectory: the directory's entries become the old ones and the new one, taking
      GrowNeed blocks from the free list; no other file changes. */
  method AddInodeToDirectory(fs: FileSystem, par: Inode, ino: word, name: Name)
    requires fs.Valid() && par.number < INODES && par.ic == fs.live[par.number] && IsDir(par.ic)
    requires par.ic.size / 512 < MAX_BLOCKS && |fs.Stack()| >= GrowNeed(par.ic)
    modifies fs`live, fs`cnt, fs`owner, fs.store, fs.store.fdb, par`ic
    ensures fs.Valid() && fs.live == old(fs.live)[par.number := par.ic]
    ensures par.ic.mode == IFDIR && par.ic.size == old(par.ic.size) + 32
    ensures fs.Stack() == old(fs.Stack())[..|old(fs.Stack())| - GrowNeed(old(par.ic))]
    ensures var f, f' := old(fs.Files()[par.number]), fs.Files()[par.number];
            && fs.OnlyFile(par.number, f') && f'.ic == par.ic
            && Entries(f') == Entries(f) + [Entry(ino, name)]
            && f.addrs <= f'.addrs
            && Pool(fs.Stack(), f') == Pool(old(fs.Stack()), f)
  {
    hide Owned, View, Views, EncodeSuper, InodeAt, FreeStack, Recorded, Entries, Pool;
    MakeRoom(fs, par);
    ghost var g := fs.Files()[par.number];
    StoreEntry(fs, par, Entry(ino, name));
    PoolSame(fs.Stack(), g, fs.Files()[par.number]);
  }

  // ----- removing an entry -----

  /** The entry list after entry k is overwritten by the last one and the last one dropped. */
  function WithoutEntry(es: seq<Entry>, k: nat): seq<Entry>
    requires k < |es|
  {
    es[k := es[|es| - 1]][..|es| - 1]
  }

  lemma RemoveShape(f: FileView, f': FileView, i: nat, j: nat)
    requires IsDir(f.ic) && 16 * i + j < f.ic.size / 32 && j < 16 && f.ic.size <= 512 * |f.blocks|
    requires f'.ic.size == f.ic.size - 32
    requires var last := EntryAt(f, f.ic.size / 32 - 1);
             var bs := f.blocks[i := EncodeDir(DecodeDir(f.blocks[i])[j := last])];
             f'.blocks <= bs && f'.ic.size <= 512 * |f'.blocks|
    ensures Entries(f') == WithoutEntry(Entries(f), 16 * i + j)
  {
    hide DecodeDir, EncodeDir;
    var n, k := f.ic.size / 32, 16 * i + j;
    var last := EntryAt(f, n - 1);
    var t: DirBlock := DecodeDir(f.blocks[i])[j := last];
    DirRoundTrip(t);
    forall m | 0 <= m < n - 1
      ensures EntryAt(f', m) == if m == k then last else EntryAt(f, m)
    {
      assert f'.blocks[m / 16] == if m / 16 == i then EncodeDir(t) else f.blocks[m / 16];
      if m / 16 == i && m != k {
        assert m % 16 != j;
      }
    }
  }

  // Blocks a directory keeps after losing an entry.
  function KeptBlocks(ic: Icommon): nat
    requires ic.size >= 32
  {
    (ic.size - 32 + 511) / 512
  }

  lemma KeptAll(ic: Icommon)
    requires IsDir(ic)
    ensures KeptBlocks(ic) <= NBlocks(ic)
    ensures KeptBlocks(ic) == NBlocks(ic) <==> (ic.size / 32 - 1) % 16 != 0
  {
  }

  /** A file that keeps only a prefix of its blocks holds as many as before exactly when it keeps all. */
  lemma HeldPrefix(f: FileView, g: FileView, n: nat)
    requires n <= |f.addrs| && g.addrs == f.addrs[..n] && g.ic.ib == f.ic.ib
    ensures |Held(g)| <= |Held(f)|
    ensures |Held(g)| == |Held(f)| <==> n == |f.addrs|
    ensures multiset(Held(g)) == multiset(Held(f)) <==> n == |f.addrs|
  {
    if n == |f.addrs| {
      assert f.addrs[..n] == f.addrs;
    } else {
      assert |multiset(Held(g))| == |Held(g)| && |multiset(Held(f))| == |Held(f)|;
    }
  }

  // First half of a removal: the last entry overwrites entry j of block i.
  method SwapLast(fs: FileSystem, parent: Inode, i: nat, j: nat) returns (child: Entry)
    requires fs.Valid() && parent.number < INODES && parent.ic == fs.live[parent.number] && IsDir(parent.ic)
    requires j < 16 && 16 * i + j < parent.ic.size / 32
    modifies fs.store`disk, fs.store`log
    ensures fs.Valid() && fs.Stack() == old(fs.Stack())
    ensures var f, g := old(fs.Files()[parent.number]), fs.Files()[parent.number];
            && i < |f.blocks| && 16 * i + j < |Entries(f)| && child == Entries(f)[16 * i + j]
            && g == FileView(f.ic, f.addrs,
                 f.blocks[i := EncodeDir(DecodeDir(f.blocks[i])[j := EntryAt(f, f.ic.size / 32 - 1)])])
            && fs.OnlyFile(parent.number, g)
  {
    hide Owned, View, Views, EncodeSuper, InodeAt, FreeStack, Recorded, DecodeDir, EncodeDir, Entries, EntryAt;
    var num := parent.number;
    ghost var f := fs.Files()[num];
    ScanRoom(fs, num);
    var buf := new byte[BLOCK_SIZE];
    var addr := GetDataBlock(fs, buf, parent, BLOCK_SIZE * i);
    var dir := DecodeDir(buf[..]);
    child := dir[j];
    BlockEntries(f, i);
    assert child == EntryAt(f, 16 * i + j);
    EntriesAt(f, 16 * i + j);
    var last := GetLastDir(fs, parent);
    dir := dir[j := last];
    FillBuffer(buf, EncodeDir(dir));
    PutDataBlock(fs, addr, buf, num, i);
  }

  // Second half: the directory shrinks by one entry, and gives up a block it no longer reaches.
  method ShrinkDir(fs: FileSystem, parent: Inode)
    requires fs.Valid() && parent.number < INODES && parent.ic == fs.live[parent.number] && IsDir(parent.ic)
    requires parent.ic.size > 32
    modifies fs`live, fs`cnt, fs.store`disk, fs.store`log, parent`ic
    ensures fs.Valid() && fs.Stack() == old(fs.Stack()) && fs.live == old(fs.live)[parent.number := parent.ic]
    ensures parent.ic == old(parent.ic).(size := old(parent.ic.size) - 32)
    ensures var g, n := old(fs.Files()[parent.number]), KeptBlocks(old(parent.ic));
            && n <= NBlocks(old(parent.ic)) == |g.addrs| == |g.blocks|
            && fs.OnlyFile(parent.number, FileView(parent.ic, g.addrs[..n], g.blocks[..n]))
  {
    hide Owned, View, Views, EncodeSuper, InodeAt, FreeStack, Recorded;
    var num := parent.number;
    ScanRoom(fs, num);
    KeptAll(parent.ic);
    assert Settled(fs.live[num], fs.cnt[num]);
    parent.ic := parent.ic.(size := parent.ic.size - 32);
    fs.StoreInode(parent);
    fs.GiveUp(num, KeptBlocks(old(parent.ic)));
  }

  /** The removal itself: child is entry j of block i; the last entry takes its place and the
      directory shrinks. It keeps all its blocks, and none is lost, if and only if the remaining
      entries do not just fill whole blocks. */
  method RemoveEntry(fs: FileSystem, parent: Inode, i: nat, j: nat) returns (child: Entry)
    requires fs.Valid() && parent.number < INODES && parent.ic == fs.live[parent.number] && IsDir(parent.ic)
    requires j < 16 && 16 * i + j < parent.ic.size / 32 && parent.ic.size > 32
    modifies fs`live, fs`cnt, fs.store`disk, fs.store`log, parent`ic
    ensures fs.Valid() && fs.Stack() == old(fs.Stack()) && fs.live == old(fs.live)[parent.number := parent.ic]
    ensures parent.ic == old(parent.ic).(size := old(parent.ic.size) - 32)
    ensures var f, f' := old(fs.Files()[parent.number]), fs.Files()[parent.number];
            && fs.OnlyFile(parent.number, f') && f'.ic == parent.ic
            && KeptBlocks(f.ic) <= |f.addrs| && f'.addrs == f.addrs[..KeptBlocks(f.ic)]
            && 16 * i + j < |Entries(f)| && child == Entries(f)[16 * i + j]
            && Entries(f') == WithoutEntry(Entries(f), 16 * i + j)
            && (f'.addrs == f.addrs <==> (|Entries(f)| - 1) % 16 != 0)
            && (Pool(fs.Stack(), f') == Pool(old(fs.Stack()), f) <==> (|Entries(f)| - 1) % 16 != 0)
  {
    hide Owned, View, Views, EncodeSuper, InodeAt, FreeStack, Recorded, DecodeDir, EncodeDir, EntryAt, WithoutEntry,
         Held;
    var num := parent.number;
    ghost var f := fs.Files()[num];
    ScanRoom(fs, num);
    KeptAll(parent.ic);
    child := SwapLast(fs, parent, i, j);
    ghost var g := fs.Files()[num];
    ShrinkDir(fs, parent);
    ghost var f' := fs.Files()[num];
    RemoveShape(f, f', i, j);
    HeldPrefix(f, f', KeptBlocks(f.ic));
    PoolIff(fs.Stack(), f, f');
  }

  lemma PoolIff(stack: seq<word>, f: FileView, g: FileView)
    ensures Pool(stack, g) == Pool(stack, f) <==> multiset(Held(g)) == multiset(Held(f))
  {
    hide Held;
    var s, x, y := multiset(stack), multiset(Held(f)), multiset(Held(g));
    assert (s + x) - s == x && (s + y) - s == y;
  }

  lemma EntriesAt(f: FileView, k: nat)
    requires k < f.ic.size / 32
    ensures Entries(f)[k] == EntryAt(f, k)
  {
  }

  /** getLastDir: the last entry of a non-empty directory. */
  method GetLastDir(fs: FileSystem, inode: Inode) returns (d: Entry)
    requires fs.Valid() && inode.number < INODES && inode.ic == fs.live[inode.number] && IsDir(inode.ic)
    ensures var f := fs.Files()[inode.number]; d == EntryAt(f, f.ic.size / 32 - 1)
  {
    hide Owned, View, Views, EncodeSuper, InodeAt, FreeStack, Recorded, DecodeDir, Entries, EntryAt;
    ScanRoom(fs, inode.number);
    assert Settled(fs.live[inode.number], fs.cnt[inode.number]);
    var r := (inode.ic.size / 32 - 1) % 16;
    var buf := new byte[BLOCK_SIZE];
    var addr := GetDataBlock(fs, buf, inode, inode.ic.size - 32);
    var dir := DecodeDir(buf[..]);
    BlockEntries(fs.Files()[inode.number], (inode.ic.size - 32) / 512);
    return dir[r];
  }
}

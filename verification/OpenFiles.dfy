/** Descriptors, open-file entries and in-core inodes over the filesystem: the POSIX-like calls. */
module OpenFiles {
  import opened Bytes
  import opened Formats
  import opened FreeChain
  import opened FileMap
  import opened BlockTree
  import opened Inodes
  import opened FileSys
  import opened FileIO
  import opened Attach
  import opened Release
  import opened Directory
  import opened Paths
  import opened Limits
  import opened OpenTable

  const ROOT_DIR: int := 0

  datatype OFlag = O_CREAT | O_EXIST

  /** The in-core copies: every used entry mirrors a regular file's record in force. */
  ghost predicate Mirrored(ai: seq<Active>, ics: seq<Icommon>, live: seq<Icommon>, incore: set<nat>)
    requires |live| == INODES
  {
    && |ai| == |ics|
    && (forall a | 0 <= a < |ai| && ai[a].used ::
          ai[a].number < INODES && ics[a] == live[ai[a].number] && ics[a].mode == IFREG)
    && incore == set a | 0 <= a < |ai| && ai[a].used :: ai[a].number
  }

  // The first character of a name, after its two length bytes.
  function FirstChar(name: Name): byte {
    name[2]
  }

  const DOT: byte := 46

  /** A directory as the kernel keeps it: whole entries, the first of them ".", naming real inodes. */
  predicate DirOk(f: FileView) {
    f.ic.mode == IFDIR ==>
      && IsDir(f.ic)
      && (forall k | 0 <= k < |Entries(f)| :: Entries(f)[k].ino < INODES)
      && FirstChar(Entries(f)[0].name) == DOT
  }

  ghost predicate DirsOk(files: seq<FileView>) {
    forall i | 0 <= i < |files| :: DirOk(files[i])
  }

  lemma CreatedDirsOk(files: seq<FileView>, files': seq<FileView>, p: int, n: word, name: Name, a: word)
    requires DirsOk(files) && Created(files, files', p, n, name, a) && n < INODES && files[p].ic.mode == IFDIR
    ensures DirsOk(files')
  {
    hide Entries;
    forall i | 0 <= i < |files'|
      ensures DirOk(files'[i])
    {
      if i == p {
        assert DirOk(files[p]);
      } else if i != n {
        assert files'[i] == files[i] && DirOk(files[i]);
      }
    }
  }

  /** One more in-core copy, or one more link to an existing one. */
  lemma MirrorOpen(ai: seq<Active>, ics: seq<Icommon>, live: seq<Icommon>, incore: set<nat>, a: nat, n: word)
    requires |live| == INODES && Mirrored(ai, ics, live, incore) && a < |ai| && n < INODES && live[n].mode == IFREG
    requires ai[a].used ==> ai[a].number == n
    ensures Mirrored(ai[a := Active(n, ai[a].links + 1, true)], ics[a := live[n]], live, incore + {n})
  {
    var ai' := ai[a := Active(n, ai[a].links + 1, true)];
    var numbers := set b | 0 <= b < |ai'| && ai'[b].used :: ai'[b].number;
    forall m
      ensures m in incore + {n} <==> m in numbers
    {
      if m in incore {
        var b :| 0 <= b < |ai| && ai[b].used && ai[b].number == m;
        assert ai'[b].used && ai'[b].number == m;
      }
      assert ai'[a].used && ai'[a].number == n;
      if m in numbers {
        var b :| 0 <= b < |ai'| && ai'[b].used && ai'[b].number == m;
        assert b != a ==> ai[b].used && ai[b].number == m;
      }
    }
  }

  /** One link less; with the last link the copy goes. */
  lemma MirrorClose(ai: seq<Active>, ics: seq<Icommon>, live: seq<Icommon>, incore: set<nat>, a: nat, ic: Icommon)
    requires |live| == INODES && Mirrored(ai, ics, live, incore) && NumbersDistinct(ai) && a < |ai| && ai[a].used
    requires ai[a].links > 0
    requires ai[a].links > 1 ==> ic == ics[a]
    ensures Mirrored(ai[a := Active(ai[a].number, ai[a].links - 1, ai[a].links > 1)], ics[a := ic], live,
                     if ai[a].links > 1 then incore else incore - {ai[a].number as nat})
  {
    var ai' := ai[a := Active(ai[a].number, ai[a].links - 1, ai[a].links > 1)];
    var numbers: set<nat> := set b | 0 <= b < |ai'| && ai'[b].used :: ai'[b].number;
    var incore' := if ai[a].links > 1 then incore else incore - {ai[a].number as nat};
    forall m
      ensures m in incore' <==> m in numbers
    {
      if m in incore {
        var b :| 0 <= b < |ai| && ai[b].used && ai[b].number == m;
        assert m in incore' ==> ai'[b].used && ai'[b].number == m;
      }
      if m in numbers {
        var b :| 0 <= b < |ai'| && ai'[b].used && ai'[b].number == m;
        assert ai[b].used && ai[b].number == m;
      }
    }
  }

  /** One file changed; the copies follow if that file's does. */
  lemma MirrorChange(ai: seq<Active>, ics: seq<Icommon>, live: seq<Icommon>, incore: set<nat>, a: nat, ic: Icommon)
    requires |live| == INODES && Mirrored(ai, ics, live, incore) && NumbersDistinct(ai) && a < |ai| && ai[a].used
    requires ic.mode == IFREG
    requires ai[a].number < INODES
    ensures Mirrored(ai, ics[a := ic], live[ai[a].number := ic], incore)
  {
  }

  /** Regular files untouched, copies still right. */
  lemma MirrorAside(ai: seq<Active>, ics: seq<Icommon>, live: seq<Icommon>, live': seq<Icommon>, incore: set<nat>)
    requires |live| == |live'| == INODES && Mirrored(ai, ics, live, incore)
    requires forall i | 0 <= i < INODES && live[i].mode == IFREG :: live'[i] == live[i]
    ensures Mirrored(ai, ics, live', incore)
  {
  }

  // A directory has no in-core copy.
  lemma MirrorDirectory(ai: seq<Active>, ics: seq<Icommon>, live: seq<Icommon>, ic: Icommon, i: nat, incore: set<nat>)
    requires |live| == INODES && i < INODES && live[i].mode == IFDIR && Mirrored(ai, ics, live, incore)
    ensures Mirrored(ai, ics, live[i := ic], incore)
  {
    hide Mirrored;
    MirrorAside(ai, ics, live, live[i := ic], incore);
  }

  lemma CreatedLive(files: seq<FileView>, files': seq<FileView>, p: int, n: word, name: Name, a: word,
      live: seq<Icommon>, live': seq<Icommon>)
    requires Created(files, files', p, n, name, a) && |files| == |live| == |live'| == INODES
    requires files[p].ic.mode == IFDIR
    requires forall i | 0 <= i < INODES :: files[i].ic == live[i] && files'[i].ic == live'[i]
    ensures forall i | 0 <= i < INODES && live[i].mode == IFREG :: live'[i] == live[i]
    ensures live'[n].mode == IFREG
  {
    hide Entries;
  }

  lemma DirsOkFile(files: seq<FileView>, i: nat, g: FileView)
    requires DirsOk(files) && i < |files| && g.ic.mode != IFDIR
    ensures DirsOk(files[i := g])
  {
    hide DirOk;
    var files' := files[i := g];
    forall j | 0 <= j < |files'|
      ensures DirOk(files'[j])
    {
      assert DirOk(files[j]);
      NotADir(g);
    }
  }

  /** files' is files with entry k taken out of directory i, which keeps its remaining blocks. */
  ghost predicate EntryRemoved(files: seq<FileView>, files': seq<FileView>, i: nat, k: nat) {
    && i < |files| == |files'| && k < |Entries(files[i])| && files[i].ic.size >= 32
    && files' == files[i := files'[i]]
    && files'[i].ic == files[i].ic.(size := files[i].ic.size - 32)
    && KeptBlocks(files[i].ic) <= |files[i].addrs| && files'[i].addrs == files[i].addrs[..KeptBlocks(files[i].ic)]
    && Entries(files'[i]) == WithoutEntry(Entries(files[i]), k)
  }

  /** files' is files without file n and its entry k in directory i. */
  ghost predicate FileGone(files: seq<FileView>, files': seq<FileView>, i: nat, k: nat, n: nat) {
    && i < |files| == |files'| && n < |files| && n != i && k < |Entries(files[i])|
    && Entries(files'[i]) == WithoutEntry(Entries(files[i]), k)
    && files[i].ic.size >= 32 && files'[i].ic == files[i].ic.(size := files[i].ic.size - 32)
    && KeptBlocks(files[i].ic) <= |files[i].addrs| && files'[i].addrs == files[i].addrs[..KeptBlocks(files[i].ic)]
    && files'[n].ic.mode == IFZERO && files'[n].ic.size == 0 && files'[n].addrs == []
    && forall j | 0 <= j < |files| && j != i && j != n :: files'[j] == files[j]
  }

  lemma GoneAfter(files: seq<FileView>, mid: seq<FileView>, files': seq<FileView>, i: nat, k: nat, n: nat)
    requires EntryRemoved(files, mid, i, k) && n < |files| == |files'| && n != i
    requires files' == mid[n := FileView(files'[n].ic, [], [])] && files'[n].ic.mode == IFZERO && files'[n].ic.size == 0
    ensures FileGone(files, files', i, k, n)
  {
    hide Entries, WithoutEntry;
  }

  /** The free blocks and the blocks of directory i and file n, together, are the same as before. */
  ghost predicate AllKept(was: seq<word>, files: seq<FileView>, now: seq<word>, files': seq<FileView>, i: nat, n: nat) {
    && i < |files| == |files'| && n < |files|
    && multiset(now) + multiset(Held(files'[i])) + multiset(Held(files'[n]))
       == multiset(was) + multiset(Held(files[i])) + multiset(Held(files[n]))
  }

  // Freeing a file of this record wastes no block.
  predicate FreesAll(ic: Icommon) {
    ic.mode == IFDIR || ic.mode == IFZERO || ic.size % 512 != 0
  }

  /** An unlink that leaves all consistent loses no block exactly when the file's size leaves no empty
      last block and the remaining entries leave no empty directory block. */
  lemma Conservation(was: seq<word>, files: seq<FileView>, now: seq<word>, files': seq<FileView>, i: nat, k: nat,
                     n: nat, head: nat, fdb: FreeList)
    requires FileGone(files, files', i, k, n) && IsDir(files[i].ic) && Settled(files[i].ic, |files[i].addrs|)
    requires Settled(files[n].ic, |files[n].addrs|) && !Clobbers(head, LeafCount(files[n].ic))
    requires now == was + Freed(head, fdb, files[n], LeafCount(files[n].ic))
    ensures AllKept(was, files, now, files', i, n) <==> FreesAll(files[n].ic) && (|Entries(files[i])| - 1) % 16 != 0
  {
    hide Entries, WithoutEntry, Held, Freed;
    var f, g, m := files[n], files[i], LeafCount(files[n].ic);
    var r := Freed(head, fdb, f, m);
    LeakCondition(f.ic);
    FreedEverything(head, fdb, f, m);
    FreedCount(head, fdb, f, m);
    HeldPrefix(g, files'[i], KeptBlocks(g.ic));
    KeptAll(g.ic);
    assert |Entries(g)| == g.ic.size / 32;
    NothingHeld(files'[n]);
    BothKept(was, r, Held(f), Held(files'[i]), Held(g));
    assert multiset(now) == multiset(was) + multiset(r);
  }

  /** The outcome of unlink: file n, entry k of directory c, is gone and its blocks are on the free list
      as freeDataBlocks puts them there. */
  ghost predicate Deleted(files: seq<FileView>, files': seq<FileView>, was: seq<word>, now: seq<word>, c: nat, k: nat,
                          n: nat, head: nat, fdb: FreeList, valid: bool) {
    && c < |files| == |files'| && n < |files| && k < |Entries(files[c])|
    && var m := LeafCount(files[n].ic);
    && m <= |files[n].addrs| && now == was + Freed(head, fdb, files[n], m)
    && if Clobbers(head, m) then !NoDup(now)
       else
         && valid && FileGone(files, files', c, k, n)
         && (AllKept(was, files, now, files', c, n) <==> FreesAll(files[n].ic) && (|Entries(files[c])| - 1) % 16 != 0)
  }

  /** That outcome, spelled out. */
  lemma DeletedMeans(files: seq<FileView>, files': seq<FileView>, was: seq<word>, now: seq<word>, c: nat, k: nat,
                     n: nat, head: nat, fdb: FreeList, valid: bool)
    requires Deleted(files, files', was, now, c, k, n, head, fdb, valid)
    ensures c < |files| == |files'| && n < |files| && k < |Entries(files[c])|
    ensures var m := (files[n].ic.size + 511) / 512; |now| == |was| + m + if m > 11 then 1 else 0
    ensures if head == 51 && files[n].ic.size > 12 * 512 then !NoDup(now)
            else
              && valid && files'[n].ic.mode == IFZERO && files'[n].addrs == []
              && (forall j | 0 <= j < |files| && j != c && j != n :: files'[j] == files[j])
              && |Entries(files'[c])| == |Entries(files[c])| - 1
              && forall j | 0 <= j < |Entries(files'[c])| ::
                Entries(files'[c])[j] == Entries(files[c])[if j == k then |Entries(files[c])| - 1 else j]
  {
    hide Entries, Freed, NoDup, AllKept;
  }

  lemma DeletedNow(files: seq<FileView>, mid: seq<FileView>, files': seq<FileView>, was: seq<word>, now: seq<word>,
                   c: nat, k: nat, n: nat, head: nat, fdb: FreeList, valid: bool)
    requires EntryRemoved(files, mid, c, k) && n < |files| == |files'| && n != c && mid[n] == files[n]
    requires IsDir(files[c].ic) && Settled(files[c].ic, |files[c].addrs|) && Settled(files[n].ic, |files[n].addrs|)
    requires now == was + Freed(head, fdb, files[n], LeafCount(files[n].ic))
    requires Clobbers(head, LeafCount(files[n].ic)) ==> !NoDup(now)
    requires !Clobbers(head, LeafCount(files[n].ic)) ==>
               && valid && files' == mid[n := FileView(files'[n].ic, [], [])] && files'[n].ic.mode == IFZERO
               && files'[n].ic.size == 0
    ensures Deleted(files, files', was, now, c, k, n, head, fdb, valid)
  {
    hide Entries, WithoutEntry, Freed, NoDup, AllKept, FileGone, EntryRemoved;
    assert k < |Entries(files[c])| && c < |files| by { RemovedShape(files, mid, c, k); }
    if !Clobbers(head, LeafCount(files[n].ic)) {
      GoneAfter(files, mid, files', c, k, n);
      Conservation(was, files, now, files', c, k, n, head, fdb);
    }
  }

  lemma RemovedShape(files: seq<FileView>, mid: seq<FileView>, c: nat, k: nat)
    requires EntryRemoved(files, mid, c, k)
    ensures c < |files| == |mid| && k < |Entries(files[c])|
  {
    hide Entries, WithoutEntry;
  }

  lemma NothingHeld(f: FileView)
    requires f.addrs == []
    ensures multiset(Held(f)) == multiset{}
  {
  }

  lemma FreedCount(head: nat, fdb: FreeList, f: FileView, m: nat)
    requires m <= |f.addrs|
    ensures |Freed(head, fdb, f, m)| <= |Held(f)|
    ensures |Freed(head, fdb, f, m)| == |Held(f)| <==> m == |f.addrs|
  {
  }

  // Two parts that can only shrink make up the whole exactly when neither shrank.
  lemma BothKept(s: seq<word>, r: seq<word>, f: seq<word>, h: seq<word>, g: seq<word>)
    requires |r| <= |f| && (|r| == |f| ==> multiset(r) == multiset(f))
    requires |h| <= |g| && (|h| == |g| ==> multiset(h) == multiset(g))
    ensures multiset(s) + multiset(r) + multiset(h) == multiset(s) + multiset(g) + multiset(f)
            <==> |r| == |f| && |h| == |g|
  {
    var x, y := multiset(s) + multiset(r) + multiset(h), multiset(s) + multiset(g) + multiset(f);
    assert |x| == |s| + |r| + |h| && |y| == |s| + |g| + |f|;
  }

  lemma MirrorOther(ai: seq<Active>, ics: seq<Icommon>, live: seq<Icommon>, n: nat, ic: Icommon, incore: set<nat>)
    requires |live| == INODES && Mirrored(ai, ics, live, incore) && n < INODES && n !in incore
    ensures Mirrored(ai, ics, live[n := ic], incore)
  {
  }

  lemma ShrunkDirsOk(files: seq<FileView>, i: nat, g: FileView, k: nat)
    requires DirsOk(files) && i < |files| && files[i].ic.mode == g.ic.mode == IFDIR
    requires 0 < k < |Entries(files[i])| && g.ic.size == files[i].ic.size - 32
    requires Entries(g) == WithoutEntry(Entries(files[i]), k)
    ensures DirsOk(files[i := g])
  {
    hide Entries;
    assert DirOk(files[i]);
    var files' := files[i := g];
    forall j | 0 <= j < |files'|
      ensures DirOk(files'[j])
    {
      assert DirOk(files[j]);
    }
  }

  lemma NotADir(g: FileView)
    requires g.ic.mode != IFDIR
    ensures DirOk(g)
  {
  }

  /** Entry a gained one link; it stands for inode n, and did so before if it was in use. */
  ghost predicate OneMoreLink(v: seq<Active>, v': seq<Active>, a: nat, n: int) {
    && 0 <= n < WORD_LIMIT && |v| == |v'| && a < |v|
    && (v[a].used ==> v[a].number == n)
    && v' == v[a := Active(n, v[a].links + 1, true)]
  }

  class OpenFiles {
    const fs: FileSystem
    const ai: seq<Inode>
    const of: array<OFile>
    // Slot 16 * p + k is descriptor k of process p.
    const fdt: array<int>
    var current: nat
    var cwd: word

    // The descriptor slot that names each used open-file entry.
    ghost var back: seq<nat>

    constructor (f: FileSystem, inodes: seq<Inode>)
      requires |inodes| == AIT_LIMIT && (forall a, b | 0 <= a < b < AIT_LIMIT :: inodes[a] != inodes[b])
      requires forall a | 0 <= a < AIT_LIMIT :: inodes[a].links == 0 && inodes[a].ic.mode == IFZERO
      requires f.Valid() && f.incore == {} && DirsOk(f.Files())
      ensures fs == f && ai == inodes && fresh(of) && fresh(fdt) && Valid()
      ensures current == 0 && cwd == ROOT_DIR && forall s | 0 <= s < OFT_LIMIT :: fdt[s] == NULL
    {
      fs, ai := f, inodes;
      of := new OFile[OFT_LIMIT](_ => OFile(NULL, 0));
      fdt := new int[OFT_LIMIT](_ => NULL);
      current, cwd := 0, ROOT_DIR;
      back := seq(OFT_LIMIT, _ => 0);
      new;
      forall a | 0 <= a < AIT_LIMIT
        ensures Count(of[..], a) == 0
      {
        CountPositive(of[..], a);
      }
    }

    ghost predicate Shape()
      reads this
    {
      && |ai| == AIT_LIMIT && (forall a, b | 0 <= a < b < AIT_LIMIT :: ai[a] != ai[b])
      && of.Length == OFT_LIMIT && fdt.Length == OFT_LIMIT && |back| == OFT_LIMIT && current < PROCESS_LIMIT
    }

    ghost function Actives(): (v: seq<Active>)
      reads ai
      ensures |v| == |ai|
    {
      seq(|ai|, a requires 0 <= a < |ai| reads ai => Active(ai[a].number, ai[a].links, ai[a].ic.mode != IFZERO))
    }

    ghost function Copies(): (v: seq<Icommon>)
      reads ai
      ensures |v| == |ai|
    {
      seq(|ai|, a requires 0 <= a < |ai| reads ai => ai[a].ic)
    }

    ghost predicate Tables()
      requires Shape()
      reads this, ai, of, fdt
    {
      SlotsMatch(of[..], fdt[..], back) && LinksMatch(Actives(), of[..])
    }

    ghost predicate Valid()
      reads this, ai, of, fdt, fs, fs.store, fs.store.fdb
    {
      && Shape() && Tables() && fs.Valid()
      && Mirrored(Actives(), Copies(), fs.live, fs.incore)
      && DirsOk(fs.Files())
    }

    /** The scheduler makes another process the running one. Neither that nor fork and kill touch the
        tables, so any interleaving of the processes' calls keeps them consistent. */
    method Dispatch(p: nat)
      requires Valid() && p < PROCESS_LIMIT
      modifies this`current
      ensures Valid() && current == p
    {
      current := p;
    }

    // The table slot of descriptor fd of the running process.
    function FdSlot(fd: nat): nat
      reads this
    {
      FDT_LIMIT * current + fd
    }

    ghost predicate IsOpen(fd: int)
      requires Shape()
      reads this, fdt
    {
      0 <= fd < FDT_LIMIT && fdt[FdSlot(fd)] != NULL
    }

    // The active inode behind an open descriptor.
    ghost function Behind(fd: int): (a: nat)
      requires Shape() && Tables() && IsOpen(fd)
      reads this, ai, of, fdt
      ensures a < AIT_LIMIT && ai[a].ic.mode != IFZERO && of[fdt[FdSlot(fd)]].inptr == a
    {
      var o := fdt[..][FdSlot(fd)];
      LinkClose(Actives(), of[..], fdt[..], back, FdSlot(fd));
      of[..][o].inptr
    }

    // The number of the file behind an open descriptor, and its read/write position.
    ghost function Ino(fd: int): nat
      requires Shape() && Tables() && IsOpen(fd)
      reads this, ai, of, fdt
    {
      ai[Behind(fd)].number
    }

    ghost function Offset(fd: int): word
      requires Shape() && Tables() && IsOpen(fd)
      reads this, ai, of, fdt
    {
      assert 0 <= fdt[..][FdSlot(fd)] < OFT_LIMIT;
      of[fdt[FdSlot(fd)]].head
    }

    /** A process has 16 descriptors of its own among the 128: descriptor fd of process p is number 16 p + fd. */
    lemma OwnDescriptors(fd: nat)
      requires Shape()
      ensures |ai| == of.Length == fdt.Length == 128 && FdSlot(fd) == 16 * current + fd
      ensures IsOpen(fd) <==> fd < 16 && fdt[16 * current + fd] != NULL
      ensures LowestFree(fd) <==>
              fd < 16 && fdt[16 * current + fd] == NULL
              && forall s | 16 * current <= s < 16 * current + fd :: fdt[s] != NULL
      ensures Full() <==> forall s | 16 * current <= s < 16 * current + 16 :: fdt[s] != NULL
    {
      OwnRange(if fd < 16 then fd else 16);
      OwnRange(16);
    }

    lemma OwnRange(n: nat)
      requires Shape() && n <= 16
      ensures (forall k | 0 <= k < n :: fdt[FdSlot(k)] != NULL)
              <==> forall s | 16 * current <= s < 16 * current + n :: fdt[s] != NULL
    {
      if forall k | 0 <= k < n :: fdt[FdSlot(k)] != NULL {
        forall s | 16 * current <= s < 16 * current + n
          ensures fdt[s] != NULL
        {
          var k := s - 16 * current;
          assert fdt[FdSlot(k)] != NULL;
        }
      }
    }

    lemma DirsAreOnDisk()
      requires Valid()
      ensures DirsOnDisk(fs)
    {
      hide Owned, View, Views, EncodeSuper, InodeAt, FreeStack, SlotsMatch, LinksMatch;
    }

    // The running process has no free descriptor.
    ghost predicate Full()
      requires Shape()
      reads this, fdt
    {
      forall k | 0 <= k < FDT_LIMIT :: fdt[FdSlot(k)] != NULL
    }

    ghost predicate LowestFree(fd: int)
      requires Shape()
      reads this, fdt
    {
      0 <= fd < FDT_LIMIT && fdt[FdSlot(fd)] == NULL && forall k | 0 <= k < fd :: fdt[FdSlot(k)] != NULL
    }

    /** getFD: the lowest free descriptor. */
    method GetFD() returns (fd: int)
      requires Shape()
      ensures if fd == -1 then Full() else !Full() && LowestFree(fd) && 0 <= fd < FDT_LIMIT && fdt[FdSlot(fd)] == NULL
    {
      for k := 0 to FDT_LIMIT
        invariant forall j | 0 <= j < k :: fdt[FdSlot(j)] != NULL
      {
        if fdt[FDT_LIMIT * current + k] == NULL {
          assert fdt[FdSlot(k)] == NULL;
          return k;
        }
      }
      return -1;
    }

    /** getOFT: never fails while the caller has a free descriptor. */
    method GetOFT(ghost s: nat) returns (o: int)
      requires Shape() && SlotsMatch(of[..], fdt[..], back) && s < OFT_LIMIT && fdt[s] == NULL
      ensures 0 <= o < OFT_LIMIT && of[o].inptr == NULL
    {
      hide SlotsMatch, LinksMatch;
      for i := 0 to OFT_LIMIT
        invariant forall j | 0 <= j < i :: of[j].inptr != NULL
      {
        if of[i].inptr == NULL {
          return i;
        }
      }
      FreeEntryExists(of[..], fdt[..], back, s);
      assert false;
    }

    /** getAIT: the in-core copy of an inode, made if there is none; never fails while the caller
        has a free descriptor. */
    method GetAIT(ino: word, ghost s: nat) returns (a: int)
      requires Shape() && Tables() && fs.store.Sized() && ino < INODES && s < OFT_LIMIT && fdt[s] == NULL
      requires InodeAt(fs.store.disk, ino).mode != IFZERO
      modifies ai
      ensures 0 <= a < AIT_LIMIT
      ensures old(Actives()[a].used) ==>
                old(Actives()[a].number) == ino && Actives() == old(Actives()) && Copies() == old(Copies())
      ensures !old(Actives()[a].used) ==>
                && (forall b | 0 <= b < AIT_LIMIT && old(Actives()[b].used) :: old(Actives()[b].number) != ino)
                && Actives() == old(Actives())[a := Active(ino, old(Actives()[a].links), true)]
                && Copies() == old(Copies())[a := InodeAt(fs.store.disk, ino)]
    {
      hide SlotsMatch, LinksMatch, InodeAt, Count;
      ghost var v := Actives();
      for i := 0 to AIT_LIMIT
        invariant forall j | 0 <= j < i && v[j].used :: v[j].number != ino
        invariant Actives() == v && Copies() == old(Copies())
        modifies {}
      {
        if ai[i].number == ino && ai[i].ic.mode != IFZERO {
          return i;
        }
      }
      for i := 0 to AIT_LIMIT
        invariant forall j | 0 <= j < i :: v[j].used
        invariant Actives() == v && Copies() == old(Copies())
        modifies {}
      {
        if ai[i].ic.mode == IFZERO {
          a := i;
          break;
        }
      }
      ghost var o := SomeFreeEntry(s);
      FreeActiveExists(v, of[..], o);
      fs.ReadInode(ai[a], ino);
    }

    ghost function SomeFreeEntry(s: nat): (o: nat)
      requires Shape() && Tables() && s < OFT_LIMIT && fdt[s] == NULL
      reads this, ai, of, fdt
      ensures o < OFT_LIMIT && of[..][o].inptr == NULL
    {
      FreeEntryExists(of[..], fdt[..], back, s);
      var o: nat :| o < OFT_LIMIT && of[..][o].inptr == NULL;
      o
    }

    // Opening path with O_CREAT would create a file.
    ghost predicate WouldCreate(path: seq<Name>, oflag: OFlag)
      requires |fs.live| == |fs.cnt|
      reads fs, fs.store
    {
      oflag == O_CREAT && Creates(fs.Files(), ROOT_DIR, path)
    }

    /** What open needs of the tree: the walk visits directories, a path that resolves leads to a
        regular file, and a path to be created has room. */
    ghost predicate MayOpen(path: seq<Name>, oflag: OFlag)
      requires fs.Sound()
      reads fs, fs.store, fs.store.fdb
    {
      var files := fs.Files();
      && PathOk(files, ROOT_DIR, path)
      && (var ino := Lookup(files, ROOT_DIR, path); ino != -1 ==> 0 <= ino < INODES && files[ino].ic.mode == IFREG)
      && (WouldCreate(path, oflag) ==> RoomToCreate(files, fs.Stack(), ParentOf(files, ROOT_DIR, path)))
    }

    /** The outcome of path resolution by open: files' and now are the files and the free list
        afterwards, ino what it yields. */
    ghost predicate Resolved(files: seq<FileView>, files': seq<FileView>, was: seq<word>, now: seq<word>,
        path: seq<Name>, oflag: OFlag, ino: int)
    {
      if oflag == O_CREAT && Creates(files, ROOT_DIR, path)
         && !(forall i | 0 <= i < |files| :: files[i].ic.mode != IFZERO) then
        var p := ParentOf(files, ROOT_DIR, path);
        && 0 <= ino < INODES && was != [] && Created(files, files', p, ino, Last(path), was[|was| - 1])
        && var taken := 1 + GrowNeed(files[p].ic); |was| >= taken && now == was[..|was| - taken]
      else
        && files' == files && now == was
        && ino == if oflag == O_CREAT && Creates(files, ROOT_DIR, path) then NO_INODE else Lookup(files, ROOT_DIR, path)
    }

    lemma FoundOrNot(path: seq<Name>, oflag: OFlag)
      requires fs.Sound() && MayOpen(path, oflag)
      ensures Lookup(fs.Files(), ROOT_DIR, path) >= -1
    {
      hide Owned, View, Views, EncodeSuper, InodeAt, FreeStack, Recorded;
    }

    // What the path walk of open yields, case by case.
    lemma OpenMeans(files: seq<FileView>, files': seq<FileView>, was: seq<word>, now: seq<word>, path: seq<Name>,
                    oflag: OFlag, ino: int)
      requires Resolved(files, files', was, now, path, oflag, ino)
      ensures oflag == O_EXIST || Lookup(files, ROOT_DIR, path) != -1 ==>
                files' == files && now == was && ino == Lookup(files, ROOT_DIR, path)
      ensures oflag == O_CREAT && Lookup(files, ROOT_DIR, path) == -1 ==>
                && path != []
                && var p := Lookup(files, ROOT_DIR, path[..|path| - 1]);
                && (ino < 0 <==> p == -1 || forall i | 0 <= i < |files| :: files[i].ic.mode != IFZERO)
                && (ino < 0 ==> files' == files && now == was)
                && (ino >= 0 ==>
                      && 0 <= p < |files| == |files'| && ino < |files| && p != ino && ino < WORD_LIMIT
                      && files[ino].ic.mode == IFZERO && (forall i | 0 <= i < ino :: files[i].ic.mode != IFZERO)
                      && files'[ino].ic.mode == IFREG && files'[ino].ic.size == 0 && |files'[ino].addrs| == 1
                      && Entries(files'[p]) == Entries(files[p]) + [Entry(ino, path[|path| - 1])]
                      && forall i | 0 <= i < |files| && i != p && i != ino :: files'[i] == files[i])
    {
      hide Entries, Lookup;
      NoTokens(files, ROOT_DIR);
    }

    /** open: fails exactly when the process has no free descriptor or the path yields no inode;
        otherwise the lowest free descriptor stands for that inode, at offset 0. */
    method Open(path: seq<Name>, oflag: OFlag) returns (fd: int, ghost ino: int)
      requires Valid() && MayOpen(path, oflag)
      modifies this`back, ai, of, fdt, fs`live, fs`cnt, fs`owner, fs`incore, fs.store, fs.store.fdb
      ensures Valid()
      ensures old(Full()) ==> fd == -1 && fs.Files() == old(fs.Files()) && fs.Stack() == old(fs.Stack())
      ensures !old(Full()) ==> (fd == -1 <==> ino < 0) && Resolved(old(fs.Files()), fs.Files(), old(fs.Stack()),
          fs.Stack(), path, oflag, ino)
      ensures fd == -1 ==> fdt[..] == old(fdt[..]) && of[..] == old(of[..]) && Actives() == old(Actives())
      ensures fd != -1 ==> IsOpen(fd) && Ino(fd) == ino && Offset(fd) == 0
                           && old(LowestFree(fd)) && fdt[..] == old(fdt[..])[FdSlot(fd) := fdt[FdSlot(fd)]]
                           && of[..] == old(of[..])[fdt[FdSlot(fd)] := OFile(Behind(fd), 0)]
                           && OneMoreLink(old(Actives()), Actives(), Behind(fd), ino)
      ensures !old(Full()) && (oflag == O_EXIST || Lookup(old(fs.Files()), ROOT_DIR, path) != -1) ==>
                && fs.Files() == old(fs.Files()) && fs.Stack() == old(fs.Stack())
                && (fd == -1 <==> Lookup(old(fs.Files()), ROOT_DIR, path) == -1)
                && (fd != -1 ==> Ino(fd) == Lookup(old(fs.Files()), ROOT_DIR, path))
      ensures !old(Full()) && oflag == O_CREAT && Lookup(old(fs.Files()), ROOT_DIR, path) == -1 ==>
                && path != []
                && var files, p := old(fs.Files()), Lookup(old(fs.Files()), ROOT_DIR, path[..|path| - 1]);
                && (fd == -1 <==> p == -1 || forall i | 0 <= i < |files| :: files[i].ic.mode != IFZERO)
                && (fd == -1 ==> fs.Files() == files && fs.Stack() == old(fs.Stack()))
                && (fd != -1 ==>
                      var files', n := fs.Files(), Ino(fd);
                      && 0 <= p < |files| == |files'| && n < |files| && p != n && n < WORD_LIMIT
                      && files[n].ic.mode == IFZERO && (forall i | 0 <= i < n :: files[i].ic.mode != IFZERO)
                      && files'[n].ic.mode == IFREG == 3 && files'[n].ic.size == 0 && |files'[n].addrs| == 1
                      && Entries(files'[p]) == Entries(files[p]) + [Entry(n, path[|path| - 1])]
                      && forall i | 0 <= i < |files| && i != p && i != n :: files'[i] == files[i])
    {
      hide Owned, View, Views, EncodeSuper, InodeAt, FreeStack, Recorded, SlotsMatch, LinksMatch, DirsOk, Resolved,
           MayOpen, Mirrored, Settled, Full, LowestFree, Lookup, Entries;
      FoundOrNot(path, oflag);
      fd := GetFD();
      ino := -1;
      if fd == -1 {
        return;
      }
      var i := ResolveOrCreate(path, oflag);
      ino := i;
      OpenMeans(old(fs.Files()), fs.Files(), old(fs.Stack()), fs.Stack(), path, oflag, ino);
      if i < 0 {
        fd := -1;
        return;
      }
      Install(fd, i);
    }

    // The rest of open: descriptor fd, an open-file entry and an in-core copy of inode i.
    method Install(fd: nat, i: word)
      requires Valid() && i < INODES && fs.live[i].mode == IFREG && fd < FDT_LIMIT && fdt[FdSlot(fd)] == NULL
      modifies this`back, ai, of, fdt, fs`incore
      ensures Valid() && IsOpen(fd) && Ino(fd) == i && Offset(fd) == 0
      ensures fdt[..] == old(fdt[..])[FdSlot(fd) := fdt[FdSlot(fd)]]
      ensures of[..] == old(of[..])[fdt[FdSlot(fd)] := OFile(Behind(fd), 0)]
      ensures OneMoreLink(old(Actives()), Actives(), Behind(fd), i)
    {
      hide Owned, View, Views, EncodeSuper, InodeAt, FreeStack, Recorded, SlotsMatch, LinksMatch, DirsOk, Mirrored,
           Settled;
      ModesOnDisk(fs);
      ghost var ai0, ics0 := Actives(), Copies();
      var a := GetAIT(i, FdSlot(fd));
      var o := GetOFT(FdSlot(fd));
      InCoreRecord(ai0, ics0, a, i);
      Link(fd, a, o, i, ai0, ics0);
    }

    // What GetAIT put into entry a is the record in force.
    lemma InCoreRecord(ai0: seq<Active>, ics0: seq<Icommon>, a: nat, i: word)
      requires fs.Sound() && i < INODES && Mirrored(ai0, ics0, fs.live, fs.incore) && a < |ai0|
      requires if ai0[a].used then ai0[a].number == i
               else forall b | 0 <= b < |ai0| && ai0[b].used :: ai0[b].number != i
      ensures (if ai0[a].used then ics0[a] else InodeAt(fs.store.disk, i)) == fs.live[i]
    {
      hide Owned, InodeAt, EncodeSuper, FreeStack;
    }

    // The end of open: descriptor fd, entry o and active inode a are linked.
    method Link(fd: nat, a: nat, o: nat, i: word, ghost ai0: seq<Active>, ghost ics0: seq<Icommon>)
      requires Shape() && fs.Valid() && DirsOk(fs.Files()) && i < INODES && fs.live[i].mode == IFREG
      requires SlotsMatch(of[..], fdt[..], back) && LinksMatch(ai0, of[..]) && Mirrored(ai0, ics0, fs.live, fs.incore)
      requires |ai0| == |ics0| == AIT_LIMIT && a < AIT_LIMIT && o < OFT_LIMIT && fd < FDT_LIMIT
          && of[o].inptr == NULL && fdt[FdSlot(fd)] == NULL
      requires if ai0[a].used then ai0[a].number == i
               else forall b | 0 <= b < AIT_LIMIT && ai0[b].used :: ai0[b].number != i
      requires Actives() == ai0[a := Active(i, ai0[a].links, true)] && Copies() == ics0[a := fs.live[i]]
      modifies this`back, ai[a], of, fdt, fs`incore
      ensures Valid() && IsOpen(fd) && Ino(fd) == i && Offset(fd) == 0
      ensures fdt[..] == old(fdt[..])[FdSlot(fd) := fdt[FdSlot(fd)]]
      ensures of[..] == old(of[..])[fdt[FdSlot(fd)] := OFile(Behind(fd), 0)]
      ensures OneMoreLink(ai0, Actives(), Behind(fd), i)
    {
      hide Owned, View, Views, EncodeSuper, InodeAt, FreeStack, Recorded, SlotsMatch, LinksMatch, DirsOk, Mirrored;
      ghost var s, of0, fdt0, back0, incore0 := FdSlot(fd), of[..], fdt[..], back, fs.incore;
      LinkOpen(ai0, of0, fdt0, back0, a, o, s, i);
      MirrorOpen(ai0, ics0, fs.live, incore0, a, i);
      assert of[o].head == 0 by { FreeIsZero(ai0, of0, o); }
      assert Copies()[a] == ai[a].ic == fs.live[i];
      assert Actives()[a] == Active(i, ai0[a].links, true);

      ai[a].links := ai[a].links + 1;
      fdt[FDT_LIMIT * current + fd] := o;
      of[o] := of[o].(inptr := a);
      fs.incore, back := incore0 + {i}, back0[o := s];

      assert of[..] == of0[o := OFile(a, 0)];
      assert fdt[..] == fdt0[s := o];
      forall b | 0 <= b < AIT_LIMIT
        ensures Actives()[b] == ai0[a := Active(i, ai0[a].links + 1, true)][b]
        ensures Copies()[b] == ics0[a := fs.live[i]][b]
      {
        assert old(Actives())[b] == ai0[a := Active(i, ai0[a].links, true)][b];
        assert old(Copies())[b] == ics0[a := fs.live[i]][b];
        assert b != a ==> ai[b] != ai[a];
      }
      assert Actives() == ai0[a := Active(i, ai0[a].links + 1, true)];
      assert Copies() == ics0[a := fs.live[i]];
      StillValid(incore0, i);
      assert Tables() && of[..][o].inptr == a;
    }

    lemma FreeIsZero(ai0: seq<Active>, of0: seq<OFile>, o: nat)
      requires LinksMatch(ai0, of0) && o < OFT_LIMIT && of0[o].inptr == NULL
      ensures of0[o].head == 0
    {
    }

    // The filesystem does not mind which regular files have in-core copies.
    lemma StillValid(incore: set<nat>, i: nat)
      requires i < INODES && fs.incore == incore + {i}
      requires fs.store.Ok() && |fs.live| == |fs.cnt| == INODES && |fs.owner| == DISK_BLOCKS
      requires Owned(fs.store.disk, fs.store.Stack(), fs.live, fs.cnt, fs.owner)
      requires Recorded(fs.store.disk, fs.live, incore)
      requires fs.freed || Untouched(fs.mark, fs.store.disk, fs.store.Stack())
      requires forall j | 0 <= j < INODES :: Settled(fs.live[j], fs.cnt[j])
      ensures fs.Valid()
    {
      hide Owned, InodeAt, EncodeSuper, FreeStack;
    }

    // The path walk of open.
    method ResolveOrCreate(path: seq<Name>, oflag: OFlag) returns (ino: int)
      requires Valid() && MayOpen(path, oflag)
      modifies fs`live, fs`cnt, fs`owner, fs.store, fs.store.fdb
      ensures Valid()
      ensures Resolved(old(fs.Files()), fs.Files(), old(fs.Stack()), fs.Stack(), path, oflag, ino)
      ensures ino >= 0 ==> ino < INODES && fs.live[ino].mode == IFREG
    {
      hide Owned, View, Views, EncodeSuper, InodeAt, FreeStack, SlotsMatch, LinksMatch, PathOk, Lookup, DirsOk,
           Entries, Mirrored, Created, Settled, Recorded;
      DirsAreOnDisk();
      Records(fs);
      ghost var files, live, p := fs.Files(), fs.live, if path == [] then -1 else ParentOf(fs.Files(), ROOT_DIR, path);
      if oflag == O_CREAT {
        ino := PathToIno2(fs, path, ROOT_DIR);
      } else {
        ino := PathToIno(fs, path, ROOT_DIR);
      }
      Records(fs);
      if oflag == O_CREAT && Creates(files, ROOT_DIR, path) && ino != NO_INODE {
        ghost var top := old(fs.Stack())[|old(fs.Stack())| - 1];
        CreatedLive(files, fs.Files(), p, ino, Last(path), top, live, fs.live);
        CreatedDirsOk(files, fs.Files(), p, ino, Last(path), top);
      } else {
        assert fs.Files() == files;
        assert forall i | 0 <= i < INODES :: fs.live[i] == files[i].ic == live[i];
      }
      MirrorAside(Actives(), Copies(), live, fs.live, fs.incore);
    }

    /** close: -1 for a descriptor that is not open; otherwise descriptor and entry become free,
        and with the last link the in-core copy is written back and dropped. No file changes. */
    method Close(fd: int) returns (r: int)
      requires Valid()
      modifies ai, of, fdt, fs`incore, fs.store`disk, fs.store`log
      ensures Valid() && fs.Files() == old(fs.Files()) && fs.Stack() == old(fs.Stack())
      ensures r == if old(IsOpen(fd)) then 0 else -1
      ensures r == -1 ==>
                && fdt[..] == old(fdt[..]) && of[..] == old(of[..]) && Actives() == old(Actives())
                && fs.incore == old(fs.incore)
      ensures r == 0 ==>
                && fdt[..] == old(fdt[..])[FdSlot(fd) := NULL]
                && of[..] == old(of[..])[old(fdt[FdSlot(fd)]) := OFile(NULL, 0)]
      ensures r == 0 ==>
                var e := old(Actives()[Behind(fd)]);
                Actives() == old(Actives())[old(Behind(fd)) := Active(e.number, e.links - 1, e.links > 1)]
      ensures r == 0 ==>
                fs.incore == if old(Actives()[Behind(fd)].links) == 1 then old(fs.incore) - {old(Ino(fd))}
                             else old(fs.incore)
    {
      hide Owned, View, Views, EncodeSuper, InodeAt, FreeStack, Recorded, SlotsMatch, LinksMatch, DirsOk, Mirrored,
           NumbersDistinct;
      if fd < 0 || fd >= FDT_LIMIT {
        return -1;
      }
      if fdt[FDT_LIMIT * current + fd] == NULL {
        return -1;
      }
      ghost var s, of0, fdt0, ai0, ics0, incore0 := FdSlot(fd), of[..], fdt[..], Actives(), Copies(), fs.incore;
      LinkClose(ai0, of0, fdt0, back, s);
      var o := fdt[FDT_LIMIT * current + fd];
      var a := of[o].inptr;
      assert fdt0[s] == o && of0[o].inptr == a == Behind(fd);

      DropLink(a);
      of[o] := OFile(NULL, 0);
      fdt[FDT_LIMIT * current + fd] := NULL;

      MirrorClose(ai0, ics0, fs.live, incore0, a, Copies()[a]);
      assert of[..] == of0[o := OFile(NULL, 0)];
      assert fdt[..] == fdt0[s := NULL];
      return 0;
    }

    // Takes one link off active inode a; the last one writes it back and frees the entry.
    method DropLink(a: nat)
      requires Valid() && a < AIT_LIMIT && ai[a].ic.mode != IFZERO
      modifies ai[a], fs`incore, fs.store`disk, fs.store`log
      ensures Shape() && fs.Valid() && fs.Files() == old(fs.Files()) && fs.Stack() == old(fs.Stack())
      ensures var e := old(Actives())[a];
              && e.used && e.links > 0 && NumbersDistinct(old(Actives()))
              && Actives() == old(Actives())[a := Active(e.number, e.links - 1, e.links > 1)]
              && Copies() == old(Copies())[a := Copies()[a]]
              && (e.links > 1 ==> Copies()[a] == old(Copies())[a])
              && fs.incore == if e.links > 1 then old(fs.incore) else old(fs.incore) - {e.number as nat}
    {
      hide Owned, View, Views, EncodeSuper, InodeAt, FreeStack, Recorded, SlotsMatch, LinksMatch, DirsOk, Mirrored,
           NumbersDistinct;
      CopyFacts(a);
      assert Actives()[a] == Active(ai[a].number, ai[a].links, true) && Copies()[a] == ai[a].ic;
      ai[a].links := ai[a].links - 1;
      if ai[a].links == 0 {
        WriteBack(a);
        ai[a].ic := ai[a].ic.(mode := IFZERO);
      }
      forall b | 0 <= b < AIT_LIMIT && b != a
        ensures Actives()[b] == old(Actives())[b] && Copies()[b] == old(Copies())[b]
      {
        assert ai[b] != ai[a];
      }
    }

    lemma CopyFacts(a: nat)
      requires Valid() && a < AIT_LIMIT && ai[a].ic.mode != IFZERO
      ensures ai[a].number < INODES && ai[a].ic == fs.live[ai[a].number] && ai[a].ic.mode == IFREG
      ensures ai[a].number in fs.incore && NumbersDistinct(Actives()) && ai[a].links > 0
      ensures fs.Files()[ai[a].number].ic == ai[a].ic
      ensures fs.cnt[ai[a].number] == ai[a].ic.size / 512 + 1
    {
      hide Owned, View, Views, EncodeSuper, InodeAt, FreeStack, SlotsMatch;
      var v := Actives();
      assert v[a] == Active(ai[a].number, ai[a].links, true) && Copies()[a] == ai[a].ic;
      Records(fs);
      assert Settled(fs.live[ai[a].number], fs.cnt[ai[a].number]);
    }

    // Stores the record of active inode a and forgets its in-core copy.
    method WriteBack(a: nat)
      requires Shape() && fs.Valid() && a < AIT_LIMIT && ai[a].number < INODES && ai[a].ic == fs.live[ai[a].number]
      modifies fs`incore, fs.store`disk, fs.store`log
      ensures fs.Valid() && fs.Files() == old(fs.Files()) && fs.Stack() == old(fs.Stack())
      ensures fs.incore == old(fs.incore) - {ai[a].number as nat}
    {
      hide Owned, View, Views, EncodeSuper, InodeAt, FreeStack;
      fs.WriteInode(ai[a]);
      AsideWrite(old(fs.store.disk), fs.store.disk, fs.Stack(), fs.live, fs.cnt, fs.owner);
      fs.incore := fs.incore - {ai[a].number as nat};
    }

    // The file behind an open descriptor.
    ghost function FileOf(fd: int): FileView
      requires Valid() && IsOpen(fd)
      reads this, ai, of, fdt, fs, fs.store, fs.store.fdb
    {
      CopyFacts(Behind(fd));
      fs.Files()[Ino(fd)]
    }

    /** The allocation step of fwrite. The file of active inode a is extended if and only if the free
        list has the blocks needed. If not, the source ignores it: size and contents stay, every free
        block is lost, and a direct slot that got no block still holds the address it held before,
        which is where fwrite then goes on to write. */
    method Grow(a: nat, bytes: nat)
      requires Valid() && a < AIT_LIMIT && ai[a].ic.mode != IFZERO
      requires (ai[a].ic.size + bytes) / 512 < MAX_BLOCKS
      modifies ai[a], fs`live, fs`cnt, fs`owner, fs.store, fs.store.fdb
      ensures Valid() && Actives() == old(Actives()) && ai[a].ic.mode != IFZERO
      ensures ai[a].number == old(ai[a].number) < INODES
      ensures var f, g := old(fs.Files()[ai[a].number]), fs.Files()[ai[a].number];
              var b, n := f.ic.size / 512, (f.ic.size + bytes) / 512;
              && fs.OnlyFile(ai[a].number, g) && g.ic == ai[a].ic && f.ic == old(ai[a].ic)
              && if |old(fs.Stack())| >= NeedBlocks(b, n) then
                   g.ic.size == f.ic.size + bytes && Grown(old(fs.Stack()), fs.Stack(), f, g, b, n)
                 else
                   && g.ic.size == f.ic.size && g.addrs == f.addrs && Content(g) == Content(f) && fs.Stack() == []
                   && forall k: nat | b + |old(fs.Stack())| < k < NDADDR ::
                     TreeAddr(fs.store.disk, g.ic, k) == f.ic.db[k]
    {
      hide Owned, View, Views, EncodeSuper, InodeAt, FreeStack, Recorded, SlotsMatch, LinksMatch, Mirrored, Settled,
           NumbersDistinct, Grown, Entries, DirsOk, Content;
      CopyFacts(a);
      Records(fs);
      ghost var live0, ics0, f := fs.live, Copies(), fs.Files()[ai[a].number];
      assert Actives()[a] == Active(ai[a].number, ai[a].links, true) && ics0[a] == ai[a].ic;
      var r := fs.AllocateDataBlocks(ai[a], bytes);
      Records(fs);
      forall b | 0 <= b < AIT_LIMIT && b != a
        ensures Actives()[b] == old(Actives())[b] && Copies()[b] == ics0[b]
      {
        assert ai[b] != ai[a];
      }
      assert fs.live == live0[ai[a].number := ai[a].ic];
      MirrorChange(old(Actives()), ics0, live0, fs.incore, a, ai[a].ic);
      assert Copies() == ics0[a := ai[a].ic];
      DirsOkFile(old(fs.Files()), ai[a].number, fs.Files()[ai[a].number]);
      assert Actives() == old(Actives());
      if r == -1 {
        SameContent(f, fs.Files()[ai[a].number]);
      }
    }

    lemma SameContent(f: FileView, g: FileView)
      requires g.blocks == f.blocks && g.ic.size == f.ic.size
      ensures Content(g) == Content(f)
    {
    }

    /** fwrite: -1 for a descriptor that is not open; otherwise the data overwrites the file from the
        read/write position on, which moves past it, and no other file changes. */
    method Fwrite(fd: int, data: seq<byte>) returns (r: int)
      requires Valid()
      requires IsOpen(fd) ==> var ic, head := FileOf(fd).ic, Offset(fd);
                 (head + |data|) / 512 < MAX_BLOCKS && |fs.Stack()| >= WriteNeed(ic, head, |data|)
      modifies ai, of, fs`live, fs`cnt, fs`owner, fs.store, fs.store.fdb
      ensures Valid() && r == if old(IsOpen(fd)) then 0 else -1
      ensures Actives() == old(Actives())
      ensures r == -1 ==> fs.Files() == old(fs.Files()) && of[..] == old(of[..]) && fs.Stack() == old(fs.Stack())
      ensures r == 0 ==>
                var c, c', head := old(Content(FileOf(fd))), Content(FileOf(fd)), old(Offset(fd));
                && |c'| == (if head + |data| > |c| then head + |data| else |c|)
                && (forall p | 0 <= p < |data| :: c'[head + p] == data[p])
                && forall p | 0 <= p < |c| && !(head <= p < head + |data|) :: c'[p] == c[p]
      ensures r == 0 ==>
                var f, g := old(FileOf(fd)), FileOf(fd);
                && Ino(fd) == old(Ino(fd)) < INODES && fs.OnlyFile(Ino(fd), g) && f.addrs <= g.addrs
                && Overwritten(Content(f), Content(g), old(Offset(fd)), data)
                && of[..] == old(of[..])[fdt[FdSlot(fd)] := OFile(old(Behind(fd)), old(Offset(fd)) + |data|)]
                && fs.Stack() == old(fs.Stack())[..|old(fs.Stack())| - WriteNeed(f.ic, old(Offset(fd)), |data|)]
                && Pool(fs.Stack(), g) == Pool(old(fs.Stack()), f)
    {
      hide Owned, View, Views, EncodeSuper, InodeAt, FreeStack, Recorded, SlotsMatch, LinksMatch, Mirrored, Settled,
           Content, Laid, Pool, DirsOk;
      if fd < 0 || fd >= FDT_LIMIT {
        return -1;
      }
      if fdt[FDT_LIMIT * current + fd] == NULL {
        return -1;
      }
      assert IsOpen(fd) && 0 <= fdt[FdSlot(fd)] < OFT_LIMIT by { EntryInRange(fd); }
      var o := fdt[FDT_LIMIT * current + fd];
      var a := of[o].inptr;
      assert a == Behind(fd);
      CopyFacts(a);
      var head := of[o].head;
      Overlay(a, head, data);
      SeekKeeps(Actives(), of[..], fdt[..], back, o, head + |data|);
      ghost var of0 := of[..];
      of[o] := of[o].(head := head + |data|);
      assert of[..] == of0[o := of0[o].(head := head + |data|)];
      return 0;
    }

    /** fread: -1 when the descriptor is not open or fewer than n bytes are left; otherwise the n
        bytes from the read/write position on, which moves past them. */
    method Fread(fd: int, data: array<byte>, n: nat) returns (r: int)
      requires Valid() && n <= data.Length && (IsOpen(fd) ==> Offset(fd) + n < WORD_LIMIT)
      modifies of, data
      ensures Valid()
      ensures r == if IsOpen(fd) && old(Offset(fd)) + n <= FileOf(fd).ic.size then 0 else -1
      ensures r == -1 ==> of[..] == old(of[..]) && data[..] == old(data[..])
      ensures r == 0 ==>
                && data[..n] == Content(FileOf(fd))[old(Offset(fd))..old(Offset(fd)) + n] && data[n..] == old(data[n..])
                && of[..] == old(of[..])[fdt[FdSlot(fd)] := OFile(old(Behind(fd)), old(Offset(fd)) + n)]
    {
      hide Owned, View, Views, EncodeSuper, InodeAt, FreeStack, Recorded, SlotsMatch, LinksMatch, Mirrored, Settled,
           Content, DirsOk, ByteAt;
      if fd < 0 || fd >= FDT_LIMIT {
        return -1;
      }
      if fdt[FDT_LIMIT * current + fd] == NULL {
        return -1;
      }
      EntryInRange(fd);
      var o := fdt[FDT_LIMIT * current + fd];
      var a := of[o].inptr;
      CopyFacts(a);
      var head := of[o].head;
      if head + n > ai[a].ic.size {
        return -1;
      }
      ghost var f, of0 := fs.Files()[ai[a].number], of[..];
      LoadBytes(fs, ai[a], head, n, data);
      ReadContent(f, head, n, data[..n]);
      SeekKeeps(Actives(), of0, fdt[..], back, o, head + n);
      of[o] := of[o].(head := head + n);
      assert of[..] == of0[o := of0[o].(head := head + n)];
      return 0;
    }

    /** lseek: positions are 32-bit and wrap around; nothing but the position changes. */
    method Lseek(fd: int, offset: word, whence: int) returns (r: int)
      requires Valid()
      modifies of
      ensures Valid()
      ensures !IsOpen(fd) || whence < 0 || whence > 2 ==> r == -1 && of[..] == old(of[..])
      ensures IsOpen(fd) && 0 <= whence <= 2 ==>
                var base := if whence == 0 then 0 else if whence == 1 then old(Offset(fd))
                            else FileOf(fd).ic.size;
                && Offset(fd) == (base + offset) % WORD_LIMIT && r == AsInt(Offset(fd))
                && of[..] == old(of[..])[fdt[FdSlot(fd)] := OFile(old(Behind(fd)), Offset(fd))]
                && r == if Offset(fd) < 0x8000_0000 then Offset(fd) else Offset(fd) - 0x1_0000_0000
    {
      hide Owned, View, Views, EncodeSuper, InodeAt, FreeStack, Recorded, SlotsMatch, LinksMatch, Mirrored, Settled,
           Content, DirsOk;
      if fd < 0 || fd >= FDT_LIMIT {
        return -1;
      }
      if fdt[FDT_LIMIT * current + fd] == NULL {
        return -1;
      }
      EntryInRange(fd);
      var o := fdt[FDT_LIMIT * current + fd];
      var a := of[o].inptr;
      CopyFacts(a);
      ghost var of0 := of[..];
      var head;
      if whence == SEEK_SET {
        head := offset;
      } else if whence == SEEK_CUR {
        head := (of[o].head + offset) % WORD_LIMIT;
      } else if whence == SEEK_END {
        head := (ai[a].ic.size + offset) % WORD_LIMIT;
      } else {
        return -1;
      }
      SeekKeeps(Actives(), of0, fdt[..], back, o, head);
      of[o] := of[o].(head := head);
      assert of[..] == of0[o := of0[o].(head := head)];
      return AsInt(of[o].head);
    }

    /** tell. */
    method Tell(fd: int) returns (r: int)
      requires Valid()
      ensures r == if IsOpen(fd) then AsInt(Offset(fd)) else -1
      ensures IsOpen(fd) ==> r == if Offset(fd) < 0x8000_0000 then Offset(fd) else Offset(fd) - 0x1_0000_0000
    {
      if fd < 0 || fd >= FDT_LIMIT {
        return -1;
      }
      if fdt[FDT_LIMIT * current + fd] == NULL {
        return -1;
      }
      EntryInRange(fd);
      return AsInt(of[fdt[FDT_LIMIT * current + fd]].head);
    }

    lemma EntryInRange(fd: int)
      requires Shape() && Tables() && IsOpen(fd)
      ensures 0 <= fdt[FdSlot(fd)] < OFT_LIMIT && of[fdt[FdSlot(fd)]].inptr == Behind(fd)
    {
      assert fdt[..][FdSlot(fd)] != NULL;
    }

    // Allocation and byte copy of fwrite, for active inode a.
    method Overlay(a: nat, head: word, data: seq<byte>)
      requires Valid() && a < AIT_LIMIT && ai[a].ic.mode != IFZERO
      requires (head + |data|) / 512 < MAX_BLOCKS && |fs.Stack()| >= WriteNeed(ai[a].ic, head, |data|)
      modifies ai[a], fs`live, fs`cnt, fs`owner, fs.store, fs.store.fdb
      ensures Valid() && Actives() == old(Actives()) && ai[a].number == old(ai[a].number) < INODES
      ensures ai[a].ic.mode != IFZERO
      ensures var f, g := old(fs.Files()[ai[a].number]), fs.Files()[ai[a].number];
              && fs.OnlyFile(ai[a].number, g) && f.addrs <= g.addrs && f.ic == old(ai[a].ic)
              && Overwritten(Content(f), Content(g), head, data)
              && fs.Stack() == old(fs.Stack())[..|old(fs.Stack())| - WriteNeed(f.ic, head, |data|)]
              && Pool(fs.Stack(), g) == Pool(old(fs.Stack()), f)
    {
      hide Owned, View, Views, EncodeSuper, InodeAt, FreeStack, Recorded, SlotsMatch, LinksMatch, Mirrored, Settled,
           Content, Laid, Pool, Entries, Overwritten, DirsOk;
      CopyFacts(a);
      ghost var i := ai[a].number;
      ghost var f, was := fs.Files()[i], fs.Stack();
      ScanRoom(fs, i);
      if head + |data| > ai[a].ic.size {
        Grow(a, head + |data| - ai[a].ic.size);
      } else {
        assert was[..|was|] == was;
      }
      CopyFacts(a);
      ScanRoom(fs, i);
      ghost var g := fs.Files()[i];
      StoreBytes(fs, ai[a], head, data);
      ghost var h := fs.Files()[i];
      assert h.ic == g.ic == ai[a].ic && f.ic == old(ai[a].ic);
      DirsOkFile(old(fs.Files()), i, h);
      assert fs.Files() == old(fs.Files())[i := h];
      LaidContent(f, h, head, data, g.blocks);
      PoolSame(fs.Stack(), g, h);
    }

    /** An entry that may be removed: not the working directory, not open, not a directory with
        more than two entries. */
    ghost predicate MayRemove(e: Entry)
      requires |fs.live| == INODES
      reads this, fs
    {
      && e.ino < INODES && e.ino != cwd && e.ino !in fs.incore
      && !(fs.live[e.ino].mode == IFDIR && fs.live[e.ino].size > 64)
    }

    /** removable. */
    method IsRemovable(child: Entry) returns (r: int)
      requires Valid() && child.ino < INODES
      ensures r == if MayRemove(child) then child.ino as int else -1
    {
      hide Owned, View, Views, EncodeSuper, InodeAt, FreeStack, SlotsMatch, LinksMatch, DirsOk;
      if child.ino == cwd {
        return -1;
      }
      for i := 0 to AIT_LIMIT
        invariant forall j | 0 <= j < i :: !(Actives()[j].number == child.ino && Actives()[j].used)
      {
        if ai[i].number == child.ino && ai[i].ic.mode != IFZERO {
          assert Actives()[i].used && Actives()[i].number == child.ino;
          return -1;
        }
      }
      assert child.ino !in fs.incore;
      var inode := new Inode();
      fs.ReadInode(inode, child.ino);
      if inode.ic.mode == IFDIR && inode.ic.size > 64 {
        return -1;
      }
      return child.ino;
    }

    ghost predicate Hit(es: seq<Entry>, k: nat, name: Name)
      requires |fs.live| == INODES && k < |es|
      reads this, fs
    {
      es[k].name == name && MayRemove(es[k])
    }

    ghost predicate NoHit(es: seq<Entry>, n: nat, name: Name)
      requires |fs.live| == INODES
      reads this, fs
    {
      forall k | 0 <= k < n && k < |es| :: !Hit(es, k, name)
    }

    // The search of remove through the first n entries of directory block i.
    method FindInBlock(parent: Inode, name: Name, i: nat, n: nat) returns (j: nat)
      requires Valid() && parent.number < INODES && parent.ic == fs.live[parent.number] && parent.ic.mode == IFDIR
      requires n <= 16 && 16 * i + n <= parent.ic.size / 32 && i < fs.cnt[parent.number]
      requires NoHit(Entries(fs.Files()[parent.number]), 16 * i, name)
      ensures j <= n && NoHit(Entries(fs.Files()[parent.number]), 16 * i + j, name)
      ensures j < n ==>
                var es := Entries(fs.Files()[parent.number]); 16 * i + j < |es| && Hit(es, 16 * i + j, name)
    {
      hide Owned, View, Views, EncodeSuper, InodeAt, FreeStack, Recorded, DecodeDir, EntryAt, Settled, SlotsMatch,
           LinksMatch, Mirrored, NoHit, Hit, Entries, DirOk, DirsOk, MayRemove;
      ghost var f := fs.Files()[parent.number];
      ghost var es := Entries(f);
      ScanRoom(fs, parent.number);
      EntriesNameInodes(parent.number);
      var buf := new byte[BLOCK_SIZE];
      var addr := GetDataBlock(fs, buf, parent, BLOCK_SIZE * i);
      var dir := DecodeDir(buf[..]);
      BlockEntries(f, i);
      j := 0;
      while j < n
        invariant j <= n && NoHit(es, 16 * i + j, name)
      {
        EntriesAt(f, 16 * i + j);
        assert es[16 * i + j] == dir[j];
        if dir[j].name == name {
          var r := IsRemovable(dir[j]);
          if r != -1 {
            IsHit(es, 16 * i + j, name);
            return;
          }
        }
        NoHitStep(es, 16 * i + j, name);
        j := j + 1;
      }
    }

    lemma EntriesNameInodes(i: nat)
      requires Valid() && i < INODES && fs.live[i].mode == IFDIR
      ensures var es := Entries(fs.Files()[i]); forall k | 0 <= k < |es| :: es[k].ino < INODES
    {
      hide Owned, View, Views, EncodeSuper, InodeAt, FreeStack, Entries;
      ScanRoom(fs, i);
      assert DirOk(fs.Files()[i]);
    }

    lemma NoHitStep(es: seq<Entry>, k: nat, name: Name)
      requires |fs.live| == INODES && k < |es| && NoHit(es, k, name) && (es[k].name != name || !MayRemove(es[k]))
      ensures NoHit(es, k + 1, name)
    {
    }

    lemma IsHit(es: seq<Entry>, k: nat, name: Name)
      requires |fs.live| == INODES && k < |es| && es[k].name == name && MayRemove(es[k])
      ensures Hit(es, k, name)
    {
    }

    // The search of remove: block i, slot j of the first hit, or j == 16.
    method FindHit(parent: Inode, name: Name) returns (i: nat, j: nat)
      requires Valid() && parent.number < INODES && parent.ic == fs.live[parent.number] && parent.ic.mode == IFDIR
      ensures j <= 16
      ensures var es := Entries(fs.Files()[parent.number]);
              if j == 16 then NoHit(es, |Scanned(es)|, name)
              else
                && 16 * i + j < |es| && Hit(es, 16 * i + j, name) && 16 * i + j < |Scanned(es)|
                && NoHit(es, 16 * i + j, name)
    {
      hide Owned, View, Views, EncodeSuper, InodeAt, FreeStack, Recorded, Entries, Settled, SlotsMatch, LinksMatch,
           Mirrored, NoHit, Hit, Scanned, DirOk, DirsOk;
      ghost var es := Entries(fs.Files()[parent.number]);
      ScanRoom(fs, parent.number);
      ScanShape(es);
      NoHitBelow(es, name);
      i := 0;
      var dirs := parent.ic.size / 32;
      if dirs > 0 {
        var blks := (dirs - 1) / 16 + 1;
        var r := dirs % 16;
        while i < blks - 1
          invariant 0 <= i <= blks - 1 && NoHit(es, 16 * i, name)
        {
          j := FindInBlock(parent, name, i, 16);
          if j < 16 {
            return;
          }
          i := i + 1;
        }
        j := FindInBlock(parent, name, blks - 1, r);
        if j < r {
          return;
        }
      }
      j := 16;
    }

    lemma NoHitBelow(es: seq<Entry>, name: Name)
      requires |fs.live| == INODES
      ensures NoHit(es, 0, name)
    {
    }

    /** remove: takes the first removable entry of that name, among those a scan looks at, out of
        the directory; -1 and no change if there is none. */
    method Remove(parent: Inode, name: Name) returns (r: int, child: Entry, ghost k: nat)
      requires Valid() && parent !in ai && parent.number < INODES && parent.ic == fs.live[parent.number]
      requires parent.ic.mode == IFDIR
      requires FirstChar(name) != DOT
      modifies fs`live, fs`cnt, fs.store`disk, fs.store`log, parent`ic
      ensures Valid() && fs.Stack() == old(fs.Stack()) && fs.live == old(fs.live)[parent.number := parent.ic]
      ensures parent.ic.mode == IFDIR
      ensures var files := old(fs.Files());
              var es := Entries(files[parent.number]);
              if r == -1 then old(NoHit(es, |Scanned(es)|, name)) && fs.Files() == files
              else
                && k < |es| && k < |Scanned(es)| && old(NoHit(es, k, name)) && old(Hit(es, k, name))
                && child == es[k] && r == child.ino && child.ino < INODES
                && EntryRemoved(files, fs.Files(), parent.number, k)
    {
      hide Owned, View, Views, EncodeSuper, InodeAt, FreeStack, Recorded, Entries, Settled, SlotsMatch, LinksMatch,
           Mirrored, NoHit, DirsOk, WithoutEntry, Scanned;
      ghost var num, files := parent.number, fs.Files();
      child, k := Entry(0, name), 0;
      FileRecord(fs, num);
      var i, j := FindHit(parent, name);
      if j == 16 {
        return -1, child, 0;
      }
      k := 16 * i + j;
      NotFirst(files, num, k, name);
      child := RemoveEntry(fs, parent, i, j);
      assert Actives() == old(Actives()) && Copies() == old(Copies());
      ShrunkDirsOk(files, num, fs.Files()[num], k);
      MirrorDirectory(Actives(), Copies(), old(fs.live), parent.ic, num, fs.incore);
      return child.ino, child, k;
    }

    // Entry k of the working directory, for inode n, is what unlink of this name takes out.
    ghost predicate FirstHit(name: Name, k: nat, n: nat)
      requires |fs.live| == |fs.cnt| == INODES && cwd < INODES
      reads this, fs, fs.store
    {
      var es := Entries(fs.Files()[cwd]);
      k < |es| && k < |Scanned(es)| && NoHit(es, k, name) && Hit(es, k, name) && n == es[k].ino as nat && n < INODES
    }

    ghost predicate NothingToUnlink(name: Name)
      requires |fs.live| == |fs.cnt| == INODES && cwd < INODES
      reads this, fs, fs.store
    {
      var es := Entries(fs.Files()[cwd]);
      NoHit(es, |Scanned(es)|, name)
    }

    /** unlink: removes the first removable entry of that name from the working directory and frees
        the file's blocks and inode. An open file is never freed. Afterwards everything is
        consistent exactly when freeing did not clobber an indirect block; if it did, the free
        list holds a block twice. When all is consistent, no block is lost exactly when the file's
        last block is not empty and the directory's remaining entries do not just fill whole blocks. */
    method Unlink(name: Name) returns (r: int, ghost k: nat, ghost n: nat)
      requires Valid() && cwd < INODES && fs.live[cwd].mode == IFDIR
      modifies fs`live, fs`cnt, fs`owner, fs`freed, fs.store, fs.store.fdb
      ensures r == 0 || r == -1
      ensures r == -1 ==> Valid() && fs.Files() == old(fs.Files()) && fs.Stack() == old(fs.Stack())
      ensures r == -1 ==> FirstChar(name) == DOT || old(NothingToUnlink(name))
      ensures r == 0 ==>
                FirstChar(name) != DOT && old(FirstHit(name, k, n)) && fs.store.Ok() && |fs.live| == |fs.cnt| == INODES
      ensures r == 0 ==> Deleted(old(fs.Files()), fs.Files(), old(fs.Stack()), fs.Stack(), cwd, k, n,
                                 old(fs.store.fdbhead), old(fs.store.fdb[..]), Valid())
      ensures r == 0 ==>
                var files, v := old(fs.Files()), old(Actives());
                && k < |Entries(files[cwd])| && n < |files| && n < WORD_LIMIT
                && Entries(files[cwd])[k] == Entry(n, name) && n != cwd as nat
                && (forall a | 0 <= a < |v| && v[a].used :: v[a].number != n)
                && (files[n].ic.mode == IFDIR ==> |Entries(files[n])| <= 2)
      ensures FirstChar(name) != DOT ==>
                var files, v := old(fs.Files()), old(Actives());
                var es := Entries(files[cwd]);
                forall j | 0 <= j < |es| && es[j].name == name && (if r == 0 then j < k else j < |Scanned(es)|) ::
                  && es[j].ino < |files|
                  && (es[j].ino == cwd || (exists a :: 0 <= a < |v| && v[a].used && v[a].number == es[j].ino)
                      || (files[es[j].ino].ic.mode == IFDIR && |Entries(files[es[j].ino])| > 2))
    {
      hide Owned, View, Views, EncodeSuper, InodeAt, FreeStack, Recorded, Entries, Settled, SlotsMatch, LinksMatch,
           NoHit, Hit, DirsOk, Mirrored, Deleted, Scanned, MayRemove, Untouched;
      RemovalMeans();
      HitMeans(Entries(fs.Files()[cwd]), name);
      r, k, n := TakeOutAndFree(name);
    }

    // Its body: remove, then the release of what was removed.
    method TakeOutAndFree(name: Name) returns (r: int, ghost k: nat, ghost n: nat)
      requires Valid() && cwd < INODES && fs.live[cwd].mode == IFDIR
      modifies fs`live, fs`cnt, fs`owner, fs`freed, fs.store, fs.store.fdb
      ensures r == 0 || r == -1
      ensures r == -1 ==> Valid() && fs.Files() == old(fs.Files()) && fs.Stack() == old(fs.Stack())
      ensures r == -1 ==> FirstChar(name) == DOT || old(NothingToUnlink(name))
      ensures r == 0 ==>
                FirstChar(name) != DOT && old(FirstHit(name, k, n)) && fs.store.Ok() && |fs.live| == |fs.cnt| == INODES
      ensures r == 0 ==> Deleted(old(fs.Files()), fs.Files(), old(fs.Stack()), fs.Stack(), cwd, k, n,
                                 old(fs.store.fdbhead), old(fs.store.fdb[..]), Valid())
    {
      hide Owned, View, Views, EncodeSuper, InodeAt, FreeStack, Recorded, Entries, Settled, SlotsMatch, LinksMatch,
           NoHit, DirsOk, WithoutEntry, Freed, NoDup, EntryRemoved, Mirrored, Deleted, Scanned;
      k, n := 0, 0;
      if FirstChar(name) == DOT {
        return -1, 0, 0;
      }
      ghost var files, was, head, fdb := fs.Files(), fs.Stack(), fs.store.fdbhead, fs.store.fdb[..];
      var inode := new Inode();
      BlockCounts();
      FileRecord(fs, cwd);
      assert IsDir(files[cwd].ic) && Settled(files[cwd].ic, |files[cwd].addrs|);
      DirsAreOnDisk();
      OnDisk(fs, cwd);
      fs.ReadInode(inode, cwd);
      var child: Entry;
      r, child, k := Remove(inode, name);
      if r != -1 {
        n := child.ino;
        UntouchedFile(files, fs.Files(), old(fs.live), n, k);
        assert Settled(files[n].ic, |files[n].addrs|);
        NotInCore(n);
        fs.ReadInode(inode, child.ino);
        ghost var mid := fs.Files();
        ReleaseFile(inode);
        DeletedNow(files, mid, fs.Files(), was, fs.Stack(), cwd, k, n, head, fdb, Valid());
        return 0, k, n;
      }
    }

    // What may be removed from the working directory, in terms of files and open files.
    lemma RemovalMeans()
      requires Valid() && cwd < INODES && fs.live[cwd].mode == IFDIR
      ensures var files, v := fs.Files(), Actives();
              var es := Entries(files[cwd]);
              forall j | 0 <= j < |es| ::
                && es[j].ino < INODES
                && (MayRemove(es[j]) <==>
                      && es[j].ino != cwd && (forall a | 0 <= a < |v| && v[a].used :: v[a].number != es[j].ino)
                      && (files[es[j].ino].ic.mode == IFDIR ==> |Entries(files[es[j].ino])| <= 2))
    {
      hide Owned, View, Views, EncodeSuper, InodeAt, FreeStack, Recorded, Entries, SlotsMatch, LinksMatch, DirsOk,
           Settled;
      EntriesNameInodes(cwd);
      BlockCounts();
      Records(fs);
    }

    lemma HitMeans(es: seq<Entry>, name: Name)
      requires |fs.live| == INODES
      ensures |Scanned(es)| <= |es|
      ensures forall n: nat | NoHit(es, n, name) ::
                forall j | 0 <= j < n && j < |es| && es[j].name == name :: !MayRemove(es[j])
      ensures forall k | 0 <= k < |es| && Hit(es, k, name) :: es[k].name == name && MayRemove(es[k])
    {
      hide MayRemove;
      forall n: nat, j | NoHit(es, n, name) && 0 <= j < n && j < |es| && es[j].name == name
        ensures !MayRemove(es[j])
      {
        assert !Hit(es, j, name);
      }
    }

    lemma NotInCore(n: nat)
      requires fs.Sound() && n < INODES && n !in fs.incore
      ensures InodeAt(fs.store.disk, n) == fs.live[n]
    {
      hide Owned, InodeAt;
    }

    // Removing an entry of the working directory does not touch the file it named.
    lemma UntouchedFile(files: seq<FileView>, mid: seq<FileView>, live: seq<Icommon>, n: nat, k: nat)
      requires fs.Sound() && |files| == |live| == INODES && cwd < INODES && n < INODES && n != cwd as nat
      requires mid == fs.Files()
      requires fs.live == live[cwd := fs.live[cwd]] && EntryRemoved(files, mid, cwd, k)
      ensures fs.live[n] == live[n] == mid[n].ic && mid[n] == files[n]
    {
      hide Owned, View, Views, Entries;
      FileRecord(fs, n);
    }

    // The end of unlink: blocks and inode of a file that is not open go back.
    method ReleaseFile(inode: Inode)
      requires Valid() && inode !in ai && inode.number < INODES && inode.number !in fs.incore
      requires inode.ic == fs.live[inode.number]
      modifies fs`live, fs`cnt, fs`owner, fs`freed, fs.store, fs.store.fdb, inode`ic
      ensures fs.store.Ok() && |fs.live| == |fs.cnt| == INODES
      ensures fs.Stack() == old(fs.Stack()) + Freed(old(fs.store.fdbhead), old(fs.store.fdb[..]),
          old(fs.Files()[inode.number]), LeafCount(old(inode.ic)))
      ensures Clobbers(old(fs.store.fdbhead), LeafCount(old(inode.ic))) ==> !NoDup(fs.Stack())
      ensures !Clobbers(old(fs.store.fdbhead), LeafCount(old(inode.ic))) ==>
                Valid() && fs.Files() == old(fs.Files())[inode.number := FileView(inode.ic, [], [])]
                && inode.ic.mode == IFZERO && inode.ic.size == 0
    {
      hide Owned, View, Views, EncodeSuper, InodeAt, FreeStack, SlotsMatch, LinksMatch, DirsOk, Freed, NoDup, Mirrored,
           Settled;
      ghost var n, files0, ic := inode.number, fs.Files(), inode.ic.(mode := IFZERO, size := 0);
      MirrorOther(Actives(), Copies(), fs.live, n, ic, fs.incore);
      DirsOkFile(files0, n, FileView(ic, [], []));
      fs.Erase(inode);
      assert Actives() == old(Actives()) && Copies() == old(Copies());
    }

    // Every file has the blocks its record calls for, and every directory is a proper one.
    lemma BlockCounts()
      requires Valid()
      ensures forall i | 0 <= i < INODES ::
                var f := fs.Files()[i]; Settled(f.ic, |f.addrs|) && (f.ic.mode == IFDIR ==> IsDir(f.ic))
    {
      hide Owned, View, Views, EncodeSuper, InodeAt, FreeStack, Recorded, Mirrored, Entries, SlotsMatch, LinksMatch;
      Records(fs);
      forall i | 0 <= i < INODES
        ensures var f := fs.Files()[i]; Settled(f.ic, |f.addrs|) && (f.ic.mode == IFDIR ==> IsDir(f.ic))
      {
        ScanRoom(fs, i);
        assert DirOk(fs.Files()[i]);
      }
    }

    // A name that does not start with a dot is not the first entry's.
    lemma NotFirst(files: seq<FileView>, num: nat, k: nat, name: Name)
      requires DirsOk(files) && num < |files| && files[num].ic.mode == IFDIR && FirstChar(name) != DOT
      requires k < |Entries(files[num])| && Entries(files[num])[k].name == name
      ensures k > 0 && IsDir(files[num].ic) && files[num].ic.size > 32
    {
      assert DirOk(files[num]);
    }
  }

  // Blocks a write of n bytes at `head` takes from the free list.
  function WriteNeed(ic: Icommon, head: nat, n: nat): nat {
    if head + n > ic.size then NeedBlocks(ic.size / 512, (head + n) / 512) else 0
  }

  const SEEK_SET: int := 0
  const SEEK_CUR: int := 1
  const SEEK_END: int := 2

  const WORD_LIMIT: int := 0x1_0000_0000

  // A uint32_t returned as an int.
  function AsInt(w: word): int {
    if w < 0x8000_0000 then w else w - WORD_LIMIT
  }

  // A write outside the data region.
  lemma AsideWrite(d: seq<Block>, d': seq<Block>, stack: seq<word>, live: seq<Icommon>, cnt: seq<nat>,
                   owner: seq<Owner>)
    requires Owned(d, stack, live, cnt, owner) && |d'| == DISK_BLOCKS && forall b | IsData(b) :: d'[b] == d[b]
    ensures Owned(d', stack, live, cnt, owner) && Views(d', live, cnt) == Views(d, live, cnt)
  {
    hide View, InodeOwned, StackOwned, Views;
    OwnedAside(d, d', stack, stack, live, cnt, owner, owner);
  }
}

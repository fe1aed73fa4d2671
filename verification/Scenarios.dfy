/** What a program sees that uses the file calls together. */
module Scenarios {
  import opened Bytes
  import opened Formats
  import opened FreeChain
  import opened FreeBlocks
  import opened FileMap
  import opened Inodes
  import opened FileSys
  import opened FileIO
  import opened Attach
  import opened Release
  import opened Directory
  import opened Paths
  import opened Limits
  import opened OpenTable
  import opened OpenFiles
  import opened FormatList
  import opened Wipe

  /** Between two states, `data` was written at `head` of file i and nothing else happened: no other
      file changed, and the blocks file i gained are those the free list lost. */
  ghost predicate Wrote(files: seq<FileView>, files': seq<FileView>, i: nat, head: nat, data: seq<byte>, was: seq<word>,
                        now: seq<word>) {
    && i < |files| == |files'| && files' == files[i := files'[i]] && files[i].addrs <= files'[i].addrs
    && head <= |Content(files[i])| && Content(files'[i]) == Splice(Content(files[i]), head, data)
    && |was| >= WriteNeed(files[i].ic, head, |data|) && now == was[..|was| - WriteNeed(files[i].ic, head, |data|)]
    && Pool(now, files'[i]) == Pool(was, files[i])
  }

  lemma NeedAdds(b: nat, m: nat, n: nat)
    requires b <= m <= n
    ensures NeedBlocks(b, n) == NeedBlocks(b, m) + NeedBlocks(m, n)
  {
  }

  lemma WriteNeedAdds(ic: Icommon, ic': Icommon, head: nat, a: nat, b: nat)
    requires head <= ic.size && ic'.size == if head + a > ic.size then head + a else ic.size
    ensures WriteNeed(ic, head, a + b) == WriteNeed(ic, head, a) + WriteNeed(ic', head + a, b)
  {
    if head + a + b > ic.size {
      NeedAdds(ic.size / 512, ic'.size / 512, (head + a + b) / 512);
    }
  }

  lemma WroteTwice(files: seq<FileView>, mid: seq<FileView>, files': seq<FileView>, i: nat, head: nat, a: seq<byte>,
                   b: seq<byte>, was: seq<word>, now: seq<word>, now': seq<word>)
    requires Wrote(files, mid, i, head, a, was, now) && Wrote(mid, files', i, head + |a|, b, now, now')
    ensures Wrote(files, files', i, head, a + b, was, now')
  {
    hide Pool, WriteNeed;
    SpliceTwo(Content(files[i]), head, a, b);
    WriteNeedAdds(files[i].ic, mid[i].ic, head, |a|, |b|);
    assert |Content(mid[i])| == mid[i].ic.size && |Content(files[i])| == files[i].ic.size;
  }

  lemma WroteNothing(files: seq<FileView>, i: nat, head: nat, was: seq<word>)
    requires i < |files| && head <= files[i].ic.size
    ensures Wrote(files, files, i, head, [], was, was)
  {
    hide Pool, Splice;
    NothingWritten(Content(files[i]), head);
    assert was[..|was|] == was;
  }

  lemma ConcatSplit(parts: seq<seq<byte>>)
    requires parts != []
    ensures Concat(parts) == parts[0] + Concat(parts[1..])
  {
  }

  // The file behind an open descriptor is a regular one with its blocks in place.
  lemma BehindFacts(t: OpenFiles, fd: int)
    requires t.Valid() && t.IsOpen(fd)
    ensures t.Ino(fd) < INODES == |t.fs.Files()| && t.FileOf(fd) == t.fs.Files()[t.Ino(fd)]
    ensures var f := t.FileOf(fd);
            f.ic == t.fs.live[t.Ino(fd)] && f.ic.mode == IFREG && |f.addrs| == |f.blocks| == f.ic.size / 512 + 1
    ensures 0 <= t.fdt[t.FdSlot(fd)] < OFT_LIMIT && t.Offset(fd) == t.of[t.fdt[t.FdSlot(fd)]].head
  {
    hide Owned, View, Views, EncodeSuper, InodeAt, FreeStack, Recorded, Mirrored, Settled, DirsOk;
    t.CopyFacts(t.Behind(fd));
    t.EntryInRange(fd);
    ScanRoom(t.fs, t.Ino(fd));
  }

  // One write.
  method WriteOnce(t: OpenFiles, fd: int, data: seq<byte>)
    requires t.Valid() && t.IsOpen(fd) && t.Offset(fd) <= t.FileOf(fd).ic.size
    requires (t.Offset(fd) + |data|) / 512 < MAX_BLOCKS
    requires |t.fs.Stack()| >= WriteNeed(t.FileOf(fd).ic, t.Offset(fd), |data|)
    modifies t.ai, t.of, t.fs`live, t.fs`cnt, t.fs`owner, t.fs.store, t.fs.store.fdb
    ensures t.Valid() && t.Actives() == old(t.Actives()) && t.IsOpen(fd) && t.Ino(fd) == old(t.Ino(fd))
    ensures t.Behind(fd) == old(t.Behind(fd)) && t.Offset(fd) == old(t.Offset(fd)) + |data|
    ensures Wrote(old(t.fs.Files()), t.fs.Files(), t.Ino(fd), old(t.Offset(fd)), data, old(t.fs.Stack()), t.fs.Stack())
  {
    hide Owned, View, Views, EncodeSuper, InodeAt, FreeStack, Recorded, SlotsMatch, LinksMatch, Mirrored, Settled,
         Content, Pool, DirsOk, WriteNeed, Splice, Overwritten;
    BehindFacts(t, fd);
    ghost var head, f := t.Offset(fd), t.FileOf(fd);
    var r := t.Fwrite(fd, data);
    BehindFacts(t, fd);
    OverwrittenIsSplice(Content(f), Content(t.FileOf(fd)), head, data);
  }

  /** Any number of consecutive writes through one descriptor does exactly what one write of all the
      data would: same contents, same blocks taken, same position. */
  method WriteParts(t: OpenFiles, fd: int, parts: seq<seq<byte>>)
    requires t.Valid() && t.IsOpen(fd) && t.Offset(fd) <= t.FileOf(fd).ic.size
    requires (t.Offset(fd) + |Concat(parts)|) / 512 < MAX_BLOCKS
    requires |t.fs.Stack()| >= WriteNeed(t.FileOf(fd).ic, t.Offset(fd), |Concat(parts)|)
    modifies t.ai, t.of, t.fs`live, t.fs`cnt, t.fs`owner, t.fs.store, t.fs.store.fdb
    ensures t.Valid() && t.Actives() == old(t.Actives()) && t.IsOpen(fd) && t.Ino(fd) == old(t.Ino(fd))
    ensures t.Behind(fd) == old(t.Behind(fd)) && t.Offset(fd) == old(t.Offset(fd)) + |Concat(parts)|
    ensures Wrote(old(t.fs.Files()), t.fs.Files(), t.Ino(fd), old(t.Offset(fd)), Concat(parts), old(t.fs.Stack()),
                  t.fs.Stack())
    decreases |parts|
  {
    hide Owned, View, Views, EncodeSuper, InodeAt, FreeStack, Recorded, SlotsMatch, LinksMatch, Mirrored, Settled,
         Content, Pool, DirsOk, Wrote, WriteNeed, Splice, Concat;
    ghost var i, head, files, was := t.Ino(fd), t.Offset(fd), t.fs.Files(), t.fs.Stack();
    BehindFacts(t, fd);
    if parts == [] {
      NoParts();
      WroteNothing(files, i, head, was);
      return;
    }
    ConcatSplit(parts);
    PartsFit(files[i].ic, head, parts[0], Concat(parts[1..]), was);
    WriteOnce(t, fd, parts[0]);
    BehindFacts(t, fd);
    ghost var mid, now := t.fs.Files(), t.fs.Stack();
    RestFits(files, mid, i, head, parts[0], Concat(parts[1..]), was, now);
    WriteParts(t, fd, parts[1..]);
    WroteTwice(files, mid, t.fs.Files(), i, head, parts[0], Concat(parts[1..]), was, now, t.fs.Stack());
  }

  lemma PartsFit(ic: Icommon, head: nat, a: seq<byte>, b: seq<byte>, was: seq<word>)
    requires head <= ic.size && |was| >= WriteNeed(ic, head, |a + b|)
    ensures |was| >= WriteNeed(ic, head, |a|)
  {
  }

  lemma RestFits(files: seq<FileView>, mid: seq<FileView>, i: nat, head: nat, a: seq<byte>, b: seq<byte>,
                 was: seq<word>, now: seq<word>)
    requires Wrote(files, mid, i, head, a, was, now) && |was| >= WriteNeed(files[i].ic, head, |a + b|)
    ensures head + |a| <= mid[i].ic.size && |now| >= WriteNeed(mid[i].ic, head + |a|, |b|)
  {
    hide Pool, WriteNeed;
    assert |Content(mid[i])| == mid[i].ic.size && |Content(files[i])| == files[i].ic.size;
    WriteNeedAdds(files[i].ic, mid[i].ic, head, |a|, |b|);
  }

  lemma NoParts()
    ensures Concat([]) == []
  {
  }

  /** Writing in any number of pieces, seeking back and reading returns exactly the data, and reading
      changes no file. */
  method WriteThenRead(t: OpenFiles, fd: int, parts: seq<seq<byte>>, buf: array<byte>) returns (r: int)
    requires t.Valid() && t.IsOpen(fd) && t.Offset(fd) <= t.FileOf(fd).ic.size
    requires (t.Offset(fd) + |Concat(parts)|) / 512 < MAX_BLOCKS && |Concat(parts)| <= buf.Length
    requires |t.fs.Stack()| >= WriteNeed(t.FileOf(fd).ic, t.Offset(fd), |Concat(parts)|)
    modifies t.ai, t.of, t.fs`live, t.fs`cnt, t.fs`owner, t.fs.store, t.fs.store.fdb, buf
    ensures t.Valid() && r == 0
    ensures buf[..|Concat(parts)|] == Concat(parts)
    ensures t.IsOpen(fd) && Wrote(old(t.fs.Files()), t.fs.Files(), t.Ino(fd), old(t.Offset(fd)), Concat(parts),
        old(t.fs.Stack()), t.fs.Stack())
  {
    hide Owned, View, Views, EncodeSuper, InodeAt, FreeStack, Recorded, SlotsMatch, LinksMatch, Mirrored, Settled,
         Content, Pool, DirsOk, WriteNeed, Splice, Concat, Wrote;
    BehindFacts(t, fd);
    ghost var head, files := t.Offset(fd), t.fs.Files();
    var pos := t.Tell(fd);
    WriteParts(t, fd, parts);
    BehindFacts(t, fd);
    WrittenPart(files, t.fs.Files(), t.Ino(fd), head, Concat(parts), old(t.fs.Stack()), t.fs.Stack());
    r := SeekAndRead(t, fd, pos, Length(parts), buf);
  }

  lemma WrittenPart(files: seq<FileView>, files': seq<FileView>, i: nat, head: nat, data: seq<byte>, was: seq<word>,
                    now: seq<word>)
    requires Wrote(files, files', i, head, data, was, now)
    ensures i < |files'| && head + |data| <= files'[i].ic.size && Content(files'[i])[head..head + |data|] == data
  {
    hide Pool, Content;
    SpliceHolds(Content(files[i]), head, data);
  }

  // Reading n bytes from position pos.
  method SeekAndRead(t: OpenFiles, fd: int, pos: word, n: nat, buf: array<byte>) returns (r: int)
    requires t.Valid() && t.IsOpen(fd) && pos + n <= t.FileOf(fd).ic.size && n <= buf.Length
    modifies t.of, buf
    ensures t.Valid() && r == 0 && t.IsOpen(fd) && t.Ino(fd) == old(t.Ino(fd)) < |t.fs.Files()|
    ensures buf[..n] == Content(t.fs.Files()[t.Ino(fd)])[pos..pos + n]
  {
    hide Owned, View, Views, EncodeSuper, InodeAt, FreeStack, Recorded, SlotsMatch, LinksMatch, Mirrored, Settled,
         Content, Pool, DirsOk;
    BehindFacts(t, fd);
    ghost var f := t.FileOf(fd);
    var seek := t.Lseek(fd, pos, SEEK_SET);
    BehindFacts(t, fd);
    assert t.FileOf(fd) == f && t.Offset(fd) == pos;
    r := t.Fread(fd, buf, n);
    BehindFacts(t, fd);
  }

  function Length(parts: seq<seq<byte>>): (n: nat)
    ensures n == |Concat(parts)|
  {
    if parts == [] then 0 else |parts[0]| + Length(parts[1..])
  }

  lemma SpliceHolds(c: seq<byte>, head: nat, data: seq<byte>)
    requires head <= |c|
    ensures |Splice(c, head, data)| >= head + |data| && Splice(c, head, data)[head..head + |data|] == data
  {
  }

  // ----- create, write, close, unlink -----

  /** A scan of the root directory finds no entry `name`, and there is room for one more. */
  ghost predicate NewInRoot(files: seq<FileView>, name: Name) {
    && |files| == INODES && files[ROOT_DIR].ic.mode == IFDIR && files[ROOT_DIR].ic.size / 512 < MAX_BLOCKS
    && NoMatch(Scanned(Entries(files[ROOT_DIR])), name) && FirstChar(name) != DOT
  }

  // Blocks the root directory takes for one more entry.
  function RootGrowth(files: seq<FileView>): nat
    requires |files| == INODES
  {
    GrowNeed(files[ROOT_DIR].ic)
  }

  lemma NotFound(files: seq<FileView>, name: Name)
    requires NewInRoot(files, name)
    ensures NameToInoSpec(files[ROOT_DIR], name) == -1
  {
    hide Entries, FirstMatch;
    FirstMatchNone(Scanned(Entries(files[ROOT_DIR])), name);
  }

  lemma OnePath(files: seq<FileView>, name: Name)
    requires NewInRoot(files, name)
    ensures PathOk(files, ROOT_DIR, [name]) && Lookup(files, ROOT_DIR, [name]) == -1
    ensures Creates(files, ROOT_DIR, [name]) && ParentOf(files, ROOT_DIR, [name]) == ROOT_DIR && Last([name]) == name
  {
    hide Entries, NameToInoSpec;
    NotFound(files, name);
    var p := [name];
    assert p[1..] == [] && p[..0] == [];
    assert Lookup(files, -1, []) == -1 && PathOk(files, -1, []);
    assert Lookup(files, ROOT_DIR, []) == ROOT_DIR;
  }

  lemma MayCreate(t: OpenFiles, name: Name)
    requires t.Valid() && NewInRoot(t.fs.Files(), name) && |t.fs.Stack()| >= 1 + RootGrowth(t.fs.Files())
    ensures t.MayOpen([name], O_CREAT)
    ensures RootGrowth(t.fs.Files()) == 0 <==> |Entries(t.fs.Files()[ROOT_DIR])| % 16 != 0
  {
    hide Owned, View, Views, EncodeSuper, InodeAt, FreeStack, Recorded, Mirrored, Settled, PathOk, Lookup,
         NameToInoSpec, Entries;
    var files := t.fs.Files();
    OnePath(files, name);
    assert DirOk(files[ROOT_DIR]);
    assert |Entries(files[ROOT_DIR])| == files[ROOT_DIR].ic.size / 32;
  }

  /** files1 is files with a new empty file n, entered in the root as `name`; it holds the block that was
      on top of the free list. */
  ghost predicate NewFile(files: seq<FileView>, files1: seq<FileView>, was: seq<word>, now: seq<word>, name: Name,
                          n: int) {
    && |files1| == |files| == INODES && 0 < n < INODES && n < WORD_LIMIT
    && files[n].ic.mode == IFZERO && (forall i | 0 <= i < n :: files[i].ic.mode != IFZERO)
    && files1[n].ic.mode == IFREG && files1[n].ic.size == 0 && |files1[n].addrs| == 1
    && var taken := 1 + RootGrowth(files);
    && |was| >= taken && now == was[..|was| - taken]
    && (taken == 1 ==> Pool(now, files1[n]) == multiset(was))
    && files1[ROOT_DIR].ic.mode == IFDIR
    && Entries(files1[ROOT_DIR]) == Entries(files[ROOT_DIR]) + [Entry(n, name)]
    && forall i | 0 < i < INODES && i != n :: files1[i] == files[i]
  }

  lemma OpenedNew(t: OpenFiles, files: seq<FileView>, files1: seq<FileView>, was: seq<word>, now: seq<word>, name: Name,
                  n: int)
    requires NewInRoot(files, name)
    requires t.Resolved(files, files1, was, now, [name], O_CREAT, n)
    requires exists i :: 0 <= i < INODES && files[i].ic.mode == IFZERO
    ensures NewFile(files, files1, was, now, name, n)
  {
    hide PathOk, Lookup, NameToInoSpec, Entries, Creates, ParentOf;
    OnePath(files, name);
    var a := was[|was| - 1];
    assert Created(files, files1, ROOT_DIR, n, name, a);
    assert Held(files1[n]) == [a];
    if RootGrowth(files) == 0 {
      assert was == now + [a];
    }
  }

  lemma HeadIsLength(s: Store)
    requires s.Ok()
    ensures s.fdbhead as int == |s.Stack()| % 64
  {
    hide EncodeSuper, ChunkStack;
    ChunksAreFull(s.disk, s.chain);
  }

  // The free list at the end, for a file g whose blocks and the free list before the unlink make up
  // the free list at the very beginning, but for the blocks the directory took.
  lemma GivenBack(was: seq<word>, now: seq<word>, end: seq<word>, head: nat, fdb: FreeList, g: FileView, grown: nat)
    requires |g.addrs| == g.ic.size / 512 + 1 && g.ic.mode == IFREG
    requires |now| == |was| - 1 - grown - NeedBlocks(0, g.ic.size / 512)
    requires (grown == 0 ==> Pool(now, g) == multiset(was))
    requires end == now + Freed(head, fdb, g, LeafCount(g.ic)) && !Clobbers(head, LeafCount(g.ic))
    ensures multiset(end) == multiset(was) <==> g.ic.size % 512 != 0 && grown == 0
  {
    hide Freed;
    var r := Freed(head, fdb, g, LeafCount(g.ic));
    FreedEverything(head, fdb, g, LeafCount(g.ic));
    FreedCount(head, fdb, g, LeafCount(g.ic));
    LeakCondition(g.ic);
    assert multiset(end) == multiset(now) + multiset(r);
    assert |multiset(end)| == |now| + |r| && |multiset(was)| == |was|;
  }

  // The new entry is the one that unlink finds.
  lemma OnlyHit(t: OpenFiles, es: seq<Entry>, n: word, name: Name)
    requires |t.fs.live| == INODES && NoMatch(es, name)
    requires t.MayRemove(Entry(n, name))
    ensures var es' := es + [Entry(n, name)];
            && (t.NoHit(es', |Scanned(es')|, name) <==> (|es| + 1) % 16 == 0)
            && (forall k | 0 <= k < |Scanned(es')| :: t.Hit(es', k, name) ==> k == |es| && (|es| + 1) % 16 != 0)
            && forall k | 0 <= k < |es'| :: t.Hit(es', k, name) ==> k == |es|
  {
    var es' := es + [Entry(n, name)];
    assert t.Hit(es', |es|, name);
  }

  // Unused active entries have no links; used ones stand for regular files.
  lemma ActiveFacts(t: OpenFiles)
    requires t.Valid()
    ensures var v := t.Actives();
            forall a | 0 <= a < |v| :: if v[a].used then v[a].number < INODES
                && t.fs.Files()[v[a].number].ic.mode == IFREG else v[a].links == 0
  {
    hide Owned, View, Views, EncodeSuper, InodeAt, FreeStack, Recorded, Settled, SlotsMatch;
    Records(t.fs);
    var v := t.Actives();
    forall a | 0 <= a < |v|
      ensures if v[a].used then v[a].number < INODES && t.fs.Files()[v[a].number].ic.mode == IFREG else v[a].links == 0
    {
      assert v[a].used ==> t.Copies()[a] == t.fs.live[v[a].number];
    }
  }

  // First part: the file is created and opened; nobody else has it open.
  method CreateNew(t: OpenFiles, name: Name) returns (fd: int)
    requires t.Valid() && t.cwd == ROOT_DIR && !t.Full() && NewInRoot(t.fs.Files(), name)
    requires |t.fs.Stack()| >= 1 + RootGrowth(t.fs.Files())
    requires exists i :: 0 <= i < INODES && t.fs.Files()[i].ic.mode == IFZERO
    modifies t`back, t.ai, t.of, t.fdt, t.fs`live, t.fs`cnt, t.fs`owner, t.fs`incore, t.fs.store, t.fs.store.fdb
    ensures t.Valid() && t.IsOpen(fd) && t.Offset(fd) == 0 && t.Actives()[t.Behind(fd)].links == 1
    ensures NewFile(old(t.fs.Files()), t.fs.Files(), old(t.fs.Stack()), t.fs.Stack(), name, t.Ino(fd))
  {
    hide Owned, View, Views, EncodeSuper, InodeAt, FreeStack, Recorded, SlotsMatch, LinksMatch, Mirrored, Settled,
         DirsOk, Entries, Pool, NewInRoot, NewFile;
    ghost var files, was, v := t.fs.Files(), t.fs.Stack(), t.Actives();
    MayCreate(t, name);
    ActiveFacts(t);
    ghost var n;
    fd, n := t.Open([name], O_CREAT);
    OpenedNew(t, files, t.fs.Files(), was, t.fs.Stack(), name, n);
    assert files[n].ic.mode == IFZERO by { WasUnused(files, t.fs.Files(), was, t.fs.Stack(), name, n); }
  }

  lemma WasUnused(files: seq<FileView>, files1: seq<FileView>, was: seq<word>, now: seq<word>, name: Name, n: int)
    requires NewFile(files, files1, was, now, name, n)
    ensures 0 < n < INODES == |files| == |files1| && files[n].ic.mode == IFZERO && files1[n].ic.mode == IFREG
    ensures files1[n].ic.size == 0
    ensures forall i | 0 <= i < n :: files[i].ic.mode != IFZERO
    ensures |was| >= 1 + RootGrowth(files) && now == was[..|was| - 1 - RootGrowth(files)]
    ensures RootGrowth(files) == 0 ==> Pool(now, files1[n]) == multiset(was)
    ensures files1[ROOT_DIR].ic.mode == IFDIR
  {
    hide Entries, Pool;
  }

  lemma WroteFacts(files1: seq<FileView>, files2: seq<FileView>, n: nat, data: seq<byte>, was: seq<word>,
                   now: seq<word>)
    requires Wrote(files1, files2, n, 0, data, was, now) && files1[n].ic.size == 0
    ensures |files2| == |files1| && n < |files1| && files2 == files1[n := files2[n]] && files2[n].ic.size == |data|
    ensures now <= was && |now| == |was| - NeedBlocks(0, |data| / 512) && Pool(now, files2[n]) == Pool(was, files1[n])
    ensures Content(files2[n]) == data
  {
    hide Pool;
    assert |Content(files2[n])| == files2[n].ic.size && Content(files1[n]) == [];
  }

  lemma RootEntries(files: seq<FileView>, files1: seq<FileView>, was: seq<word>, now: seq<word>, name: Name, n: int)
    requires NewFile(files, files1, was, now, name, n) && NewInRoot(files, name)
    ensures |files| == |files1| == INODES && 0 < n < WORD_LIMIT && n < INODES
    ensures Entries(files1[ROOT_DIR]) == Entries(files[ROOT_DIR]) + [Entry(n, name)]
    ensures FirstChar(name) != DOT
    ensures forall i | 0 < i < INODES && i != n :: files1[i] == files[i]
  {
    hide Entries, Pool;
  }

  /** files2 is files with a new closed file n of the given contents in the root, under `name`; n was the
      lowest unused inode. */
  ghost predicate Present(files: seq<FileView>, files2: seq<FileView>, was: seq<word>, now: seq<word>, name: Name,
                          n: int, data: seq<byte>) {
    && |files| == |files2| == INODES && 0 < n < INODES && n < WORD_LIMIT
    && files[n].ic.mode == IFZERO && (forall i | 0 <= i < n :: files[i].ic.mode != IFZERO)
    && files2[ROOT_DIR].ic.mode == IFDIR && Entries(files2[ROOT_DIR]) == Entries(files[ROOT_DIR]) + [Entry(n, name)]
    && files2[n].ic.mode == IFREG && Content(files2[n]) == data && |files2[n].addrs| == |data| / 512 + 1
    && now <= was && |now| == |was| - 1 - RootGrowth(files) - NeedBlocks(0, |data| / 512)
    && (RootGrowth(files) == 0 ==> Pool(now, files2[n]) == multiset(was))
    && forall i | 0 < i < INODES && i != n :: files2[i] == files[i]
  }

  lemma NowPresent(files: seq<FileView>, files1: seq<FileView>, files2: seq<FileView>, was: seq<word>, now1: seq<word>,
                   now2: seq<word>, name: Name, n: int, data: seq<byte>)
    requires NewInRoot(files, name) && NewFile(files, files1, was, now1, name, n)
    requires Wrote(files1, files2, n, 0, data, now1, now2)
    requires files2[n].ic.mode == IFREG && |files2[n].addrs| == files2[n].ic.size / 512 + 1
    ensures Present(files, files2, was, now2, name, n, data)
  {
    hide Entries, Pool, NewInRoot, NewFile, Wrote;
    WasUnused(files, files1, was, now1, name, n);
    RootEntries(files, files1, was, now1, name, n);
    WroteFacts(files1, files2, n, data, now1, now2);
  }

  // Create and write: the file is still open, by nobody else.
  method CreateAndWrite(t: OpenFiles, name: Name, parts: seq<seq<byte>>) returns (fd: int, ghost n: word)
    requires t.Valid() && t.cwd == ROOT_DIR && !t.Full() && NewInRoot(t.fs.Files(), name)
    requires exists i :: 0 <= i < INODES && t.fs.Files()[i].ic.mode == IFZERO
    requires |Concat(parts)| / 512 < MAX_BLOCKS
    requires |t.fs.Stack()| >= 1 + RootGrowth(t.fs.Files()) + NeedBlocks(0, |Concat(parts)| / 512)
    modifies t`back, t.ai, t.of, t.fdt, t.fs`live, t.fs`cnt, t.fs`owner, t.fs`incore, t.fs.store, t.fs.store.fdb
    ensures t.Valid() && t.IsOpen(fd) && t.Ino(fd) == n as nat && t.Actives()[t.Behind(fd)].links == 1
    ensures Present(old(t.fs.Files()), t.fs.Files(), old(t.fs.Stack()), t.fs.Stack(), name, n, Concat(parts))
  {
    hide Owned, View, Views, EncodeSuper, InodeAt, FreeStack, Recorded, SlotsMatch, LinksMatch, Mirrored, Settled,
         DirsOk, Entries, Pool, NewInRoot, NewFile, Content, Wrote, Concat, Present, Untouched;
    ghost var files, was := t.fs.Files(), t.fs.Stack();
    fd := CreateNew(t, name);
    n := t.Ino(fd);
    ghost var files1, now1 := t.fs.Files(), t.fs.Stack();
    WasUnused(files, files1, was, now1, name, n);
    BehindFacts(t, fd);
    WriteParts(t, fd, parts);
    BehindFacts(t, fd);
    NowPresent(files, files1, t.fs.Files(), was, now1, t.fs.Stack(), name, n, Concat(parts));
  }

  // First three calls.
  method CreateWriteClose(t: OpenFiles, name: Name, parts: seq<seq<byte>>) returns (fd: int, c: int, ghost n: word)
    requires t.Valid() && t.cwd == ROOT_DIR && !t.Full() && NewInRoot(t.fs.Files(), name)
    requires exists i :: 0 <= i < INODES && t.fs.Files()[i].ic.mode == IFZERO
    requires |Concat(parts)| / 512 < MAX_BLOCKS
    requires |t.fs.Stack()| >= 1 + RootGrowth(t.fs.Files()) + NeedBlocks(0, |Concat(parts)| / 512)
    modifies t`back, t.ai, t.of, t.fdt, t.fs`live, t.fs`cnt, t.fs`owner, t.fs`incore, t.fs.store, t.fs.store.fdb
    ensures t.Valid() && 0 <= fd < FDT_LIMIT && c == 0 && n as nat !in t.fs.incore && !t.Full()
    ensures Present(old(t.fs.Files()), t.fs.Files(), old(t.fs.Stack()), t.fs.Stack(), name, n, Concat(parts))
  {
    hide Owned, View, Views, EncodeSuper, InodeAt, FreeStack, Recorded, SlotsMatch, LinksMatch, Mirrored, Settled,
         DirsOk, Concat, Present, RootGrowth, NewInRoot, Untouched;
    fd, n := CreateAndWrite(t, name, parts);
    BehindFacts(t, fd);
    c := t.Close(fd);
  }

  /** Directory entries and other files are as before, and the free blocks are those of the beginning if
      and only if the file's size was no multiple of 512 and the directory's entry count no multiple of 16. */
  ghost predicate Restored(files: seq<FileView>, files3: seq<FileView>, was: seq<word>, end: seq<word>, size: nat) {
    && |files| == |files3| == INODES
    && (multiset(end) == multiset(was) <==> size % 512 != 0 && |Entries(files[ROOT_DIR])| % 16 != 0)
    && Entries(files3[ROOT_DIR]) == Entries(files[ROOT_DIR])
    && exists n :: 0 < n < INODES && LivedAs(files, files3, n)
  }

  lemma NowRestored(files: seq<FileView>, files2: seq<FileView>, files3: seq<FileView>, was: seq<word>, now: seq<word>,
                    end: seq<word>, name: Name, n: int, data: seq<byte>, head: nat, fdb: FreeList, valid: bool)
    requires Present(files, files2, was, now, name, n, data)
    requires Deleted(files2, files3, now, end, ROOT_DIR, |Entries(files[ROOT_DIR])|, n, head, fdb, valid)
    requires RootGrowth(files) == 0 <==> |Entries(files[ROOT_DIR])| % 16 != 0
    ensures if Clobbers(head, LeafCount(files2[n].ic)) then !NoDup(end)
            else valid && Restored(files, files3, was, end, |data|)
  {
    hide Entries, Pool, Freed, NoDup, AllKept;
    assert |Content(files2[n])| == files2[n].ic.size;
    if !Clobbers(head, LeafCount(files2[n].ic)) {
      GivenBack(was, now, end, head, fdb, files2[n], RootGrowth(files));
      var es := Entries(files[ROOT_DIR]);
      assert WithoutEntry(es + [Entry(n, name)], |es|) == es;
      assert LivedAs(files, files3, n);
    }
  }

  lemma PresentFacts(files: seq<FileView>, files2: seq<FileView>, was: seq<word>, now: seq<word>, name: Name, n: int,
                     data: seq<byte>)
    requires Present(files, files2, was, now, name, n, data) && NewInRoot(files, name)
    ensures 0 < n < INODES == |files2| && files2[ROOT_DIR].ic.mode == IFDIR && files2[n].ic.mode == IFREG
    ensures files2[n].ic.size == |data|
    ensures |files2[n].addrs| == |data| / 512 + 1
    ensures |files| == INODES && |now| == |was| - 1 - RootGrowth(files) - NeedBlocks(0, |data| / 512)
    ensures var es := Entries(files[ROOT_DIR]);
            FirstChar(name) != DOT && Entries(files2[ROOT_DIR]) == es + [Entry(n, name)]
  {
    hide Entries, Pool;
    assert |Content(files2[n])| == files2[n].ic.size;
  }

  // Second part: the closed file n is unlinked.
  method DeleteNew(t: OpenFiles, name: Name, ghost es: seq<Entry>, ghost n: word) returns (u: int)
    requires t.Valid() && t.cwd == ROOT_DIR && 0 < n < INODES && n as nat !in t.fs.incore && FirstChar(name) != DOT
    requires t.fs.Files()[ROOT_DIR].ic.mode == IFDIR && t.fs.Files()[n].ic.mode == IFREG
    requires Entries(t.fs.Files()[ROOT_DIR]) == es + [Entry(n, name)] && NoMatch(es, name)
    modifies t.fs`live, t.fs`cnt, t.fs`owner, t.fs`freed, t.fs.store, t.fs.store.fdb
    ensures u == (if (|es| + 1) % 16 != 0 then 0 else -1) && t.fs.store.Ok()
    ensures u == -1 ==> t.Valid() && t.fs.Files() == old(t.fs.Files()) && t.fs.Stack() == old(t.fs.Stack())
    ensures u == 0 ==>
              && |t.fs.live| == |t.fs.cnt| == INODES
              && exists fdb: FreeList ::
                Deleted(old(t.fs.Files()), t.fs.Files(), old(t.fs.Stack()), t.fs.Stack(), ROOT_DIR, |es|, n,
                                                 |old(t.fs.Stack())| % 64, fdb, t.Valid())
  {
    hide Owned, View, Views, EncodeSuper, InodeAt, FreeStack, Recorded, SlotsMatch, LinksMatch, Mirrored, Settled,
         DirsOk, Entries, Freed, NoDup, NoMatch, Scanned, FileGone, Deleted;
    Records(t.fs);
    HeadIsLength(t.fs.store);
    ghost var fdb: FreeList := t.fs.store.fdb[..];
    ghost var k, m;
    OnlyHit(t, es, n, name);
    u, k, m := t.Unlink(name);
    assert u == 0 ==> k == |es| && m == n as nat;
  }

  /** The life of a file: created in the root directory, written in any number of pieces, closed and
      unlinked. Every call succeeds, except that unlink does not find the file when its entry just fills
      the directory's last block. If the file has more than 12 blocks to free and the free list then
      has 51 entries in its top chunk, the list ends up holding a block twice. Otherwise all is
      consistent, directory entries and other files are as before, and the free blocks are exactly
      those of the beginning if and only if the file's size was no multiple of 512 and the directory's
      entry count no multiple of 16. */
  method CreateWriteDelete(t: OpenFiles, name: Name, parts: seq<seq<byte>>)
    returns (fd: int, c: int, u: int, ghost n: word)
    requires t.Valid() && t.cwd == ROOT_DIR && !t.Full() && NewInRoot(t.fs.Files(), name)
    requires NoMatch(Entries(t.fs.Files()[ROOT_DIR]), name)
    requires exists i :: 0 <= i < INODES && t.fs.Files()[i].ic.mode == IFZERO
    requires |Concat(parts)| / 512 < MAX_BLOCKS
    requires |t.fs.Stack()| >= 1 + RootGrowth(t.fs.Files()) + NeedBlocks(0, |Concat(parts)| / 512)
    modifies t`back, t.ai, t.of, t.fdt, t.fs, t.fs.store, t.fs.store.fdb
    ensures 0 <= fd < FDT_LIMIT && c == 0 && t.fs.store.Ok()
    ensures u == if (|Entries(old(t.fs.Files())[ROOT_DIR])| + 1) % 16 != 0 then 0 else -1
    ensures u == -1 ==>
              && t.Valid()
              && Present(old(t.fs.Files()), t.fs.Files(), old(t.fs.Stack()), t.fs.Stack(), name, n, Concat(parts))
    ensures u == 0 ==>
              var size, was := |Concat(parts)|, old(t.fs.Stack());
              if size > 12 * 512 && (|was| - 1 - RootGrowth(old(t.fs.Files())) - NeedBlocks(0, size / 512)) % 64 == 51
              then !NoDup(t.fs.Stack())
              else t.Valid() && Restored(old(t.fs.Files()), t.fs.Files(), was, t.fs.Stack(), size)
  {
    hide Owned, View, Views, EncodeSuper, InodeAt, FreeStack, Recorded, SlotsMatch, LinksMatch, Mirrored, Settled,
         DirsOk, Entries, NewInRoot, Concat, Freed, NoDup, NoMatch, FileGone, Present, Restored, RootGrowth, Deleted;
    ghost var files, was, size := t.fs.Files(), t.fs.Stack(), |Concat(parts)|;
    MayCreate(t, name);
    fd, c, n := CreateWriteClose(t, name, parts);
    ghost var files2, now := t.fs.Files(), t.fs.Stack();
    PresentFacts(files, files2, was, now, name, n, Concat(parts));
    u := DeleteNew(t, name, Entries(files[ROOT_DIR]), n);
    if u == 0 {
      ghost var fdb: FreeList :| Deleted(files2, t.fs.Files(), now, t.fs.Stack(), ROOT_DIR, |Entries(files[ROOT_DIR])|,
                                         n, |now| % 64, fdb, t.Valid());
      NowRestored(files, files2, t.fs.Files(), was, now, t.fs.Stack(), name, n, Concat(parts), |now| % 64, fdb,
                  t.Valid());
    }
  }

  // ----- a name hidden in a full block -----

  /** Creating one name twice. In a root directory with 15 entries (or 31, 47, ...) the first file's entry
      fills the last block, which hides it. The second open with O_CREAT then enters another file under the
      same name, and that entry, behind the full block, makes the first one visible again: from then on
      the name leads to the first file and never to the second. */
  method CreateTwice(t: OpenFiles, name: Name) returns (ghost n1: word, ghost n2: word, fd: int)
    requires t.Valid() && t.cwd == ROOT_DIR && !t.Full() && NewInRoot(t.fs.Files(), name)
    requires |Entries(t.fs.Files()[ROOT_DIR])| % 16 == 15 && (t.fs.Files()[ROOT_DIR].ic.size + 32) / 512 < MAX_BLOCKS
    requires exists i, j :: 0 <= i < j < INODES && t.fs.Files()[i].ic.mode == t.fs.Files()[j].ic.mode == IFZERO
    requires |t.fs.Stack()| >= 4
    modifies t`back, t.ai, t.of, t.fdt, t.fs`live, t.fs`cnt, t.fs`owner, t.fs`incore, t.fs.store, t.fs.store.fdb
    ensures t.Valid() && n1 != n2 && t.IsOpen(fd) && t.Ino(fd) == n1 as nat
    ensures |t.fs.Files()| == INODES
    ensures Entries(t.fs.Files()[ROOT_DIR])
         == Entries(old(t.fs.Files())[ROOT_DIR]) + [Entry(n1, name)] + [Entry(n2, name)]
  {
    hide Owned, View, Views, EncodeSuper, InodeAt, FreeStack, Recorded, SlotsMatch, LinksMatch, Mirrored, Settled,
         DirsOk, Entries, NewInRoot, NoMatch, Scanned, Present, Concat, Content;
    ghost var files, was := t.fs.Files(), t.fs.Stack();
    NoParts();
    MayCreate(t, name);
    var f, c;
    f, c, n1 := CreateWriteClose(t, name, []);
    ghost var files1, now1 := t.fs.Files(), t.fs.Stack();
    StillUnseen(files, files1, was, now1, name, n1);
    MayCreate(t, name);
    f, c, n2 := CreateWriteClose(t, name, []);
    ghost var files2 := t.fs.Files();
    FirstOfTwo(files, files1, files2, was, now1, t.fs.Stack(), name, n1, n2);
    MayReopen(t, name, n1);
    ghost var ino;
    fd, ino := t.Open([name], O_CREAT);
  }

  // The entry that fills a block is not found again.
  lemma StillUnseen(files: seq<FileView>, files1: seq<FileView>, was: seq<word>, now: seq<word>, name: Name, n: int)
    requires Present(files, files1, was, now, name, n, []) && NewInRoot(files, name)
    requires |Entries(files[ROOT_DIR])| % 16 == 15 && (files[ROOT_DIR].ic.size + 32) / 512 < MAX_BLOCKS
    requires exists i, j :: 0 <= i < j < INODES && files[i].ic.mode == files[j].ic.mode == IFZERO
    requires RootGrowth(files) == 0
    ensures NewInRoot(files1, name) && |Entries(files1[ROOT_DIR])| % 16 == 0
    ensures exists i :: 0 <= i < INODES && files1[i].ic.mode == IFZERO
    ensures |now| == |was| - 1 && RootGrowth(files1) <= 2
  {
    hide Entries, Pool, Content, Scanned, NoMatch, GrowNeed;
    var root, root1 := files[ROOT_DIR], files1[ROOT_DIR];
    var i, j :| 0 <= i < j < INODES && files[i].ic.mode == files[j].ic.mode == IFZERO;
    assert i == n ==> files1[j] == files[j];
    assert i != n ==> files1[i] == files[i];
    LastHidden(Entries(root), Entry(n, name), name);
    SizeOfCount(root.ic.size, root1.ic.size, |Entries(root)|);
    GrowAtMost(root1.ic);
  }

  lemma LastHidden(es: seq<Entry>, e: Entry, name: Name)
    requires |es| % 16 == 15 && NoMatch(Scanned(es), name)
    ensures |es + [e]| % 16 == 0 && NoMatch(Scanned(es + [e]), name)
  {
    assert Scanned(es) == es;
  }

  lemma SizeOfCount(size: nat, size1: nat, n: nat)
    requires n == size / 32 && size1 / 32 == n + 1 && (size + 32) / 512 < MAX_BLOCKS
    ensures size1 / 512 < MAX_BLOCKS
  {
    assert (size + 32) / 32 == n + 1;
    assert size1 / 512 == (n + 1) / 16 == (size + 32) / 512;
  }

  lemma GrowAtMost(ic: Icommon)
    ensures GrowNeed(ic) <= 2
  {
  }

  // The entry behind the full block makes the scan complete again.
  lemma FirstOfTwo(files: seq<FileView>, files1: seq<FileView>, files2: seq<FileView>, was: seq<word>, now1: seq<word>,
                   now2: seq<word>, name: Name, n1: word, n2: word)
    requires Present(files, files1, was, now1, name, n1, []) && Present(files1, files2, now1, now2, name, n2, [])
    requires |Entries(files[ROOT_DIR])| % 16 == 15 && NewInRoot(files, name)
    ensures n1 != n2 && n1 < INODES == |files2| && files2[n1].ic.mode == IFREG && files2[ROOT_DIR].ic.mode == IFDIR
    ensures Entries(files2[ROOT_DIR]) == Entries(files[ROOT_DIR]) + [Entry(n1, name)] + [Entry(n2, name)]
    ensures NameToInoSpec(files2[ROOT_DIR], name) == n1
  {
    hide Entries, Pool, Content, FirstMatch;
    var es := Entries(files[ROOT_DIR]);
    AppendFound(es + [Entry(n1, name)], Entry(n2, name), name);
    FirstMatchAt(es + [Entry(n1, name)], |es|, name);
  }

  lemma MayReopen(t: OpenFiles, name: Name, n: word)
    requires t.Valid() && t.fs.Files()[ROOT_DIR].ic.mode == IFDIR && n < INODES && t.fs.Files()[n].ic.mode == IFREG
    requires NameToInoSpec(t.fs.Files()[ROOT_DIR], name) == n
    ensures t.MayOpen([name], O_CREAT) && !Creates(t.fs.Files(), ROOT_DIR, [name])
    ensures Lookup(t.fs.Files(), ROOT_DIR, [name]) == n
  {
    hide Owned, View, Views, EncodeSuper, InodeAt, FreeStack, Recorded, Mirrored, Settled, Entries, NameToInoSpec,
         DirsOk;
    var files, p := t.fs.Files(), [name];
    assert p[1..] == [] && p[0] == name;
    assert Lookup(files, n, []) == n && PathOk(files, n, []);
  }

  // Inode n came and went; everything but the root directory and it is unchanged.
  ghost predicate LivedAs(files: seq<FileView>, files': seq<FileView>, n: nat) {
    && n < |files| == |files'| && files[n].ic.mode == IFZERO
    && files'[n].ic.mode == IFZERO && files'[n].ic.size == 0 && files'[n].addrs == []
    && forall i | 0 < i < |files| && i != n :: files'[i] == files[i]
  }

  // ----- a wiped disk -----

  const PROGRAMS: nat := 8

  // Every program file gets priority 1, as a 32-bit word.
  function Priority(): seq<byte> {
    [1, 0, 0, 0]
  }

  predicate ProgramsOk(names: seq<Name>, entries: seq<seq<byte>>) {
    && |names| == |entries| == PROGRAMS
    && (forall i | 0 <= i < PROGRAMS :: FirstChar(names[i]) != DOT && |entries[i]| == 4)
    && forall i, j | 0 <= i < j < PROGRAMS :: names[i] != names[j]
  }

  /** A wiped disk with the first k program files: they are inodes 1 to k, entered in the root in order,
      each holding its program's entry point and priority. */
  ghost predicate Installed(files: seq<FileView>, names: seq<Name>, entries: seq<seq<byte>>, k: nat) {
    && |files| == INODES && k <= PROGRAMS && ProgramsOk(names, entries)
    && files[ROOT_DIR].ic.mode == IFDIR && |Entries(files[ROOT_DIR])| == 1 + k
    && FirstChar(Entries(files[ROOT_DIR])[0].name) == DOT
    && (forall i | 1 <= i <= k :: Entries(files[ROOT_DIR])[i] == Entry(i, names[i - 1]))
    && (forall i | 1 <= i <= k :: files[i].ic.mode == IFREG && Content(files[i]) == entries[i - 1] + Priority())
    && forall i | k < i < INODES :: files[i].ic.mode == IFZERO
  }

  lemma RoomForName(files: seq<FileView>, names: seq<Name>, entries: seq<seq<byte>>, k: nat, name: Name)
    requires Installed(files, names, entries, k) && DirsOk(files)
    requires FirstChar(name) != DOT && forall i | 0 <= i < k :: names[i] != name
    ensures NewInRoot(files, name) && NoMatch(Entries(files[ROOT_DIR]), name) && RootGrowth(files) == 0
    ensures exists i :: 0 <= i < INODES && files[i].ic.mode == IFZERO
  {
    hide Content, EntryAt;
    assert DirOk(files[ROOT_DIR]);
    var es := Entries(files[ROOT_DIR]);
    assert |es| == files[ROOT_DIR].ic.size / 32;
    assert files[PROGRAMS + 1].ic.mode == IFZERO;
    forall j | 0 <= j < |es|
      ensures es[j].name != name
    {
      assert j > 0 ==> es[j] == Entry(j, names[j - 1]);
    }
  }

  lemma UsedUpTo(files: seq<FileView>, names: seq<Name>, entries: seq<seq<byte>>, k: nat, i: nat)
    requires Installed(files, names, entries, k) && i <= k
    ensures files[i].ic.mode != IFZERO
  {
    hide Content, Entries;
    if i > 0 {
      assert files[i].ic.mode == IFREG;
    }
  }

  // The next unused inode.
  lemma NextNumber(files: seq<FileView>, names: seq<Name>, entries: seq<seq<byte>>, k: nat, n: int)
    requires Installed(files, names, entries, k) && k < PROGRAMS
    requires 0 <= n < INODES && files[n].ic.mode == IFZERO && forall i | 0 <= i < n :: files[i].ic.mode != IFZERO
    ensures n == k + 1
  {
    hide Content, Entries;
    if n <= k {
      UsedUpTo(files, names, entries, k, n);
    }
    assert files[k + 1].ic.mode == IFZERO;
  }

  lemma OneMore(files: seq<FileView>, files2: seq<FileView>, was: seq<word>, now: seq<word>, names: seq<Name>,
                entries: seq<seq<byte>>, k: nat, n: int)
    requires Installed(files, names, entries, k) && k < PROGRAMS
    requires Present(files, files2, was, now, names[k], n, entries[k] + Priority())
    ensures n == k + 1 && Installed(files2, names, entries, k + 1)
  {
    hide Content, Entries, Pool, Priority;
    NextNumber(files, names, entries, k, n);
    var root, root2 := files[ROOT_DIR], files2[ROOT_DIR];
    assert Entries(root2) == Entries(root) + [Entry(n, names[k])];
    assert Entries(root2)[0] == Entries(root)[0];
    forall i | 0 < i < INODES && i != n
      ensures files2[i] == files[i]
    {
    }
  }

  /** createObjFiles: on a freshly formatted disk every program file is created, filled by two writes and
      closed; each takes one block. */
  method InstallPrograms(t: OpenFiles, names: seq<Name>, entries: seq<seq<byte>>)
    requires t.Valid() && t.cwd == ROOT_DIR && !t.Full() && Installed(t.fs.Files(), names, entries, 0)
    requires |t.fs.Stack()| >= PROGRAMS
    modifies t`back, t.ai, t.of, t.fdt, t.fs`live, t.fs`cnt, t.fs`owner, t.fs`incore, t.fs.store, t.fs.store.fdb
    ensures t.Valid() && !t.Full() && Installed(t.fs.Files(), names, entries, PROGRAMS)
    ensures t.fs.Stack() == old(t.fs.Stack())[..|old(t.fs.Stack())| - PROGRAMS]
  {
    hide Owned, View, Views, EncodeSuper, InodeAt, FreeStack, Recorded, SlotsMatch, LinksMatch, Mirrored, Settled,
         DirsOk, Entries, NewInRoot, Present, Content, RootGrowth, Installed;
    for k := 0 to PROGRAMS
      modifies t`back, t.ai, t.of, t.fdt, t.fs`live, t.fs`cnt, t.fs`owner, t.fs`incore, t.fs.store, t.fs.store.fdb
      invariant t.Valid() && !t.Full() && Installed(t.fs.Files(), names, entries, k)
      invariant t.fs.Stack() <= old(t.fs.Stack()) && |t.fs.Stack()| == |old(t.fs.Stack())| - k
    {
      ghost var files, was := t.fs.Files(), t.fs.Stack();
      assert |names| == |entries| == PROGRAMS && ProgramsOk(names, entries) by { Programs(files, names, entries, k); }
      RoomForName(files, names, entries, k, names[k]);
      TwoParts(entries[k], Priority());
      ghost var n;
      var fd, c;
      fd, c, n := CreateWriteClose(t, names[k], [entries[k], Priority()]);
      OneMore(files, t.fs.Files(), was, t.fs.Stack(), names, entries, k, n);
      TookOne(files, t.fs.Files(), was, t.fs.Stack(), names[k], n, entries[k] + Priority());
    }
  }

  /** getProgramEntry: the first eight bytes of the file a path leads to, or -1. */
  method GetProgramEntry(t: OpenFiles, path: seq<Name>, entry: array<byte>, priority: array<byte>) returns (r: int)
    requires t.Valid() && t.MayOpen(path, O_EXIST)
    requires entry != priority && entry.Length == priority.Length == 4
    modifies t`back, t.ai, t.of, t.fdt, t.fs`incore, t.fs`live, t.fs`cnt, t.fs`owner, t.fs.store, t.fs.store.fdb
    modifies entry, priority
    ensures t.Valid() && t.fs.Files() == old(t.fs.Files()) && t.fs.Stack() == old(t.fs.Stack())
    ensures t.fdt[..] == old(t.fdt[..])
    ensures var ino := Lookup(old(t.fs.Files()), ROOT_DIR, path);
            && r == (if ino == -1 || old(t.Full()) then -1 else 0)
            && (r == 0 ==>
                  && 0 <= ino < INODES == |t.fs.Files()|
                  && var c := Content(t.fs.Files()[ino]);
                  && (|c| >= 4 ==> entry[..] == c[..4])
                  && (|c| >= 8 ==> priority[..] == c[4..8]))
  {
    hide Owned, View, Views, EncodeSuper, InodeAt, FreeStack, Recorded, SlotsMatch, LinksMatch, Mirrored, Settled,
         DirsOk, Content, Lookup, PathOk, NameToInoSpec, Untouched;
    Resolves(t, path);
    var i := PathToIno(t.fs, path, ROOT_DIR);
    if i == -1 {
      return -1;
    }
    ghost var ino;
    var fd;
    fd, ino := t.Open(path, O_EXIST);
    if fd == -1 {
      return -1;
    }
    r := ReadAndClose(t, fd, entry, priority);
    assert t.fdt[..] == old(t.fdt[..]);
  }

  method ReadAndClose(t: OpenFiles, fd: int, a: array<byte>, b: array<byte>) returns (r: int)
    requires t.Valid() && t.IsOpen(fd) && t.Offset(fd) == 0 && a != b && a.Length == b.Length == 4
    modifies t.ai, t.of, t.fdt, t.fs`incore, t.fs.store`disk, t.fs.store`log, a, b
    ensures t.Valid() && r == 0 && t.fs.Files() == old(t.fs.Files()) && t.fs.Stack() == old(t.fs.Stack())
    ensures t.fdt[..] == old(t.fdt[..])[t.FdSlot(fd) := NULL]
    ensures old(t.Ino(fd)) < INODES == |t.fs.Files()|
    ensures var c := Content(t.fs.Files()[old(t.Ino(fd))]);
            (|c| >= 4 ==> a[..] == c[..4]) && (|c| >= 8 ==> b[..] == c[4..8])
  {
    hide Owned, View, Views, EncodeSuper, InodeAt, FreeStack, Recorded, SlotsMatch, LinksMatch, Mirrored, Settled,
         DirsOk, Content, Untouched;
    BehindFacts(t, fd);
    ReadTwo(t, fd, a, b);
    r := t.Close(fd);
  }

  lemma Resolves(t: OpenFiles, path: seq<Name>)
    requires t.Valid() && t.MayOpen(path, O_EXIST)
    ensures PathOk(t.fs.Files(), ROOT_DIR, path) && DirsOnDisk(t.fs)
    ensures var ino := Lookup(t.fs.Files(), ROOT_DIR, path); ino != -1 ==> 0 <= ino < INODES == |t.fs.Files()|
  {
    hide Owned, View, Views, EncodeSuper, InodeAt, FreeStack, Recorded, SlotsMatch, LinksMatch, Settled;
    t.DirsAreOnDisk();
  }

  // Two reads of four bytes from the start of an open file.
  method ReadTwo(t: OpenFiles, fd: int, a: array<byte>, b: array<byte>)
    requires t.Valid() && t.IsOpen(fd) && t.Offset(fd) == 0 && a != b && a.Length == b.Length == 4
    modifies t.of, a, b
    ensures t.Valid() && t.IsOpen(fd) && t.Ino(fd) == old(t.Ino(fd)) < INODES
    ensures var c := Content(old(t.FileOf(fd)));
            (|c| >= 4 ==> a[..] == c[..4]) && (|c| >= 8 ==> b[..] == c[4..8])
  {
    hide Owned, View, Views, EncodeSuper, InodeAt, FreeStack, Recorded, SlotsMatch, LinksMatch, Mirrored, Settled,
         DirsOk, Content, Untouched;
    BehindFacts(t, fd);
    ghost var f := t.FileOf(fd);
    var r := t.Fread(fd, a, 4);
    BehindFacts(t, fd);
    assert t.FileOf(fd) == f;
    assert |Content(f)| == f.ic.size;
    assert r == 0 ==> a[..4] == a[..];
    r := t.Fread(fd, b, 4);
    BehindFacts(t, fd);
    assert b[..4] == b[..];
  }

  // Where the path of a program file leads.
  lemma ProgramPath(files: seq<FileView>, names: seq<Name>, entries: seq<seq<byte>>, i: nat)
    requires Installed(files, names, entries, PROGRAMS) && i < PROGRAMS
    ensures PathOk(files, ROOT_DIR, [names[i]]) && Lookup(files, ROOT_DIR, [names[i]]) == i + 1
    ensures files[i + 1].ic.mode == IFREG && Content(files[i + 1]) == entries[i] + Priority()
  {
    hide Content, Entries, FirstMatch;
    var es, name, p := Entries(files[ROOT_DIR]), names[i], [names[i]];
    assert es[1 + i] == Entry(i + 1, name);
    var before := es[..1 + i];
    forall k | 0 <= k < |before|
      ensures before[k].name != name
    {
      if k > 0 {
        assert es[k] == Entry(k, names[k - 1]);
      }
    }
    FirstMatchAt(es, 1 + i, name);
    assert NameToInoSpec(files[ROOT_DIR], name) == i + 1;
    assert p[1..] == [] && p[0] == name;
    assert Lookup(files, i + 1, []) == i + 1 && PathOk(files, i + 1, []);
  }

  /** What exec reads of an installed program: its entry point and its priority, through an open of the
      existing file. */
  method ReadProgram(t: OpenFiles, names: seq<Name>, ghost entries: seq<seq<byte>>, i: nat) returns (entry: array<byte>,
      priority: array<byte>)
    requires t.Valid() && !t.Full() && Installed(t.fs.Files(), names, entries, PROGRAMS) && i < PROGRAMS == |names|
    modifies t`back, t.ai, t.of, t.fdt, t.fs`incore, t.fs`live, t.fs`cnt, t.fs`owner, t.fs.store, t.fs.store.fdb
    ensures t.Valid() && t.fs.Files() == old(t.fs.Files()) && t.fdt[..] == old(t.fdt[..])
    ensures i < |entries| && entry[..] == entries[i] && priority[..] == [1, 0, 0, 0]
  {
    hide Owned, View, Views, EncodeSuper, InodeAt, FreeStack, Recorded, SlotsMatch, LinksMatch, Mirrored, Settled,
         DirsOk, Content, Lookup, PathOk, Untouched, Installed;
    Programs(t.fs.Files(), names, entries, PROGRAMS);
    ProgramPath(t.fs.Files(), names, entries, i);
    entry, priority := new byte[4](_ => 0), new byte[4](_ => 0);
    assert |t.fs.Files()| == INODES;
    var r := GetProgramEntry(t, [names[i]], entry, priority);
    EightBytes(entries[i]);
  }

  lemma EightBytes(entry: seq<byte>)
    requires |entry| == 4
    ensures var c := entry + Priority(); |c| == 8 && c[..4] == entry && c[4..8] == [1, 0, 0, 0]
  {
  }

  lemma Programs(files: seq<FileView>, names: seq<Name>, entries: seq<seq<byte>>, k: nat)
    requires Installed(files, names, entries, k)
    ensures ProgramsOk(names, entries)
  {
  }

  lemma TwoParts(a: seq<byte>, b: seq<byte>)
    ensures Concat([a, b]) == a + b
  {
    var parts := [a, b];
    assert parts[1..] == [b] && [b][1..] == [] && Concat([]) == [];
  }

  lemma TookOne(files: seq<FileView>, files2: seq<FileView>, was: seq<word>, now: seq<word>, name: Name, n: int,
                data: seq<byte>)
    requires Present(files, files2, was, now, name, n, data) && RootGrowth(files) == 0 && |data| < 512
    ensures now <= was && |now| == |was| - 1
  {
    hide Content, Entries, Pool;
  }

  lemma ValidIsNoDup(t: OpenFiles)
    requires t.Valid()
    ensures NoDup(t.fs.Stack())
  {
    hide EncodeSuper, FreeStack, View, Mirrored, DirsOk, InodeAt;
    Exclusive(t.fs.store.disk, t.fs.Stack(), t.fs.live, t.fs.cnt, t.fs.owner);
  }

  // Which sizes leave the free list at level 51 on a freshly wiped disk.
  lemma ClobberingSizes(size: nat)
    requires size / 512 < MAX_BLOCKS
    ensures NeedBlocks(0, size / 512) <= MAX_BLOCKS
    ensures size > 12 * 512 && (LIST_LEN - 2 - PROGRAMS - NeedBlocks(0, size / 512)) % 64 == 51 <==>
            size / 512 == 63 || size / 512 == 127
  {
  }

  lemma NoneInstalled(files: seq<FileView>, names: seq<Name>, entries: seq<seq<byte>>)
    requires |files| == INODES && ProgramsOk(names, entries) && files[ROOT_DIR].ic.mode == IFDIR
    requires |Entries(files[ROOT_DIR])| == 1 && Entries(files[ROOT_DIR])[0].name[..3] == [1, 0, 46]
    requires forall i | 0 < i < INODES :: files[i].ic.mode == IFZERO
    ensures Installed(files, names, entries, 0)
  {
    assert Entries(files[ROOT_DIR])[0].name[..3][2] == DOT;
  }

  // The whole of wipe, on a kernel with no file open.
  method WipeAll(fs: FileSystem, junk: DirBlock, inodes: seq<Inode>, names: seq<Name>, entries: seq<seq<byte>>)
    returns (t: OpenFiles)
    requires fs.store.Sized() && fs.incore == {} && ProgramsOk(names, entries)
    requires |inodes| == AIT_LIMIT && forall a, b | 0 <= a < b < AIT_LIMIT :: inodes[a] != inodes[b]
    requires forall a | 0 <= a < AIT_LIMIT :: inodes[a].links == 0 && inodes[a].ic.mode == IFZERO
    modifies fs, fs.store, fs.store.fdb, inodes
    ensures t.fs == fs && t.ai == inodes && fresh(t) && fresh(t.of) && fresh(t.fdt) && t.Valid() && t.cwd == ROOT_DIR
    ensures !t.Full()
    ensures Installed(fs.Files(), names, entries, PROGRAMS)
    ensures fs.Stack() == FormatStack()[..LIST_LEN - 1 - PROGRAMS]
    ensures !fs.freed && OnlyRootBlock(old(fs.store.disk), fs.mark)
  {
    hide Owned, View, Views, EncodeSuper, InodeAt, FreeStack, Recorded, SlotsMatch, LinksMatch, Mirrored, Settled,
         DirsOk, Entries, FormatStack, FormatAt, Content, Untouched, OnlyRootBlock, Installed, ProgramsOk;
    Format(fs, junk);
    NoneInstalled(fs.Files(), names, entries);
    t := new OpenFiles(fs, inodes);
    assert t.fdt[t.FdSlot(0)] == NULL;
    InstallPrograms(t, names, entries);
  }

  /** The life of the first user file on a freshly wiped disk: the free list is corrupted exactly by files
      whose last block has number 63 or 127. */
  method FirstFile(fs: FileSystem, junk: DirBlock, inodes: seq<Inode>, names: seq<Name>, entries: seq<seq<byte>>,
                   name: Name, parts: seq<seq<byte>>) returns (t: OpenFiles)
    requires fs.store.Sized() && fs.incore == {} && ProgramsOk(names, entries)
    requires |inodes| == AIT_LIMIT && forall a, b | 0 <= a < b < AIT_LIMIT :: inodes[a] != inodes[b]
    requires forall a | 0 <= a < AIT_LIMIT :: inodes[a].links == 0 && inodes[a].ic.mode == IFZERO
    requires FirstChar(name) != DOT && name !in names && |Concat(parts)| / 512 < MAX_BLOCKS
    modifies fs, fs.store, fs.store.fdb, inodes
    ensures t.fs == fs && fs.store.Ok()
    ensures NoDup(fs.Stack()) <==> |Concat(parts)| / 512 != 63 && |Concat(parts)| / 512 != 127
    ensures NoDup(fs.Stack()) ==>
              && t.Valid()
              && (multiset(fs.Stack()) == multiset(FormatStack()[..LIST_LEN - 1 - PROGRAMS]) <==>
                    |Concat(parts)| % 512 != 0)
  {
    hide Owned, View, Views, EncodeSuper, InodeAt, FreeStack, Recorded, SlotsMatch, LinksMatch, Mirrored, Settled,
         DirsOk,
         Entries, NewInRoot, Concat, NoDup, FormatStack, FormatAt, RootGrowth, Present, NeedBlocks, Content, Installed;
    ClobberingSizes(|Concat(parts)|);
    t := WipeAll(fs, junk, inodes, names, entries);
    RoomForName(fs.Files(), names, entries, PROGRAMS, name);
    assert |Entries(fs.Files()[ROOT_DIR])| == 1 + PROGRAMS by { InstalledCount(fs.Files(), names, entries); }
    ghost var n;
    var fd, c, u;
    fd, c, u, n := CreateWriteDelete(t, name, parts);
    if |Concat(parts)| / 512 != 63 && |Concat(parts)| / 512 != 127 {
      ValidIsNoDup(t);
    }
  }

  lemma InstalledCount(files: seq<FileView>, names: seq<Name>, entries: seq<seq<byte>>)
    requires Installed(files, names, entries, PROGRAMS)
    ensures |Entries(files[ROOT_DIR])| == 1 + PROGRAMS
  {
  }
}

/** Resolving paths (as token sequences) and creating a file at the end of one. */
module Paths {
  import opened Bytes
  import opened Formats
  import opened FreeChain
  import opened FileMap
  import opened Inodes
  import opened FileSys
  import opened Attach
  import opened Directory

  const NO_INODE: int := -2

  /** The inode a path leads to from directory `dir`, -1 if some token is not found. */
  function Lookup(files: seq<FileView>, dir: int, toks: seq<Name>): int
    decreases toks
  {
    if toks == [] || !(0 <= dir < |files|) then dir else Lookup(files, NameToInoSpec(files[dir], toks[0]), toks[1..])
  }

  /** Every inode the walk visits is a directory. */
  ghost predicate PathOk(files: seq<FileView>, dir: int, toks: seq<Name>)
    decreases toks
  {
    toks == [] || dir == -1
    || (&& 0 <= dir < |files| && files[dir].ic.mode == IFDIR
        && PathOk(files, NameToInoSpec(files[dir], toks[0]), toks[1..]))
  }

  lemma {:induction false} LookupSnoc(files: seq<FileView>, dir: int, toks: seq<Name>, t: Name)
    requires PathOk(files, dir, toks + [t])
    ensures PathOk(files, dir, toks)
    ensures var p := Lookup(files, dir, toks);
            && (p == -1 ==> Lookup(files, dir, toks + [t]) == -1)
            && (p != -1 ==>
                  && 0 <= p < |files| && files[p].ic.mode == IFDIR
                  && Lookup(files, dir, toks + [t]) == NameToInoSpec(files[p], t))
    decreases toks
  {
    hide NameToInoSpec;
    if toks == [] {
      assert toks + [t] == [t] && [t][1..] == [];
    } else {
      assert (toks + [t])[0] == toks[0] && (toks + [t])[1..] == toks[1..] + [t];
      if dir != -1 {
        LookupSnoc(files, NameToInoSpec(files[dir], toks[0]), toks[1..], t);
      }
    }
  }

  lemma {:induction false} LookupPrefix(files: seq<FileView>, dir: int, toks: seq<Name>, k: nat)
    requires PathOk(files, dir, toks) && k <= |toks|
    ensures PathOk(files, dir, toks[..k])
    ensures Lookup(files, dir, toks[..k]) == -1 ==> Lookup(files, dir, toks) == -1
    decreases |toks| - k
  {
    if k < |toks| {
      LookupPrefix(files, dir, toks, k + 1);
      assert toks[..k + 1] == toks[..k] + [toks[k]];
      LookupSnoc(files, dir, toks[..k], toks[k]);
    } else {
      assert toks[..k] == toks;
    }
  }

  // No directory has a private in-core copy.
  ghost predicate DirsOnDisk(fs: FileSystem)
    requires |fs.live| == INODES
    reads fs
  {
    forall i | 0 <= i < INODES && fs.live[i].mode == IFDIR :: i !in fs.incore
  }

  lemma OnDisk(fs: FileSystem, i: nat)
    requires fs.Sound() && DirsOnDisk(fs) && i < INODES && fs.live[i].mode == IFDIR
    ensures InodeAt(fs.store.disk, i) == fs.live[i]
  {
    hide Owned, InodeAt;
  }

  // One step of the walk: the inode after token k, and the facts the next step needs.
  lemma WalkStep(fs: FileSystem, files: seq<FileView>, dir: int, toks: seq<Name>, k: nat)
    requires fs.Sound() && files == fs.Files() && PathOk(files, dir, toks) && k < |toks|
    requires Lookup(files, dir, toks[..k]) != -1
    ensures var p := Lookup(files, dir, toks[..k]);
            && 0 <= p < INODES && fs.live[p].mode == IFDIR
            && Lookup(files, dir, toks[..k + 1]) == NameToInoSpec(files[p], toks[k])
  {
    hide Owned, Recorded, EncodeSuper, FreeStack, View, NameToInoSpec, PathOk, Lookup;
    LookupPrefix(files, dir, toks, k + 1);
    assert toks[..k + 1] == toks[..k] + [toks[k]];
    LookupSnoc(files, dir, toks[..k], toks[k]);
    FileRecord(fs, Lookup(files, dir, toks[..k]));
  }

  /** path_to_ino. */
  method PathToIno(fs: FileSystem, toks: seq<Name>, dir: int) returns (ino: int)
    requires fs.Valid() && DirsOnDisk(fs) && PathOk(fs.Files(), dir, toks)
    ensures ino == Lookup(fs.Files(), dir, toks)
  {
    hide Owned, View, Views, EncodeSuper, InodeAt, FreeStack, Recorded, NameToInoSpec, PathOk, Lookup;
    ghost var files := fs.Files();
    var inode := new Inode();
    ino := dir;
    var t := 0;
    assert Lookup(files, dir, toks[..0]) == dir by { NoTokens(files, dir); }
    while t < |toks| && ino != -1
      modifies inode
      invariant 0 <= t <= |toks| && ino == Lookup(files, dir, toks[..t])
    {
      WalkStep(fs, files, dir, toks, t);
      OnDisk(fs, ino);
      fs.ReadInode(inode, ino);
      ino := NameToIno(fs, toks[t], inode);
      t := t + 1;
    }
    assert toks[..|toks|] == toks;
    LookupPrefix(files, dir, toks, t);
  }

  lemma NoTokens(files: seq<FileView>, dir: int)
    ensures Lookup(files, dir, []) == dir
  {
  }

  // ----- creating a file -----

  /** getFreeInode: claims the lowest-numbered unused inode, keeping whatever addresses the
      record held before. */
  method GetFreeInode(fs: FileSystem, inode: Inode) returns (found: bool)
    requires fs.store.Sized()
    modifies inode`number, inode`ic
    ensures found ==> inode.number < INODES && InodeAt(fs.store.disk, inode.number).mode == IFZERO
                      && (forall i | 0 <= i < inode.number :: InodeAt(fs.store.disk, i).mode != IFZERO)
                      && inode.ic == old(inode.ic).(mode := IFREG, size := 0)
    ensures !found ==> forall i | 0 <= i < INODES :: InodeAt(fs.store.disk, i).mode != IFZERO
    ensures !found ==> inode.number == old(inode.number) && inode.ic == old(inode.ic)
  {
    hide DecodeInodes;
    for i := 0 to 512 / 8
      invariant inode.number == old(inode.number) && inode.ic == old(inode.ic)
      invariant forall k | 0 <= k < 8 * i :: InodeAt(fs.store.disk, k).mode != IFZERO
    {
      var b := fs.store.ReadBlock(FIRST_INODE_BLOCK + i);
      var ic := DecodeInodes(b);
      for j := 0 to 8
        invariant inode.number == old(inode.number) && inode.ic == old(inode.ic)
        invariant forall k | 0 <= k < 8 * i + j :: InodeAt(fs.store.disk, k).mode != IFZERO
      {
        assert InodeAt(fs.store.disk, 8 * i + j) == ic[j];
        if ic[j].mode == IFZERO {
          inode.number := 8 * i + j;
          inode.ic := inode.ic.(mode := IFREG, size := 0);
          return true;
        }
      }
    }
    return false;
  }

  /** The first block of a new inode. */
  lemma AttachNew(d: seq<Block>, d': seq<Block>, stack: seq<word>, live: seq<Icommon>, cnt: seq<nat>, owner: seq<Owner>,
                  i: nat, ic: Icommon, a: word)
    requires Owned(d, stack, live, cnt, owner) && i < INODES && cnt[i] == 0
    requires IsData(a) && owner[a] == Nobody
    requires |d'| == DISK_BLOCKS && forall b | IsData(b) :: d'[b] == d[b]
    ensures var ic' := WithDirect(ic, 0, a);
            && Owned(d', stack, live[i := ic'], cnt[i := 1], owner[a := Slot(i, 0)])
            && Views(d', live[i := ic'], cnt[i := 1]) == Views(d, live, cnt)[i := FileView(ic', [a], [d[a]])]
  {
    hide Owned, SlotAddr;
    assert |live| == |cnt| == INODES && |d| == DISK_BLOCKS by { OwnedSizes(d, stack, live, cnt, owner); }
    Relabel(d, d, stack, live, cnt, owner, i, ic);
    var live1 := live[i := ic];
    AttachDirect(d, d', stack, live1, cnt, owner, i, a);
    assert live1[i := WithDirect(ic, 0, a)] == live[i := WithDirect(ic, 0, a)];
    assert Extend(View(d, ic, 0), WithDirect(ic, 0, a), a, d[a]) == FileView(WithDirect(ic, 0, a), [a], [d[a]]);
  }

  // Writes the record of a fresh regular file whose block 0 is addr.
  method InstallNew(fs: FileSystem, inode: Inode, addr: word)
    requires fs.Sound() && inode.number < INODES && fs.cnt[inode.number] == 0
    requires IsData(addr) && fs.owner[addr] == Nobody
    modifies fs`live, fs`cnt, fs`owner, fs.store`disk, fs.store`log, inode`ic
    ensures fs.Sound() && fs.Stack() == old(fs.Stack())
    ensures inode.ic == WithDirect(old(inode.ic), 0, addr)
    ensures fs.live == old(fs.live)[inode.number := inode.ic] && fs.cnt == old(fs.cnt)[inode.number := 1]
    ensures fs.OnlyFile(inode.number, FileView(inode.ic, [addr], [old(fs.store.disk)[addr]]))
  {
    hide EncodeSuper, FreeStack, View, Views, ToWords, Owned, InodeAt;
    var i := inode.number;
    inode.ic := inode.ic.(db := inode.ic.db[0 := addr]);
    fs.WriteInode(inode);
    AttachNew(old(fs.store.disk), fs.store.disk, fs.Stack(), fs.live, fs.cnt, fs.owner, i, old(inode.ic), addr);
    fs.live, fs.cnt, fs.owner := fs.live[i := inode.ic], fs.cnt[i := 1], fs.owner[addr := Slot(i, 0)];
  }

  /** path_to_ino2 reaches its creation branch: all tokens but the last resolve, the last does not. */
  ghost predicate Creates(files: seq<FileView>, dir: int, toks: seq<Name>) {
    toks != [] && Lookup(files, dir, toks) == -1 && Lookup(files, dir, toks[..|toks| - 1]) != -1
  }

  function Last(toks: seq<Name>): Name
    requires toks != []
  {
    toks[|toks| - 1]
  }

  // The directory the new file goes into.
  function ParentOf(files: seq<FileView>, dir: int, toks: seq<Name>): int
    requires toks != []
  {
    Lookup(files, dir, toks[..|toks| - 1])
  }

  // What creation needs: a proper parent directory with room, and blocks for file and directory.
  ghost predicate RoomToCreate(files: seq<FileView>, stack: seq<word>, p: int) {
    && 0 <= p < |files| && IsDir(files[p].ic) && files[p].ic.size / 512 < MAX_BLOCKS
    && |stack| >= 1 + GrowNeed(files[p].ic)
  }

  /** files' is files with one new empty file, number n, entered as `name` at the end of directory p. */
  ghost predicate Created(files: seq<FileView>, files': seq<FileView>, p: int, n: word, name: Name, a: word) {
    && |files'| == |files| && 0 <= p < |files| && 0 <= n < |files| && p != n
    && files[n].ic.mode == IFZERO && (forall i | 0 <= i < n :: files[i].ic.mode != IFZERO)
    && (forall i | 0 <= i < |files| && i != p && i != n :: files'[i] == files[i])
    && files'[n].ic.mode == IFREG && files'[n].ic.size == 0 && files'[n].addrs == [a]
    && files'[p].ic.mode == IFDIR && files'[p].ic.size == files[p].ic.size + 32
    && Entries(files'[p]) == Entries(files[p]) + [Entry(n, name)]
    && files[p].addrs <= files'[p].addrs
  }

  lemma PathFacts(fs: FileSystem, files: seq<FileView>, dir: int, toks: seq<Name>)
    requires fs.Sound() && files == fs.Files() && PathOk(files, dir, toks) && Creates(files, dir, toks)
    ensures 0 <= ParentOf(files, dir, toks) < INODES
    ensures fs.live[ParentOf(files, dir, toks)].mode == IFDIR
  {
    WalkStep(fs, files, dir, toks, |toks| - 1);
  }

  /** path_to_ino2: resolves a path, creating a regular file exactly when all tokens but the last
      resolve and the last does not (-2 if no inode is free then). */
  method PathToIno2(fs: FileSystem, toks: seq<Name>, dir: int) returns (ino: int)
    requires fs.Valid() && DirsOnDisk(fs) && PathOk(fs.Files(), dir, toks) && dir >= 0
    requires Creates(fs.Files(), dir, toks) ==> RoomToCreate(fs.Files(), fs.Stack(), ParentOf(fs.Files(), dir, toks))
    modifies fs`live, fs`cnt, fs`owner, fs.store, fs.store.fdb
    ensures fs.Valid() && DirsOnDisk(fs)
    ensures !Creates(old(fs.Files()), dir, toks) || ino == NO_INODE ==>
              fs.Files() == old(fs.Files()) && fs.Stack() == old(fs.Stack())
    ensures !Creates(old(fs.Files()), dir, toks) ==> ino == Lookup(old(fs.Files()), dir, toks)
    ensures Creates(old(fs.Files()), dir, toks) ==>
              (ino == NO_INODE <==> forall i | 0 <= i < INODES :: old(fs.live)[i].mode != IFZERO)
    ensures Creates(old(fs.Files()), dir, toks) && ino != NO_INODE ==>
              var files, was, p := old(fs.Files()), old(fs.Stack()), ParentOf(old(fs.Files()), dir, toks);
              && 0 <= ino < INODES && was != []
              && Created(files, fs.Files(), p, ino, Last(toks), was[|was| - 1])
              && fs.Stack() == was[..|was| - 1 - GrowNeed(files[p].ic)]
  {
    hide Owned, View, Views, EncodeSuper, InodeAt, FreeStack, Recorded, NameToInoSpec, PathOk, Lookup, Entries,
         Created, RoomToCreate;
    var inode := new Inode();
    var ino0, t;
    ino, ino0, t := Walk(fs, toks, dir, inode);
    if t < |toks| && ino == -1 {
      return -1;
    } else if t == |toks| && ino == -1 {
      PathFacts(fs, fs.Files(), dir, toks);
      var found := GetFreeInode(fs, inode);
      ModesOnDisk(fs);
      if !found {
        return NO_INODE;
      }
      Create(fs, inode, ino0, toks[|toks| - 1]);
      return inode.number;
    }
  }

  // The walk of path_to_ino2: stops after token t - 1 at inode ino, coming from directory ino0.
  method Walk(fs: FileSystem, toks: seq<Name>, dir: int, inode: Inode) returns (ino: int, ino0: int, t: nat)
    requires fs.Valid() && DirsOnDisk(fs) && PathOk(fs.Files(), dir, toks) && dir >= 0
    modifies inode
    ensures t <= |toks| && (ino != -1 ==> t == |toks| && ino == Lookup(fs.Files(), dir, toks))
    ensures ino == -1 ==> Lookup(fs.Files(), dir, toks) == -1 && toks != []
    ensures ino == -1 ==> (t == |toks| <==> Creates(fs.Files(), dir, toks))
    ensures ino == -1 && t == |toks| ==> ino0 == ParentOf(fs.Files(), dir, toks)
  {
    hide Owned, View, Views, EncodeSuper, InodeAt, FreeStack, Recorded, NameToInoSpec, PathOk, Lookup, Entries;
    ghost var files := fs.Files();
    ino, ino0 := dir, dir;
    t := 0;
    assert Lookup(files, dir, toks[..0]) == dir by { NoTokens(files, dir); }
    while t < |toks| && ino != -1
      modifies inode
      invariant 0 <= t <= |toks| && ino == Lookup(files, dir, toks[..t])
      invariant t > 0 ==> ino0 == Lookup(files, dir, toks[..t - 1]) && ino0 != -1
      invariant t == 0 ==> ino != -1
    {
      WalkStep(fs, files, dir, toks, t);
      OnDisk(fs, ino);
      fs.ReadInode(inode, ino);
      ino0 := ino;
      ino := NameToIno(fs, toks[t], inode);
      t := t + 1;
    }
    assert toks[..|toks|] == toks;
    LookupPrefix(files, dir, toks, t);
    if t < |toks| {
      LookupPrefix(files, dir, toks, |toks| - 1);
      LookupPrefix(files, dir, toks[..|toks| - 1], t);
      assert toks[..|toks| - 1][..t] == toks[..t];
    }
  }

  lemma ModesOnDisk(fs: FileSystem)
    requires fs.Sound()
    ensures forall i | 0 <= i < INODES :: InodeAt(fs.store.disk, i).mode == fs.live[i].mode
  {
  }

  // The creation branch of path_to_ino2.
  method Create(fs: FileSystem, inode: Inode, ino0: word, name: Name)
    requires fs.Valid() && DirsOnDisk(fs) && RoomToCreate(fs.Files(), fs.Stack(), ino0) && ino0 < INODES
    requires inode.number < INODES && fs.live[inode.number].mode == IFZERO && inode.ic.mode == IFREG
    requires inode.ic.size == 0
    requires forall i | 0 <= i < inode.number :: fs.live[i].mode != IFZERO
    modifies fs`live, fs`cnt, fs`owner, fs.store, fs.store.fdb, inode`ic
    ensures fs.Valid() && DirsOnDisk(fs)
    ensures var files, was := old(fs.Files()), old(fs.Stack());
            && was != []
            && Created(files, fs.Files(), ino0, inode.number, name, was[|was| - 1])
            && fs.Stack() == was[..|was| - 1 - GrowNeed(files[ino0].ic)]
  {
    hide Owned, View, Views, EncodeSuper, InodeAt, FreeStack, Recorded, NameToInoSpec, Entries, Pool, Created;
    ghost var n, files, was := inode.number, fs.Files(), fs.Stack();
    Records(fs);
    assert Settled(fs.live[n], fs.cnt[n]);
    assert IsDir(fs.live[ino0]);
    var addr := fs.Balloc();
    InstallNew(fs, inode, addr);
    Records(fs);
    ghost var mid := fs.Files();
    assert fs.live[ino0] == old(fs.live)[ino0];
    EnterName(fs, ino0, inode.number, name);
    CreatedNow(files, mid, fs.Files(), ino0, n, name, was[|was| - 1]);
  }

  // Reads directory p and enters inode n under the name.
  method EnterName(fs: FileSystem, p: word, n: word, name: Name)
    requires fs.Valid() && DirsOnDisk(fs) && p < INODES && IsDir(fs.live[p])
    requires fs.live[p].size / 512 < MAX_BLOCKS && |fs.Stack()| >= GrowNeed(fs.live[p])
    modifies fs`live, fs`cnt, fs`owner, fs.store, fs.store.fdb
    ensures fs.Valid() && DirsOnDisk(fs)
    ensures fs.Stack() == old(fs.Stack())[..|old(fs.Stack())| - GrowNeed(old(fs.live[p]))]
    ensures var f, f' := old(fs.Files()[p]), fs.Files()[p];
            && fs.OnlyFile(p, f') && f'.ic.mode == IFDIR && f'.ic.size == old(fs.live[p].size) + 32
            && Entries(f') == Entries(f) + [Entry(n, name)] && f.addrs <= f'.addrs
  {
    hide Owned, View, Views, EncodeSuper, InodeAt, FreeStack, Recorded, Entries, Pool;
    var parent := new Inode();
    OnDisk(fs, p);
    fs.ReadInode(parent, p);
    AddInodeToDirectory(fs, parent, n, name);
  }

  lemma CreatedNow(files: seq<FileView>, mid: seq<FileView>, files': seq<FileView>, p: nat, n: word, name: Name,
                   a: word)
    requires |files| == |mid| == |files'| && p < |files| && n < |files| && p != n
    requires files[n].ic.mode == IFZERO && forall i | 0 <= i < n :: files[i].ic.mode != IFZERO
    requires mid == files[n := mid[n]] && mid[n].ic.mode == IFREG && mid[n].ic.size == 0 && mid[n].addrs == [a]
    requires files' == mid[p := files'[p]] && files'[p].ic.mode == IFDIR && files'[p].ic.size == files[p].ic.size + 32
    requires Entries(files'[p]) == Entries(files[p]) + [Entry(n, name)] && files[p].addrs <= files'[p].addrs
    ensures Created(files, files', p, n, name, a)
  {
    hide Entries;
  }

  lemma Records(fs: FileSystem)
    requires fs.Sound()
    ensures forall i | 0 <= i < INODES :: fs.Files()[i].ic == fs.live[i]
  {
    hide Owned;
    forall i | 0 <= i < INODES
      ensures fs.Files()[i].ic == fs.live[i]
    {
      FileRecord(fs, i);
    }
  }

  // ----- what creation means for paths -----

  /** What the parent finds under the new name after a creation: nothing if its new entry count is a
      multiple of 16, else the new inode, unless an entry of that name was hidden in a full last block. */
  lemma NewNameFound(files: seq<FileView>, files': seq<FileView>, p: int, n: word, name: Name, a: word)
    requires Created(files, files', p, n, name, a) && NameToInoSpec(files[p], name) == -1
    ensures NameToInoSpec(files'[p], name)
         == if |Entries(files'[p])| % 16 == 0 then -1
            else if NoMatch(Entries(files[p]), name) then n else FirstMatch(Entries(files[p]), name)
  {
    hide Entries, FirstMatch;
    var es := Entries(files[p]);
    FirstMatchNone(Scanned(es), name);
    if |es + [Entry(n, name)]| % 16 == 0 {
      FirstMatchNone(Scanned(es + [Entry(n, name)]), name);
    } else {
      AppendFound(es, Entry(n, name), name);
    }
  }

  /** A name that resolved in the parent resolves as before if and only if the scan after the creation
      still comes across it. That is so whenever the new entry count is no multiple of 16. */
  lemma OldNameKept(files: seq<FileView>, files': seq<FileView>, p: int, n: word, name: Name, a: word, other: Name)
    requires Created(files, files', p, n, name, a)
    requires NameToInoSpec(files[p], other) != -1
    ensures NameToInoSpec(files'[p], other)
         == if NoMatch(Scanned(Entries(files'[p])), other) then -1 else NameToInoSpec(files[p], other)
    ensures |Entries(files'[p])| % 16 != 0 ==> !NoMatch(Scanned(Entries(files'[p])), other)
  {
    hide Entries, FirstMatch;
    var es, es' := Entries(files[p]), Entries(files'[p]);
    var seen, seen' := Scanned(es), Scanned(es');
    FirstMatchNone(seen, other);
    FirstMatchNone(seen', other);
    if |seen| <= |seen'| {
      assert seen' == seen + seen'[|seen|..];
      FirstMatchPrefix(seen, seen'[|seen|..], other);
    } else {
      assert seen == seen' + seen[|seen'|..];
      FirstMatchPrefix(seen', seen[|seen'|..], other);
    }
  }

  /** Wherever the walk looks a name up in directory p, the scan of p in files' comes across that name. */
  ghost predicate StillSeen(files: seq<FileView>, files': seq<FileView>, p: int, dir: int, toks: seq<Name>)
    requires 0 <= p < |files'|
    decreases toks
  {
    toks == [] || !(0 <= dir < |files|)
    || (&& (dir == p ==> !NoMatch(Scanned(Entries(files'[p])), toks[0]))
        && StillSeen(files, files', p, NameToInoSpec(files[dir], toks[0]), toks[1..]))
  }

  /** A path that resolved before a creation resolves to the same inode afterwards if and only if the
      parent's scan still comes across the names looked up there; else it is not found. */
  lemma {:induction false} OldPathsKept(files: seq<FileView>, files': seq<FileView>, p: int, n: word, name: Name,
                                        a: word, dir: int, toks: seq<Name>)
    requires Created(files, files', p, n, name, a)
    requires PathOk(files, dir, toks) && Lookup(files, dir, toks) != -1
    ensures PathOk(files', dir, toks)
    ensures Lookup(files', dir, toks) == if StillSeen(files, files', p, dir, toks) then Lookup(files, dir, toks) else -1
    ensures |Entries(files'[p])| % 16 != 0 ==> StillSeen(files, files', p, dir, toks)
    decreases toks
  {
    hide Entries, NameToInoSpec, FirstMatch;
    if toks != [] {
      var next := NameToInoSpec(files[dir], toks[0]);
      assert next != -1 by {
        if next == -1 {
          MissingStays(files, toks[1..]);
        }
      }
      MissingStays(files', toks[1..]);
      if dir == p {
        OldNameKept(files, files', p, n, name, a, toks[0]);
      }
      OldPathsKept(files, files', p, n, name, a, next, toks[1..]);
    }
  }

  lemma MissingStays(files: seq<FileView>, toks: seq<Name>)
    ensures Lookup(files, -1, toks) == -1
  {
  }

  /** Create-on-open end to end: where the created path leads. It leads to the new inode if and only if the
      parent's new entry count is no multiple of 16 and no entry of that name was hidden in a full last
      block (or that entry names the new inode already). */
  lemma NewPathResolves(files: seq<FileView>, files': seq<FileView>, n: word, a: word, dir: int, toks: seq<Name>)
    requires Creates(files, dir, toks) && PathOk(files, dir, toks)
    requires Created(files, files', ParentOf(files, dir, toks), n, Last(toks), a)
    ensures PathOk(files', dir, toks)
    ensures var p := ParentOf(files, dir, toks);
            var es, count := Entries(files[p]), |Entries(files'[p])|;
            && Lookup(files', dir, toks) == (if count % 16 == 0 then -1
                                             else if NoMatch(es, Last(toks)) then n else FirstMatch(es, Last(toks)))
            && ((forall k | 0 <= k < |es| :: es[k].ino != n) ==>
                  (Lookup(files', dir, toks) == n <==> count % 16 != 0 && NoMatch(es, Last(toks))))
  {
    hide Entries, FirstMatch, Scanned, Lookup, NameToInoSpec, StillSeen, Created;
    var k := |toks| - 1;
    var p, pre, name := ParentOf(files, dir, toks), toks[..k], Last(toks);
    assert toks == pre + [name];
    LookupSnoc(files, dir, pre, name);
    CreatedParent(files, files', p, n, name, a);
    NewNameFound(files, files', p, n, name, a);
    OldPathsKept(files, files', p, n, name, a, dir, pre);
    LookupExtend(files', dir, pre, name);
    if !NoMatch(Entries(files[p]), name) && forall i | 0 <= i < |Entries(files[p])| :: Entries(files[p])[i].ino != n {
      FirstMatchNames(Entries(files[p]), name, n);
    }
  }

  lemma CreatedParent(files: seq<FileView>, files': seq<FileView>, p: int, n: word, name: Name, a: word)
    requires Created(files, files', p, n, name, a)
    ensures 0 <= p < |files| == |files'| && files'[p].ic.mode == IFDIR && 0 <= n
  {
    hide Entries;
  }

  // A match names the inode of one of the entries.
  lemma {:induction false} FirstMatchNames(es: seq<Entry>, name: Name, n: word)
    requires !NoMatch(es, name) && forall k | 0 <= k < |es| :: es[k].ino != n
    ensures FirstMatch(es, name) != n && FirstMatch(es, name) >= 0
    decreases es
  {
    if es[0].name != name {
      assert forall k | 0 <= k < |es| - 1 :: es[1..][k] == es[k + 1];
      FirstMatchNames(es[1..], name, n);
    }
  }

  lemma {:induction false} LookupExtend(files: seq<FileView>, dir: int, toks: seq<Name>, t: Name)
    requires PathOk(files, dir, toks)
    requires var p := Lookup(files, dir, toks); p == -1 || (0 <= p < |files| && files[p].ic.mode == IFDIR)
    ensures PathOk(files, dir, toks + [t])
    ensures var p := Lookup(files, dir, toks);
            Lookup(files, dir, toks + [t]) == if p == -1 then -1 else NameToInoSpec(files[p], t)
    decreases toks
  {
    hide NameToInoSpec;
    if toks == [] {
      assert toks + [t] == [t] && [t][1..] == [];
      if dir != -1 {
        assert PathOk(files, NameToInoSpec(files[dir], t), []);
      }
    } else {
      assert (toks + [t])[0] == toks[0] && (toks + [t])[1..] == toks[1..] + [t];
      if dir == -1 {
        MissingStays(files, toks);
      } else {
        LookupExtend(files, NameToInoSpec(files[dir], toks[0]), toks[1..], t);
      }
    }
  }
}

/** The on-disk records of the filesystem and their images in a block:
    the superblock (fs_t), eight icommon_t per inode block, sixteen dir_t per directory block. */
module Formats {
  import opened Bytes

  const NDADDR: nat := 11
  const NIADDR: nat := 3
  const FDB_WORDS: nat := 64
  const NAME_BYTES: nat := 28

  // ----- superblock -----

  datatype Geometry = Geometry(sblkno: word, size: word, iblkno: word, isize: word, dblkno: word, dsize: word)

  // The values wipe stores; nothing else changes them.
  const GEOMETRY := Geometry(1, 2048, 2, 512, 66, 1982)

  type FreeList = l: seq<word> | |l| == FDB_WORDS witness seq(FDB_WORDS, _ => 0)
  // fs_fil and the padding, which the kernel carries along unused.
  type SuperTail = l: seq<word> | |l| == 57 witness seq(57, _ => 0)

  datatype Super = Super(geo: Geometry, fdbhead: word, fdb: FreeList, tail: SuperTail)

  function SuperWords(s: Super): (ws: seq<word>)
    ensures |ws| == WORDS_PER_BLOCK
  {
    [s.geo.sblkno, s.geo.size, s.geo.iblkno, s.geo.isize, s.geo.dblkno, s.geo.dsize, s.fdbhead] + s.fdb + s.tail
  }

  function EncodeSuper(s: Super): Block
  {
    ToBytes(SuperWords(s))
  }

  function DecodeSuper(b: Block): Super
  {
    var ws := ToWords(b);
    Super(Geometry(ws[0], ws[1], ws[2], ws[3], ws[4], ws[5]), ws[6], ws[7..71], ws[71..128])
  }

  /** Booting from a stored superblock gives back exactly the stored values. */
  lemma SuperRoundTrip(s: Super)
    ensures DecodeSuper(EncodeSuper(s)) == s
  {
    var ws := SuperWords(s);
    WordsRoundTrip(ws);
    assert ws[7..71] == s.fdb;
    assert ws[71..128] == s.tail;
  }

  /** Where fs_t has its fields: words 0 to 5 the geometry, word 6 fs_fdbhead, words 7 to 70 fs_fdb. */
  lemma SuperLayout(s: Super)
    ensures var ws := ToWords(EncodeSuper(s));
            && ws[0] == s.geo.sblkno && ws[1] == s.geo.size && ws[2] == s.geo.iblkno && ws[3] == s.geo.isize
            && ws[4] == s.geo.dblkno && ws[5] == s.geo.dsize && ws[6] == s.fdbhead
            && forall k | 0 <= k < 64 :: ws[7 + k] == s.fdb[k]
  {
    hide ToWords, ToBytes;
    WordsRoundTrip(SuperWords(s));
  }

  // ----- inodes -----

  const IFZERO: word := 0
  const IFDIR: word := 2
  const IFREG: word := 3

  datatype IcommonFields = Icommon(mode: word, size: word, db: seq<word>, ib: seq<word>)
  type Icommon = c: IcommonFields | |c.db| == NDADDR && |c.ib| == NIADDR
    witness Icommon(0, 0, seq(NDADDR, _ => 0), seq(NIADDR, _ => 0))
  type InodeTable = t: seq<Icommon> | |t| == 8
    witness seq(8, _ => Icommon(0, 0, seq(NDADDR, _ => 0), seq(NIADDR, _ => 0)))

  function IcommonWords(c: Icommon): (ws: seq<word>)
    ensures |ws| == 16
  {
    [c.mode, c.size] + c.db + c.ib
  }

  function IcommonOf(ws: seq<word>): Icommon
    requires |ws| == 16
  {
    Icommon(ws[0], ws[1], ws[2..13], ws[13..16])
  }

  function TableWords(t: InodeTable): (ws: seq<word>)
    ensures |ws| == WORDS_PER_BLOCK
  {
    seq(WORDS_PER_BLOCK, k requires 0 <= k < WORDS_PER_BLOCK => IcommonWords(t[k / 16])[k % 16])
  }

  function EncodeInodes(t: InodeTable): Block
  {
    ToBytes(TableWords(t))
  }

  function DecodeInodes(b: Block): InodeTable
  {
    var ws := ToWords(b);
    seq(8, r requires 0 <= r < 8 => IcommonOf(ws[16 * r..16 * r + 16]))
  }

  lemma IcommonRoundTrip(c: Icommon)
    ensures IcommonOf(IcommonWords(c)) == c
  {
    var cw := IcommonWords(c);
    assert cw[2..13] == c.db && cw[13..16] == c.ib;
  }

  lemma TableSlice(t: InodeTable, r: nat)
    requires r < 8
    ensures TableWords(t)[16 * r..16 * r + 16] == IcommonWords(t[r])
  {
    hide IcommonWords;
    forall k | 16 * r <= k < 16 * r + 16
      ensures TableWords(t)[k] == IcommonWords(t[r])[k - 16 * r]
    {
      assert k / 16 == r && k % 16 == k - 16 * r;
    }
  }

  lemma InodesRoundTrip(t: InodeTable)
    ensures DecodeInodes(EncodeInodes(t)) == t
  {
    hide IcommonWords, IcommonOf, TableWords, ToBytes, ToWords;
    WordsRoundTrip(TableWords(t));
    forall r | 0 <= r < 8
      ensures DecodeInodes(EncodeInodes(t))[r] == t[r]
    {
      TableSlice(t, r);
      IcommonRoundTrip(t[r]);
    }
  }

  /** Where icommon_t number r of an inode block has its fields: 16 words, of which mode, size, 11 direct
      and 3 indirect addresses. */
  lemma InodeLayout(t: InodeTable, r: nat)
    requires r < 8
    ensures var ws := ToWords(EncodeInodes(t));
            && ws[16 * r] == t[r].mode && ws[16 * r + 1] == t[r].size
            && (forall k | 0 <= k < 11 :: ws[16 * r + 2 + k] == t[r].db[k])
            && forall k | 0 <= k < 3 :: ws[16 * r + 13 + k] == t[r].ib[k]
  {
    hide TableWords, ToBytes, ToWords;
    WordsRoundTrip(TableWords(t));
    TableSlice(t, r);
    var ws, cw := TableWords(t), IcommonWords(t[r]);
    var part := ws[16 * r..16 * r + 16];
    assert forall k | 0 <= k < 16 :: part[k] == ws[16 * r + k];
    assert forall k | 0 <= k < 16 :: ws[16 * r + k] == cw[k];
  }

  // ----- directory entries -----

  // d_namlen and d_name together, taken as one value and compared for equality.
  type Name = n: seq<byte> | |n| == NAME_BYTES witness seq(NAME_BYTES, _ => 0)

  datatype Entry = Entry(ino: word, name: Name)
  type DirBlock = t: seq<Entry> | |t| == 16 witness seq(16, _ => Entry(0, seq(NAME_BYTES, _ => 0)))

  function EntryBytes(e: Entry): (b: seq<byte>)
    ensures |b| == 32
  {
    ToBytes([e.ino]) + e.name
  }

  function EntryOf(b: seq<byte>): Entry
    requires |b| == 32
  {
    Entry(WordAt(b, 0), b[4..])
  }

  function EncodeDir(t: DirBlock): Block
  {
    seq(BLOCK_SIZE, p requires 0 <= p < BLOCK_SIZE => EntryBytes(t[p / 32])[p % 32])
  }

  function DecodeDir(b: Block): DirBlock
  {
    seq(16, k requires 0 <= k < 16 => EntryOf(b[32 * k..32 * k + 32]))
  }

  lemma EntryRoundTrip(e: Entry)
    ensures EntryOf(EntryBytes(e)) == e
  {
    var eb := EntryBytes(e);
    StoredWord([e.ino], eb, 0);
    assert eb[4..] == e.name;
  }

  lemma DirSlice(t: DirBlock, k: nat)
    requires k < 16
    ensures EncodeDir(t)[32 * k..32 * k + 32] == EntryBytes(t[k])
  {
    hide EntryBytes;
    forall p | 32 * k <= p < 32 * k + 32
      ensures EncodeDir(t)[p] == EntryBytes(t[k])[p - 32 * k]
    {
      assert p / 32 == k && p % 32 == p - 32 * k;
    }
  }

  lemma DirRoundTrip(t: DirBlock)
    ensures DecodeDir(EncodeDir(t)) == t
  {
    hide EntryBytes, EntryOf, EncodeDir;
    forall k | 0 <= k < 16
      ensures DecodeDir(EncodeDir(t))[k] == t[k]
    {
      DirSlice(t, k);
      EntryRoundTrip(t[k]);
    }
  }

  /** Where dir_t number k of a directory block has its fields: 32 bytes, the inode number first, then
      length and name. */
  lemma DirLayout(t: DirBlock, k: nat)
    requires k < 16
    ensures WordAt(EncodeDir(t), 8 * k) == t[k].ino && EncodeDir(t)[32 * k + 4..32 * k + 32] == t[k].name
  {
    hide EncodeDir;
    DirSlice(t, k);
    EntryRoundTrip(t[k]);
    var b, eb := EncodeDir(t), EntryBytes(t[k]);
    var part := b[32 * k..32 * k + 32];
    assert forall j | 0 <= j < 32 :: part[j] == b[32 * k + j];
    assert WordAt(b, 8 * k) == WordAt(eb, 0);
    assert b[32 * k + 4..32 * k + 32] == eb[4..];
  }
}

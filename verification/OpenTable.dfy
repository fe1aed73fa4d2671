/** The three linked tables behind a file descriptor: descriptor slots of all processes, open
    file entries, and active (in-core) inodes. Pointers are table indices, NULL is -1. */
module OpenTable {
  import opened Bytes
  import opened Limits

  const FDT_LIMIT: nat := 16
  const OFT_LIMIT: nat := 128
  const AIT_LIMIT: nat := 128

  datatype OFile = OFile(inptr: int, head: word)
  datatype Active = Active(number: word, links: nat, used: bool)

  /** How many open-file entries point at active inode a. */
  function Count(of: seq<OFile>, a: int): nat {
    if of == [] then 0 else (if of[0].inptr == a then 1 else 0) + Count(of[1..], a)
  }

  // Every used descriptor slot and every used open-file entry name each other.
  ghost predicate SlotsMatch(of: seq<OFile>, fdt: seq<int>, back: seq<nat>) {
    && |of| == |fdt| == |back| == OFT_LIMIT
    && (forall s | 0 <= s < OFT_LIMIT && fdt[s] != NULL ::
          0 <= fdt[s] < OFT_LIMIT && of[fdt[s]].inptr != NULL && back[fdt[s]] == s)
    && (forall o | 0 <= o < OFT_LIMIT && of[o].inptr != NULL :: back[o] < OFT_LIMIT && fdt[back[o]] == o)
  }

  // Link counts count; entries are in use while linked; no inode is in core twice.
  ghost predicate LinksMatch(ai: seq<Active>, of: seq<OFile>) {
    && |ai| == AIT_LIMIT && |of| == OFT_LIMIT
    && (forall o | 0 <= o < OFT_LIMIT :: if of[o].inptr == NULL then of[o].head == 0 else 0 <= of[o].inptr < AIT_LIMIT)
    && (forall a | 0 <= a < AIT_LIMIT :: ai[a].links == Count(of, a))
    && (forall a | 0 <= a < AIT_LIMIT :: ai[a].used <==> ai[a].links > 0)
    && NumbersDistinct(ai)
  }

  ghost predicate NumbersDistinct(ai: seq<Active>) {
    forall a, b | 0 <= a < b < |ai| && ai[a].used && ai[b].used :: ai[a].number != ai[b].number
  }

  lemma {:induction false} CountUpdate(of: seq<OFile>, o: nat, x: OFile, a: int)
    requires o < |of|
    ensures Count(of[o := x], a) + (if of[o].inptr == a then 1 else 0) == Count(of, a) + if x.inptr == a then 1 else 0
    decreases o
  {
    if o == 0 {
      assert of[0 := x][1..] == of[1..];
    } else {
      assert of[o := x][1..] == of[1..][o - 1 := x];
      CountUpdate(of[1..], o - 1, x, a);
    }
  }

  lemma {:induction false} CountPositive(of: seq<OFile>, a: int)
    ensures Count(of, a) > 0 <==> exists o :: 0 <= o < |of| && of[o].inptr == a
    decreases |of|
  {
    if of != [] {
      CountPositive(of[1..], a);
      if Count(of, a) > 0 && of[0].inptr != a {
        var o :| 0 <= o < |of[1..]| && of[1..][o].inptr == a;
        assert of[o + 1].inptr == a;
      }
      if o :| 0 <= o < |of| && of[o].inptr == a {
        assert o == 0 || of[1..][o - 1].inptr == a;
      }
    }
  }

  /** While some process has a free descriptor, the open file table is not full. */
  lemma FreeEntryExists(of: seq<OFile>, fdt: seq<int>, back: seq<nat>, s: nat)
    requires SlotsMatch(of, fdt, back) && s < OFT_LIMIT && fdt[s] == NULL
    ensures exists o :: 0 <= o < OFT_LIMIT && of[o].inptr == NULL
  {
    if forall o | 0 <= o < OFT_LIMIT :: of[o].inptr != NULL {
      var b: seq<int> := seq(OFT_LIMIT, o requires 0 <= o < OFT_LIMIT => back[o]);
      forall i, j | 0 <= i < j < OFT_LIMIT
        ensures b[i] != b[j]
      {
        assert of[i].inptr != NULL && of[j].inptr != NULL;
      }
      forall i | 0 <= i < OFT_LIMIT
        ensures 0 <= b[i] < OFT_LIMIT && b[i] != s
      {
        assert of[i].inptr != NULL;
      }
      Pigeonhole(b, OFT_LIMIT, s);
      assert false;
    }
  }

  // Some open-file entry pointing at a used active inode.
  ghost function Pointer(ai: seq<Active>, of: seq<OFile>, a: nat): (o: int)
    requires LinksMatch(ai, of) && a < AIT_LIMIT && ai[a].used
    ensures 0 <= o < OFT_LIMIT && of[o].inptr == a
  {
    CountPositive(of, a);
    var o :| 0 <= o < OFT_LIMIT && of[o].inptr == a;
    o
  }

  /** While the open file table is not full, neither is the active inode table. */
  lemma FreeActiveExists(ai: seq<Active>, of: seq<OFile>, x: nat)
    requires LinksMatch(ai, of) && x < OFT_LIMIT && of[x].inptr == NULL
    ensures exists a :: 0 <= a < AIT_LIMIT && !ai[a].used
  {
    if forall a | 0 <= a < AIT_LIMIT :: ai[a].used {
      var w: seq<int> := seq(AIT_LIMIT, a requires 0 <= a < AIT_LIMIT => Pointer(ai, of, a));
      forall i, j | 0 <= i < j < AIT_LIMIT
        ensures w[i] != w[j]
      {
        assert of[w[i]].inptr == i && of[w[j]].inptr == j;
      }
      forall i | 0 <= i < AIT_LIMIT
        ensures 0 <= w[i] < OFT_LIMIT && w[i] != x
      {
        assert of[w[i]].inptr == i;
      }
      Pigeonhole(w, OFT_LIMIT, x);
      assert false;
    }
  }

  /** Opening: entry o, free so far, links slot s to active inode a, which holds inode n. */
  lemma LinkOpen(ai: seq<Active>, of: seq<OFile>, fdt: seq<int>, back: seq<nat>, a: nat, o: nat, s: nat, n: word)
    requires SlotsMatch(of, fdt, back) && LinksMatch(ai, of)
    requires a < AIT_LIMIT && o < OFT_LIMIT && s < OFT_LIMIT && of[o].inptr == NULL && fdt[s] == NULL
    requires if ai[a].used then ai[a].number == n else forall b | 0 <= b < AIT_LIMIT && ai[b].used :: ai[b].number != n
    ensures var of', ai' := of[o := OFile(a, 0)], ai[a := Active(n, ai[a].links + 1, true)];
            SlotsMatch(of', fdt[s := o], back[o := s]) && LinksMatch(ai', of')
  {
    var of' := of[o := OFile(a, 0)];
    forall b | 0 <= b < AIT_LIMIT
      ensures Count(of', b) == Count(of, b) + if b == a then 1 else 0
    {
      CountUpdate(of, o, OFile(a, 0), b);
    }
  }

  /** Closing: slot s and its entry become free, and the inode stays in use while linked. */
  lemma LinkClose(ai: seq<Active>, of: seq<OFile>, fdt: seq<int>, back: seq<nat>, s: nat)
    requires SlotsMatch(of, fdt, back) && LinksMatch(ai, of) && s < OFT_LIMIT && fdt[s] != NULL
    ensures var o := fdt[s];
            var a := of[o].inptr;
            && 0 <= o < OFT_LIMIT && 0 <= a < AIT_LIMIT && ai[a].links > 0
            && SlotsMatch(of[o := OFile(NULL, 0)], fdt[s := NULL], back)
            && LinksMatch(ai[a := Active(ai[a].number, ai[a].links - 1, ai[a].links > 1)], of[o := OFile(NULL, 0)])
  {
    var o := fdt[s];
    var a := of[o].inptr;
    CountPositive(of, a);
    forall b | 0 <= b < AIT_LIMIT
      ensures Count(of[o := OFile(NULL, 0)], b) + (if b == a then 1 else 0) == Count(of, b)
    {
      CountUpdate(of, o, OFile(NULL, 0), b);
    }
  }

  /** Moving a read/write position changes no link. */
  lemma SeekKeeps(ai: seq<Active>, of: seq<OFile>, fdt: seq<int>, back: seq<nat>, o: nat, h: word)
    requires SlotsMatch(of, fdt, back) && LinksMatch(ai, of) && o < OFT_LIMIT && of[o].inptr != NULL
    ensures SlotsMatch(of[o := of[o].(head := h)], fdt, back) && LinksMatch(ai, of[o := of[o].(head := h)])
  {
    forall b | 0 <= b < AIT_LIMIT
      ensures Count(of[o := of[o].(head := h)], b) == Count(of, b)
    {
      CountUpdate(of, o, of[o].(head := h), b);
    }
  }
}

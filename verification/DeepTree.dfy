/** Pointer trees growing leaf by leaf: what allocateDataBlockAddr does beyond file block 138, as
    written, and in a repaired variant that writes the parent index block back. */
module DeepTree {
  import opened Bytes
  import opened FreeChain
  import opened BlockTree

  datatype Place = Nowhere | At(height: nat, index: nat)

  /** Node q at height h of a tree of `top` levels: leaves have height 0, the root height `top`. */
  function Node(d: seq<Block>, root: word, top: nat, h: nat, q: nat): word
    requires h <= top
    decreases top - h
  {
    if h == top then root else Ptr(d, Node(d, root, top, h + 1, q / 128), q % 128)
  }

  // How many nodes of height h a tree of n leaves has.
  function Count(n: nat, h: nat): nat {
    if h == 0 then n else (Count(n, h - 1) + 127) / 128
  }

  // The node of height h above leaf n.
  function Above(n: nat, h: nat): nat {
    if h == 0 then n else Above(n, h - 1) / 128
  }

  // The tree has c[h] nodes at height h, all of them different blocks: `place` says which is which.
  ghost predicate Rooted(d: seq<Block>, root: word, top: nat, c: seq<nat>, place: seq<Place>) {
    && |d| == |place| == DISK_BLOCKS && |c| == top + 1
    && forall h, q | 0 <= h <= top && 0 <= q < c[h] :: Placed(d, root, top, place, h, q)
  }

  ghost predicate Placed(d: seq<Block>, root: word, top: nat, place: seq<Place>, h: nat, q: nat)
    requires h <= top && |place| == DISK_BLOCKS
  {
    var a := Node(d, root, top, h, q);
    IsData(a) && place[a] == At(h, q)
  }

  // Every node but the root has a parent.
  predicate Closed(c: seq<nat>) {
    c != [] && c[|c| - 1] <= 1 && forall h | 0 <= h < |c| - 1 :: c[h] <= 128 * c[h + 1]
  }

  // Block `into` receives index block `a` with address x in the given slot.
  function Patch(d: seq<Block>, a: word, slot: nat, x: word, into: word): (r: seq<Block>)
    requires |d| == DISK_BLOCKS && a < |d| && into < |d| && slot < LS
    ensures |r| == |d|
  {
    d[into := ToBytes(ToWords(d[a])[slot := x])]
  }

  lemma PatchPtr(d: seq<Block>, a: word, slot: nat, x: word, into: word, b: word, k: nat)
    requires |d| == DISK_BLOCKS && a < |d| && into < |d| && slot < LS && k < LS
    ensures Ptr(Patch(d, a, slot, x, into), b, k) == if b == into then (if k == slot then x else Ptr(d, a, k))
                                                     else Ptr(d, b, k)
  {
    hide ToWords, ToBytes;
    WordsRoundTrip(ToWords(d[a])[slot := x]);
  }

  // Hanging block x into the tree as node (h, c[h]) leaves every other node where it was.
  lemma {:induction false} NodeKept(d: seq<Block>, root: word, top: nat, c: seq<nat>, place: seq<Place>, h: nat,
                                    x: word, g: nat, q: nat)
    requires Rooted(d, root, top, c, place) && Closed(c) && h < top && c[h] < 128 * c[h + 1] && g <= top && q < c[g]
    requires IsData(x) && place[x] == Nowhere
    ensures var p := Node(d, root, top, h + 1, c[h] / 128);
            p < |d| && Node(Patch(d, p, c[h] % 128, x, p), root, top, g, q) == Node(d, root, top, g, q)
    decreases top - g
  {
    hide Ptr, Patch;
    assert Placed(d, root, top, place, h + 1, c[h] / 128);
    var p := Node(d, root, top, h + 1, c[h] / 128);
    if g < top {
      NodeKept(d, root, top, c, place, h, x, g + 1, q / 128);
      assert Placed(d, root, top, place, g + 1, q / 128);
      PatchPtr(d, p, c[h] % 128, x, p, Node(d, root, top, g + 1, q / 128), q % 128);
    }
  }

  lemma NodeAdded(d: seq<Block>, root: word, top: nat, c: seq<nat>, place: seq<Place>, h: nat, x: word)
    requires Rooted(d, root, top, c, place) && Closed(c) && h < top && c[h] < 128 * c[h + 1]
    requires IsData(x) && place[x] == Nowhere
    ensures var p := Node(d, root, top, h + 1, c[h] / 128);
            && p < |d|
            && var d' := Patch(d, p, c[h] % 128, x, p);
            && Rooted(d', root, top, c[h := c[h] + 1], place[x := At(h, c[h])])
            && Node(d', root, top, h, c[h]) == x
            && forall g, q | 0 <= g <= top && 0 <= q < c[g] :: Node(d', root, top, g, q) == Node(d, root, top, g, q)
  {
    hide Patch, Ptr;
    assert Placed(d, root, top, place, h + 1, c[h] / 128);
    var p := Node(d, root, top, h + 1, c[h] / 128);
    var d' := Patch(d, p, c[h] % 128, x, p);
    forall g, q | 0 <= g <= top && 0 <= q < c[g]
      ensures Node(d', root, top, g, q) == Node(d, root, top, g, q) && Placed(d, root, top, place, g, q)
    {
      NodeKept(d, root, top, c, place, h, x, g, q);
    }
    PatchPtr(d, p, c[h] % 128, x, p, p, c[h] % 128);
    assert Node(d', root, top, h + 1, c[h] / 128) == p;
    assert Node(d', root, top, h, c[h]) == x;
    var c', place' := c[h := c[h] + 1], place[x := At(h, c[h])];
    forall g, q | 0 <= g <= top && 0 <= q < c'[g]
      ensures Placed(d', root, top, place', g, q)
    {
      assert g != h || q < c[h] ==> Placed(d, root, top, place, g, q);
    }
  }

  // ----- adding leaf n -----

  lemma {:induction false} CountFacts(n: nat, h: nat)
    ensures Count(n + 1, h) == Above(n, h) + 1
    ensures Above(n, h) <= Count(n, h) <= Above(n, h) + 1
    decreases h
  {
    if h > 0 {
      CountFacts(n, h - 1);
    }
  }

  // Node counts of a tree of n leaves that already has the nodes above leaf n down to height h.
  function Counts(n: nat, h: nat, top: nat): (c: seq<nat>)
    ensures |c| == top + 1
  {
    seq(top + 1, j requires 0 <= j <= top => if j >= h then Count(n + 1, j) else Count(n, j))
  }

  lemma CountsClosed(n: nat, h: nat, top: nat)
    requires h <= top + 1 && Count(n + 1, top) <= 1
    ensures Closed(Counts(n, h, top))
    ensures h <= top ==> forall g | h <= g <= top :: Counts(n, h, top)[g] == Above(n, g) + 1
  {
    hide Count, Above;
    var c := Counts(n, h, top);
    forall j | 0 <= j <= top
      ensures c[j] <= Above(n, j) + 1 && Count(n, j) <= Count(n + 1, j)
    {
      CountFacts(n, j);
    }
    forall j | 0 <= j < top
      ensures c[j] <= 128 * c[j + 1]
    {
      CountFacts(n, j);
      CountFacts(n, j + 1);
      CountUp(n, j);
      CountUp(n + 1, j);
    }
    forall g | h <= g <= top
      ensures c[g] == Above(n, g) + 1
    {
      CountFacts(n, g);
    }
  }

  lemma CountUp(n: nat, h: nat)
    ensures Count(n, h + 1) == (Count(n, h) + 127) / 128
    ensures Above(n, h + 1) == Above(n, h) / 128
  {
  }

  // How many index blocks leaf n brings with it below the node of height h above it.
  function NewNodes(n: nat, h: nat): nat {
    if h <= 1 then 0 else (if Above(n, h - 1) == Count(n, h - 1) then 1 else 0) + NewNodes(n, h - 1)
  }

  /** From the index block a of height h above leaf n down to the leaf: missing index blocks are taken
      from `news`, and x is stored as the leaf's address. As written, an index block with a new
      child is stored in that child; repaired, it is stored back where it came from. */
  function Descend(d: seq<Block>, a: word, h: nat, n: nat, news: seq<word>, x: word, repaired: bool): (r: seq<Block>)
    requires |d| == DISK_BLOCKS && h >= 1
    ensures |r| == |d|
    decreases h
  {
    var q := Above(n, h - 1);
    if a >= |d| then d
    else if h == 1 then Patch(d, a, q % 128, x, a)
    else if q != Count(n, h - 1) then Descend(d, Ptr(d, a, q % 128), h - 1, n, news, x, repaired)
    else if news == [] || news[0] >= |d| then d
    else Descend(Patch(d, a, q % 128, news[0], if repaired then a else news[0]), news[0], h - 1, n, news[1..], x,
                 repaired)
  }

  ghost predicate AllNew(place: seq<Place>, news: seq<word>)
    requires |place| == DISK_BLOCKS
  {
    (forall i | 0 <= i < |news| :: IsData(news[i]) && place[news[i]] == Nowhere)
    && forall i, j | 0 <= i < j < |news| :: news[i] != news[j]
  }

  lemma ChildNode(d: seq<Block>, root: word, top: nat, h: nat, n: nat)
    requires 1 <= h <= top
    ensures Node(d, root, top, h - 1, Above(n, h - 1)) ==
              Ptr(d, Node(d, root, top, h, Above(n, h)), Above(n, h - 1) % 128)
  {
    CountUp(n, h - 1);
  }

  lemma CountsStep(n: nat, h: nat, top: nat)
    requires 1 <= h <= top
    ensures Counts(n, h, top)[h - 1] == Count(n, h - 1)
    ensures Counts(n, h, top)[h - 1 := Count(n + 1, h - 1)] == Counts(n, h - 1, top)
  {
  }

  // What one call adds to a tree: leaf n at x, nothing lost, no foreign block and no leaf's data touched.
  ghost predicate Appended(d: seq<Block>, d': seq<Block>, root: word, top: nat, n: nat, news: seq<word>, x: word,
                           place: seq<Place>, place': seq<Place>)
    requires |d| == |d'| == |place| == DISK_BLOCKS
  {
    && Rooted(d', root, top, Counts(n, 0, top), place')
    && (forall k | 0 <= k <= n :: Node(d', root, top, 0, k) == if k == n then x else Node(d, root, top, 0, k))
    && Aside(d, d', news, place)
  }

  ghost predicate Aside(d: seq<Block>, d': seq<Block>, news: seq<word>, place: seq<Place>)
    requires |d| == |d'| == |place| == DISK_BLOCKS
  {
    forall b | IsData(b) && (if place[b] == Nowhere then b !in news else place[b].height == 0) :: d'[b] == d[b]
  }

  lemma AppendedVia(d: seq<Block>, d1: seq<Block>, d': seq<Block>, root: word, top: nat, h: nat, n: nat,
                    news: seq<word>, x: word, place: seq<Place>, place': seq<Place>, a: word, q: nat)
    requires |d| == |d1| == |d'| == |place| == DISK_BLOCKS && 1 <= h < top && news != [] && IsData(news[0])
    requires AllNew(place, news + [x])
    requires Appended(d1, d', root, top, n, news[1..], x, place[news[0] := At(h, q)], place')
    requires forall k | 0 <= k < n :: Node(d1, root, top, 0, k) == Node(d, root, top, 0, k)
    requires forall b | IsData(b) && b != a :: d1[b] == d[b]
    requires IsData(a) && place[a].At? && place[a].height > 0
    ensures Appended(d, d', root, top, n, news, x, place, place')
  {
    hide Node, Counts, Rooted;
    var t := news[0];
    assert (news + [x])[0] == t;
  }

  lemma LeafFirst(d: seq<Block>, root: word, top: nat, n: nat, x: word, place: seq<Place>, news: seq<word>)
    requires 1 <= top && Count(n + 1, top) <= 1
    requires Rooted(d, root, top, Counts(n, 1, top), place) && IsData(x) && place[x] == Nowhere
    ensures var a := Node(d, root, top, 1, Above(n, 1));
            && a < |d|
            && Appended(d, Patch(d, a, n % 128, x, a), root, top, n, news, x, place, place[x := At(0, n)])
  {
    hide Ptr, Node;
    var c := Counts(n, 1, top);
    CountsClosed(n, 1, top);
    CountUp(n, 0);
    CountsStep(n, 1, top);
    NodeAdded(d, root, top, c, place, 0, x);
    assert Placed(d, root, top, place, 1, Above(n, 1));
  }

  /** Repaired, leaf n is added to a tree of n leaves: it is found at x, every older leaf where it was,
      the data in the leaves and all blocks outside the tree are untouched. */
  lemma {:induction false} RepairedAppend(d: seq<Block>, root: word, top: nat, h: nat, n: nat, news: seq<word>, x: word,
                                          place: seq<Place>)
    returns (place': seq<Place>)
    requires 1 <= h <= top && Count(n + 1, top) <= 1
    requires Rooted(d, root, top, Counts(n, h, top), place)
    requires AllNew(place, news + [x]) && |news| >= NewNodes(n, h)
    ensures Appended(d, Descend(d, Node(d, root, top, h, Above(n, h)), h, n, news, x, true), root, top, n, news, x,
                     place, place')
    decreases h
  {
    hide Ptr, Patch, Node, Counts, Count, Above, Appended, Placed;
    var a, q := Node(d, root, top, h, Above(n, h)), Above(n, h - 1);
    var c := Counts(n, h, top);
    CountsClosed(n, h, top);
    CountFacts(n, h - 1);
    CountUp(n, h - 1);
    CountsStep(n, h, top);
    assert IsData(a) && place[a] == At(h, Above(n, h)) by { NodeIs(d, root, top, c, place, h, Above(n, h)); }
    assert (news + [x])[|news|] == x;
    if h == 1 {
      LeafFirst(d, root, top, n, x, place, news);
      place' := place[x := At(0, n)];
      LeafAbove(n);
    } else if q != Count(n, h - 1) {
      ChildNode(d, root, top, h, n);
      place' := RepairedAppend(d, root, top, h - 1, n, news, x, place);
    } else {
      var t := news[0];
      assert (news + [x])[0] == t && (news + [x])[1..] == news[1..] + [x];
      NodeAdded(d, root, top, c, place, h - 1, t);
      var d1 := Patch(d, a, q % 128, t, a);
      assert forall k | 0 <= k < n ::
        Node(d1, root, top, 0, k) == Node(d, root, top, 0, k) by { LeavesBefore(n, h, top); }
      place' := RepairedAppend(d1, root, top, h - 1, n, news[1..], x, place[t := At(h - 1, q)]);
      PatchAside(d, a, q % 128, t);
      AppendedVia(d, d1, Descend(d1, t, h - 1, n, news[1..], x, true), root, top, h - 1, n, news, x, place, place', a,
                  q);
    }
  }

  lemma NodeIs(d: seq<Block>, root: word, top: nat, c: seq<nat>, place: seq<Place>, h: nat, q: nat)
    requires Rooted(d, root, top, c, place) && h <= top && q < c[h]
    ensures Placed(d, root, top, place, h, q)
  {
  }

  lemma LeafAbove(n: nat)
    ensures Above(n, 0) == n == Count(n, 0)
  {
  }

  lemma LeavesBefore(n: nat, h: nat, top: nat)
    requires 1 <= h <= top
    ensures Counts(n, h, top)[0] == n
  {
  }

  lemma PatchAside(d: seq<Block>, a: word, slot: nat, x: word)
    requires |d| == DISK_BLOCKS && a < |d| && slot < LS
    ensures forall b | 0 <= b < |d| && b != a :: Patch(d, a, slot, x, a)[b] == d[b]
  {
  }

  // ----- whole appends -----

  function Full(n: nat, top: nat): (c: seq<nat>)
    ensures |c| == top + 1
  {
    seq(top + 1, j requires 0 <= j <= top => Count(n, j))
  }

  /** A tree of n leaves, every node of it in a block of its own. */
  ghost predicate Tree(d: seq<Block>, root: word, top: nat, n: nat, place: seq<Place>) {
    Rooted(d, root, top, Full(n, top), place)
  }

  /** Appending leaf n at x: the first leaf makes the root, from the first of the new blocks. */
  function Append(d: seq<Block>, root: word, top: nat, n: nat, news: seq<word>, x: word,
                  repaired: bool): (r: (word, seq<Block>))
    requires |d| == DISK_BLOCKS && top >= 1 && (n == 0 ==> news != [])
    ensures |r.1| == |d|
  {
    if n == 0 then (news[0], Descend(d, news[0], top, 0, news[1..], x, repaired))
    else (root, Descend(d, root, top, n, news, x, repaired))
  }

  // How many leaves a tree of `top` levels can take.
  predicate Fits(n: nat, top: nat) {
    top >= 1 && n < Power(top)
  }

  lemma {:induction false} FitsOneRoot(n: nat, top: nat, h: nat)
    requires h <= top && n < Power(top)
    ensures Above(n, h) < Power(top - h)
    decreases h
  {
    if h > 0 {
      FitsOneRoot(n, top, h - 1);
    }
  }

  lemma RootCount(n: nat, top: nat)
    requires Fits(n, top)
    ensures Above(n, top) == 0 && Count(n + 1, top) == 1
    ensures n > 0 ==> Count(n, top) == 1
  {
    FitsOneRoot(n, top, top);
    CountFacts(n, top);
    if n > 0 {
      FitsOneRoot(n - 1, top, top);
      CountFacts(n - 1, top);
    }
  }

  lemma {:induction false} NoneYet(h: nat)
    ensures Count(0, h) == 0 && Above(0, h) == 0
    decreases h
  {
    if h > 0 {
      NoneYet(h - 1);
    }
  }

  /** Repaired, a tree of any number of levels grows by one leaf at a time up to its capacity: the new
      leaf is found at x, every older leaf where it was, and nothing outside the index blocks changes. */
  lemma TreeGrows(d: seq<Block>, root: word, top: nat, n: nat, news: seq<word>, x: word, place: seq<Place>)
    returns (place': seq<Place>)
    requires Fits(n, top) && Tree(d, root, top, n, place) && AllNew(place, news + [x])
    requires |news| >= NewNodes(n, top) + if n == 0 then 1 else 0
    ensures var (root', d') := Append(d, root, top, n, news, x, true);
            && Tree(d', root', top, n + 1, place')
            && (forall k | 0 <= k <= n :: Node(d', root', top, 0, k) == if k == n then x else Node(d, root, top, 0, k))
            && Aside(d, d', news, place)
  {
    hide Node, Descend, Above, Count, Placed;
    RootCount(n, top);
    assert Counts(n, 0, top) == Full(n + 1, top);
    if n == 0 {
      var r := news[0];
      assert (news + [x])[0] == r && (news + [x])[1..] == news[1..] + [x] && (news + [x])[|news|] == x;
      FirstRoot(d, root, top, place, r);
      RootNode(d, r, top);
      place' := RepairedAppend(d, r, top, top, 0, news[1..], x, place[r := At(top, 0)]);
    } else {
      assert Counts(n, top, top) == Full(n, top);
      RootNode(d, root, top);
      place' := RepairedAppend(d, root, top, top, n, news, x, place);
    }
  }

  lemma RootNode(d: seq<Block>, root: word, top: nat)
    ensures Node(d, root, top, top, 0) == root
  {
  }

  lemma FirstRoot(d: seq<Block>, root: word, top: nat, place: seq<Place>, r: word)
    requires Tree(d, root, top, 0, place) && IsData(r) && Fits(0, top)
    ensures Rooted(d, r, top, Counts(0, top, top), place[r := At(top, 0)])
  {
    hide Count, Above;
    RootCount(0, top);
    var c, place' := Counts(0, top, top), place[r := At(top, 0)];
    forall h, q | 0 <= h <= top && 0 <= q < c[h]
      ensures Placed(d, r, top, place', h, q)
    {
      NoneYet(h);
    }
  }

  /** The kernel's lookup finds leaf k of a tree of one, two or three levels. */
  lemma LeafLookup(d: seq<Block>, root: word, top: nat, k: nat)
    requires 1 <= top <= 3 && Fits(k, top)
    ensures Walk(d, root, top, k) == Node(d, root, top, 0, k)
  {
    hide Ptr, Walk;
    assert Power(1) == 128 && Power(2) == 16384 && Power(3) == 2097152 by { Powers(); }
    if top == 1 {
      SingleWalk(d, root, k);
    } else if top == 2 {
      DoubleWalk(d, root, k);
    } else {
      TripleWalk(d, root, k);
      assert k / 128 / 128 == k / 16384 && k / 128 % 128 == k % 16384 / 128;
      ThreeDown(d, root, k);
    }
  }

  lemma Powers()
    ensures Power(1) == 128 && Power(2) == 16384 && Power(3) == 2097152
  {
    assert Power(0) == 1;
    assert Power(1) == 128;
    assert Power(2) == LS * Power(1);
  }

  lemma ThreeDown(d: seq<Block>, root: word, k: nat)
    requires k < 2097152
    ensures Node(d, root, 3, 0, k) == Ptr(d, Ptr(d, Ptr(d, root, k / 128 / 128), k / 128 % 128), k % 128)
  {
    hide Ptr;
    assert Node(d, root, 3, 1, k / 128) == Ptr(d, Node(d, root, 3, 2, k / 128 / 128), k / 128 % 128);
    assert Node(d, root, 3, 2, k / 128 / 128) == Ptr(d, root, k / 128 / 128 % 128);
  }

  // ----- as written -----

  /** As long as no index block is missing, the code as written does what the repaired one does. */
  lemma {:induction false} SameWhenComplete(d: seq<Block>, a: word, h: nat, n: nat, news: seq<word>, x: word)
    requires |d| == DISK_BLOCKS && h >= 1 && NewNodes(n, h) == 0
    ensures Descend(d, a, h, n, news, x, false) == Descend(d, a, h, n, news, x, true)
    decreases h
  {
    hide Ptr, Patch, Above, Count;
    if h > 1 && a < |d| && Above(n, h - 1) != Count(n, h - 1) {
      SameWhenComplete(d, Ptr(d, a, Above(n, h - 1) % 128), h - 1, n, news, x);
    }
  }

  lemma {:induction false} NewBelow(n: nat, h: nat)
    requires h >= 1 && Above(n, h) == Count(n, h)
    ensures Above(n, h - 1) == Count(n, h - 1)
  {
    CountFacts(n, h - 1);
    CountUp(n, h - 1);
  }

  /** When an index block is missing, the code as written changes no block that was in use: the new
      index blocks are written, but no pointer to them is ever stored. */
  lemma {:induction false} NoParentWritten(d: seq<Block>, a: word, h: nat, n: nat, news: seq<word>, x: word)
    requires |d| == DISK_BLOCKS && h >= 2 && NewNodes(n, h) > 0
    ensures forall b | 0 <= b < |d| && b !in news :: Descend(d, a, h, n, news, x, false)[b] == d[b]
    decreases h
  {
    hide Ptr, Above, Count, ToWords, ToBytes;
    if a < |d| {
      if Above(n, h - 1) != Count(n, h - 1) {
        NoParentWritten(d, Ptr(d, a, Above(n, h - 1) % 128), h - 1, n, news, x);
      } else if news != [] && news[0] < |d| {
        var t := news[0];
        var d1 := Patch(d, a, Above(n, h - 1) % 128, t, t);
        if h > 2 {
          NewBelow(n, h - 1);
          NoParentWritten(d1, t, h - 1, n, news[1..], x);
        }
      }
    }
  }

  // Nodes above leaf n stay where they were when only blocks that are not part of the tree change.
  lemma {:induction false} PathKept(d: seq<Block>, d': seq<Block>, root: word, top: nat, c: seq<nat>, place: seq<Place>,
                                    n: nat, g: nat, ts: seq<word>)
    requires Rooted(d, root, top, c, place) && 1 <= g <= top && forall h | g <= h <= top :: c[h] == Above(n, h) + 1
    requires |d'| == |d| && (forall t | t in ts :: IsData(t) && place[t] == Nowhere)
    requires forall b | 0 <= b < |d| && b !in ts :: d'[b] == d[b]
    ensures Node(d', root, top, g, Above(n, g)) == Node(d, root, top, g, Above(n, g))
    decreases top - g
  {
    hide Above, ToWords;
    if g < top {
      PathKept(d, d', root, top, c, place, n, g + 1, ts);
      CountUp(n, g);
      NodeIs(d, root, top, c, place, g + 1, Above(n, g + 1));
    }
  }

  lemma NewIndex(d: seq<Block>, p: word, n: nat, news: seq<word>, x: word)
    requires |d| == DISK_BLOCKS && p < |d| && news != [] && IsData(news[0]) && Above(n, 1) == Count(n, 1)
    ensures n % 128 == 0
    ensures var d', t := Descend(d, p, 2, n, news, x, false), news[0];
            (forall b | 0 <= b < |d| && b != t :: d'[b] == d[b]) && Ptr(d', t, 0) == x
  {
    hide Ptr, ToWords, ToBytes;
    var t := news[0];
    CountUp(n, 0);
    LeafAbove(n);
    var d1 := Patch(d, p, Above(n, 1) % 128, t, t);
    assert Descend(d, p, 2, n, news, x, false) == Patch(d1, t, n % 128, x, t);
    PatchPtr(d1, t, n % 128, x, t, t, 0);
  }

  /** As written, the first leaf of a new index block is found afterwards exactly when the slot its
      parent was not given held that new block already, or a block whose first word is x already. */
  lemma LostLeaf(d: seq<Block>, root: word, top: nat, n: nat, news: seq<word>, x: word, place: seq<Place>)
    requires top >= 2 && Fits(n, top) && Rooted(d, root, top, Counts(n, 2, top), place)
    requires Above(n, 1) == Count(n, 1) && news != [] && IsData(news[0]) && place[news[0]] == Nowhere
    ensures var p := Node(d, root, top, 2, Above(n, 2));
            var d' := Descend(d, p, 2, n, news, x, false);
            var left := Ptr(d, p, Above(n, 1) % 128);
            Node(d', root, top, 0, n) == x <==> left == news[0] || Ptr(d, left, 0) == x
  {
    hide Above, Count, Descend, Ptr;
    var c, t := Counts(n, 2, top), news[0];
    RootCount(n, top);
    CountsClosed(n, 2, top);
    var p := Node(d, root, top, 2, Above(n, 2));
    NodeIs(d, root, top, c, place, 2, Above(n, 2));
    var d' := Descend(d, p, 2, n, news, x, false);
    NewIndex(d, p, n, news, x);
    PathKept(d, d', root, top, c, place, n, 2, [t]);
    ChildNode(d', root, top, 2, n);
    ChildNode(d', root, top, 1, n);
    LeafAbove(n);
    SamePtr(d, d', p, Above(n, 1) % 128, t);
    if Ptr(d, p, Above(n, 1) % 128) != t {
      SamePtr(d, d', Ptr(d, p, Above(n, 1) % 128), 0, t);
    }
  }

  lemma SamePtr(d: seq<Block>, d': seq<Block>, a: word, k: nat, t: word)
    requires |d| == |d'| && a != t && forall b | 0 <= b < |d| && b != t :: d'[b] == d[b]
    ensures Ptr(d', a, k) == Ptr(d, a, k)
  {
  }

  // The first word of block b after the middle index block t2 and the lowest one, t1, are new: t2 was
  // filled from p with its own address in `slot`, t1 from t2 with x in slot 0.
  function FirstWord(d: seq<Block>, p: word, slot: nat, t2: word, t1: word, x: word, b: word): word {
    if b == t1 then x else if b == t2 then (if slot == 0 then t2 else Ptr(d, p, 0)) else Ptr(d, b, 0)
  }

  lemma TwoNewIndexes(d: seq<Block>, p: word, n: nat, news: seq<word>, x: word)
    requires |d| == DISK_BLOCKS && p < |d| && |news| >= 2 && IsData(news[0]) && IsData(news[1]) && news[0] != news[1]
    requires Above(n, 2) == Count(n, 2)
    ensures n % 128 == 0 && Above(n, 1) % 128 == 0
    ensures var d' := Descend(d, p, 3, n, news, x, false);
            && (forall b | 0 <= b < |d| && b != news[0] && b != news[1] :: d'[b] == d[b])
            && forall b: word :: Ptr(d', b, 0) == FirstWord(d, p, Above(n, 2) % 128, news[0], news[1], x, b)
  {
    hide Ptr, ToWords, ToBytes, Count, Above;
    var t2, t1, slot := news[0], news[1], Above(n, 2) % 128;
    NewBelow(n, 2);
    CountUp(n, 1);
    var d1 := Patch(d, p, slot, t2, t2);
    assert Descend(d, p, 3, n, news, x, false) == Descend(d1, t2, 2, n, news[1..], x, false);
    NewIndex(d1, t2, n, news[1..], x);
    var d' := Descend(d, p, 3, n, news, x, false);
    forall b: word
      ensures Ptr(d', b, 0) == FirstWord(d, p, slot, t2, t1, x, b)
    {
      PatchPtr(d, p, slot, t2, t2, b, 0);
      if b != t1 {
        SamePtr(d1, d', b, 0, t1);
      }
    }
    BelowMultiple(n);
  }

  lemma BelowMultiple(n: nat)
    requires Above(n, 2) == Count(n, 2)
    ensures Above(n, 1) % 128 == 0
  {
    CountFacts(n, 1);
    CountUp(n, 1);
    NewBelow(n, 2);
  }

  /** The same where the middle index block of a three-level tree is new as well: the lookup then goes
      through two slots that were not given. */
  lemma LostMiddle(d: seq<Block>, root: word, top: nat, n: nat, news: seq<word>, x: word, place: seq<Place>)
    requires top >= 3 && Fits(n, top) && Rooted(d, root, top, Counts(n, 3, top), place)
    requires Above(n, 2) == Count(n, 2) && |news| >= 2 && AllNew(place, news)
    ensures var p, slot := Node(d, root, top, 3, Above(n, 3)), Above(n, 2) % 128;
            var d' := Descend(d, p, 3, n, news, x, false);
            var mid := FirstWord(d, p, slot, news[0], news[1], x, Ptr(d, p, slot));
            Node(d', root, top, 0, n) == x <==> FirstWord(d, p, slot, news[0], news[1], x, mid) == x
  {
    hide Above, Count, Descend, Ptr;
    var c := Counts(n, 3, top);
    RootCount(n, top);
    CountsClosed(n, 3, top);
    var p := Node(d, root, top, 3, Above(n, 3));
    NodeIs(d, root, top, c, place, 3, Above(n, 3));
    var d' := Descend(d, p, 3, n, news, x, false);
    TwoNewIndexes(d, p, n, news, x);
    PathKept(d, d', root, top, c, place, n, 3, news[..2]);
    ChildNode(d', root, top, 3, n);
    ChildNode(d', root, top, 2, n);
    ChildNode(d', root, top, 1, n);
    LeafAbove(n);
    SameAt(d, d', p, Above(n, 2) % 128);
  }

  lemma SameAt(d: seq<Block>, d': seq<Block>, a: word, k: nat)
    requires |d| == |d'| && (a < |d| ==> d'[a] == d[a])
    ensures Ptr(d', a, k) == Ptr(d, a, k)
  {
  }

  // What the kernel's double indirect lookup answers for leaf n of the tree rooted at `root`.
  function DoubleLookUp(d: seq<Block>, root: word, n: nat): word
    requires |d| == DISK_BLOCKS && root < |d|
  {
    Descent(d, d[root], 2, n)
  }

  /** The double indirect tree in the kernel's own terms, on any disk: leaf n, the first of a new index
      block, is found by the lookup exactly when the root's slot held that new block already, or
      leads, as the lookup reads it, to a block whose first word is x already. */
  lemma DoubleLost(d: seq<Block>, root: word, n: nat, news: seq<word>, x: word)
    requires |d| == DISK_BLOCKS && n < LS * LS && n % 128 == 0
    requires if n == 0 then |news| == 2 && IsData(news[0]) && news[0] != news[1]
             else |news| == 1 && IsData(root) && root != news[0]
    requires IsData(news[|news| - 1])
    ensures var (root', d') := Append(d, root, 2, n, news, x, false);
            && IsData(root')
            && var left := Ptr(d, root', n / 128);
               DoubleLookUp(d', root', n) == x
               <==> left == news[|news| - 1] || (if left < DISK_BLOCKS then Ptr(d, left, 0) else Ptr(d, root', 0)) == x
  {
    hide Descend, Count, Above, ToWords;
    var (root', d') := Append(d, root, 2, n, news, x, false);
    var t := news[|news| - 1];
    CountUp(n, 0);
    CountUp(n, 1);
    LeafAbove(n);
    NewIndex(d, root', n, if n == 0 then news[1..] else news, x);
    DescentTwo(d', d'[root'], n);
    assert d'[root'] == d[root'];
  }
}

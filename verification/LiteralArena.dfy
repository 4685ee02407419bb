/**
 MyMalloc and MyFree of proj1_malloc exactly as they are written, what they leave in memory, and the
 exact conditions under which that is what module Arena's repaired versions leave.

 The source never sets the buffer of the node split off a block. So besides the representation of
 module Arena there is a loose one, which does not look at the buffers of free nodes; the literal
 code runs on either.
 */
module LiteralArena {
  import opened CInts
  import opened BlockList
  import opened FreeList
  import opened Memories
  import opened ArenaModule

  /** Fault: a NULL head is dereferenced, or a store falls outside BigBuffer. */
  datatype Outcome = Returned(p: int) | Fault

  // ---------- The loose representation ----------

  /** The headers with the buffers they should have. */
  ghost function Mended(hs: seq<Header>, fl: seq<Block>): seq<Header>
    requires |hs| == |fl|
  {
    seq(|hs|, i requires 0 <= i < |hs| => hs[i].(buffer := fl[i].Payload()))
  }

  ghost predicate BuffersSet(hs: seq<Header>, fl: seq<Block>)
    requires |hs| == |fl|
  {
    forall i :: 0 <= i < |hs| ==> hs[i].buffer == fl[i].Payload()
  }

  /** Module Arena's Chain, whatever the buffers of the nodes are. */
  ghost predicate LooseChain(a: Arena, fl: seq<Block>)
    requires a.Shape() && Apart(fl)
    reads a`head, a.buffer
  {
    a.head == Addr(fl, 0) && Mended(a.Headers(fl), fl) == Links(fl)
  }

  /** Module Arena's Represents, whatever the buffers of the free nodes are. */
  ghost predicate Loose(a: Arena, bs: seq<Block>)
    reads a`head, a.buffer
  {
    && a.Shape()
    && WellFormed(bs)
    && Apart(Select(bs, false)) && Apart(Select(bs, true))
    && LooseChain(a, Select(bs, false))
    && a.Headers(Select(bs, true)) == Unlinked(Select(bs, true))
  }

  lemma MendedIsItself(hs: seq<Header>, fl: seq<Block>)
    requires |hs| == |fl|
    ensures hs == Links(fl) <==> Mended(hs, fl) == Links(fl) && BuffersSet(hs, fl)
  {
    if Mended(hs, fl) == Links(fl) && BuffersSet(hs, fl) {
      forall i | 0 <= i < |hs| ensures hs[i] == Links(fl)[i] {
        assert Mended(hs, fl)[i] == Links(fl)[i];
      }
    }
  }

  lemma ChainIsLoose(a: Arena, fl: seq<Block>)
    requires a.Shape() && Apart(fl)
    ensures a.Chain(fl) <==> LooseChain(a, fl) && BuffersSet(a.Headers(fl), fl)
  {
    MendedIsItself(a.Headers(fl), fl);
  }

  /** The representation is the loose one with the buffers of the free nodes right. */
  lemma RepresentsIsLoose(a: Arena, bs: seq<Block>)
    requires a.Shape() && Apart(Select(bs, false))
    ensures a.Represents(bs) <==> Loose(a, bs) && BuffersSet(a.Headers(Select(bs, false)), Select(bs, false))
  {
    ChainIsLoose(a, Select(bs, false));
  }

  /** The header of a node of a loose list, its buffer aside. */
  lemma LooseNodeAt(a: Arena, fl: seq<Block>, i: nat)
    requires a.Shape() && Apart(fl) && LooseChain(a, fl)
    ensures i < |fl| ==> InArena(fl[i]) && a.HeaderAt(fl[i].addr).(buffer := fl[i].Payload()) == Links(fl)[i]
  {
    if i < |fl| {
      assert Mended(a.Headers(fl), fl)[i] == Links(fl)[i] && InArena(fl[i]);
    }
  }

  /** The same, said of memory as a value. */
  ghost predicate LooseIn(m: Memory, bs: seq<Block>) {
    var fl, live := Select(bs, false), Select(bs, true);
    && |m.words| == WORDS && WellFormed(bs) && Apart(fl) && Apart(live)
    && m.head == Addr(fl, 0) && Mended(HeadersIn(m.words, fl), fl) == Links(fl)
    && HeadersIn(m.words, live) == Unlinked(live)
  }

  lemma LooseIsIn(a: Arena, bs: seq<Block>)
    requires a.Shape()
    ensures Loose(a, bs) <==> LooseIn(a.Mem(), bs)
  {
    var fl, live := Select(bs, false), Select(bs, true);
    if Apart(fl) && Apart(live) {
      a.HeadersInMem(fl);
      a.HeadersInMem(live);
    }
  }

  // ---------- MyMalloc ----------

  /** What lines 163-189 do to the headers; header i + 1 is the new node when the block is split. */
  ghost function Relinked(hs: seq<Header>, i: nat, newSize: int, newNode: int, split: bool): seq<Header>
    requires if split then i + 1 < |hs| else i < |hs|
  {
    if i == 0 then (if split then hs[1 := Header(NULL, hs[0].right, newSize, hs[1].buffer)] else hs)
    else if split then
      Handover(hs, i, newNode, newSize)[i + 1 := Header(hs[i].left, hs[i].right, newSize, hs[i + 1].buffer)]
    else Bypass(hs, i)
  }

  ghost function Resized(hs: seq<Header>, i: nat, size: int): seq<Header>
    requires i < |hs|
  {
    hs[i := hs[i].(size := size)]
  }

  /** The source's int arithmetic: exact, or too large by 2^32 when it wraps around. */
  method LiteralNewSize(nodeSize: int, size: int) returns (newSize: int)
    requires 0 <= nodeSize <= MAX_MALLOC_SIZE && 0 <= size <= INT_MAX - 7
    ensures var e := nodeSize - size - HEADER_SIZE;
      newSize == e + if e < -0x8000_0000 then 0x1_0000_0000 else 0
  {
    newSize := NewSize(nodeSize, size);
    var e := nodeSize - size - HEADER_SIZE;
    SizeTValue(nodeSize - size);
    IntOfSizeT(e);
  }

  /** Subtracting the header in size_t, after the int difference was converted. */
  lemma SizeTValue(d: int)
    requires -0x8000_0000 <= d <= MAX_MALLOC_SIZE
    ensures ToSizeT(ToSizeT(d) - HEADER_SIZE)
      == d - HEADER_SIZE + if d < HEADER_SIZE then 0x1_0000_0000_0000_0000 else 0
  {
    assert ToSizeT(d) == d + if d < 0 then 0x1_0000_0000_0000_0000 else 0;
  }

  /** Converting the size_t value of e back to int. */
  lemma IntOfSizeT(e: int)
    requires -0x8000_0020 <= e <= MAX_MALLOC_SIZE
    ensures ToInt(e + if e < 0 then 0x1_0000_0000_0000_0000 else 0) == e + if e < -0x8000_0000 then 0x1_0000_0000 else 0
  {
    if e < 0 {
      assert e + 0x1_0000_0000_0000_0000 == 0xffff_ffff * 0x1_0000_0000 + (e + 0x1_0000_0000);
      assert (e + 0x1_0000_0000_0000_0000) % 0x1_0000_0000 == e + 0x1_0000_0000;
    }
  }

  /** What lines 155-189 do to the headers of a list whose node i is at tmpHead. */
  ghost function LiteralTaken(hs: seq<Header>, i: nat, tmpHead: int, size: int, newSize: int): seq<Header>
    requires if newSize >= 0 then i + 1 < |hs| else i < |hs|
  {
    Relinked(Resized(hs, i, size), i, newSize, tmpHead + HEADER_SIZE + size, newSize >= 0)
  }

  /** Memory around node i of fl, which is to be split or taken whole. */
  ghost predicate Found(a: Arena, fl: seq<Block>, i: nat, newNode: int, split: bool)
    requires a.Shape() && Apart(fl)
    reads a`head, a.buffer
  {
    && i < |fl| && a.head == Addr(fl, 0)
    && a.Headers(fl)[i].left == Addr(fl, i - 1)
    && a.Headers(fl)[i].right == Addr(fl, if split then i + 2 else i + 1)
    && (split ==> i + 1 < |fl| && fl[i + 1].addr == newNode)
  }

  /** What head is left at, with the list at fl and node i taken; node i + 1 is the new node when it is split. */
  ghost function HeadWithout(fl: seq<Block>, i: nat, split: bool): int {
    if i > 0 then Addr(fl, 0) else if split then Addr(fl, 1) else NULL
  }

  /** _ProcessNodeFound, lines 151-195. */
  method ProcessNodeFound(a: Arena, tmpHead: int, size: int, newSize: int, ghost fl: seq<Block>, ghost i: nat)
    requires a.Shape() && Apart(fl) && Found(a, fl, i, tmpHead + HEADER_SIZE + size, newSize >= 0)
    requires fl[i].addr == tmpHead
    modifies a`head, a.buffer
    ensures a.head == HeadWithout(fl, i, newSize >= 0)
    ensures a.Headers(fl)
      == Detached(LiteralTaken(old(a.Headers(fl)), i, tmpHead, size, newSize), i, tmpHead)
    ensures a.Untouched(fl)
  {
    a.SetSize(tmpHead, size, fl, i);
    Relink(a, tmpHead, newSize, tmpHead + HEADER_SIZE + size, fl, i, newSize >= 0);
    a.Detach(tmpHead, fl, i);
  }

  method Relink(a: Arena, tmpHead: int, newSize: int, newNode: int,
                ghost fl: seq<Block>, ghost i: nat, ghost split: bool)
    requires a.Shape() && Apart(fl) && Found(a, fl, i, newNode, split)
    requires fl[i].addr == tmpHead && split == (newSize >= 0)
    modifies a`head, a.buffer
    ensures a.head == if i > 0 then Addr(fl, 0) else if split then newNode else NULL
    ensures a.Headers(fl) == Relinked(old(a.Headers(fl)), i, newSize, newNode, split)
    ensures a.Untouched(fl)
  {
    Neighbours(fl, i);
    assert tmpHead == a.head <==> i == 0;
    if tmpHead != a.head {
      RelinkInner(a, tmpHead, newSize, newNode, fl, i, split);
    } else {
      RelinkHead(a, newSize, newNode, fl, split);
    }
  }

  /** Lines 163-180: tmpHead is not the head of the list. */
  method RelinkInner(a: Arena, tmpHead: int, newSize: int, newNode: int,
                     ghost fl: seq<Block>, ghost i: nat, ghost split: bool)
    requires a.Shape() && Apart(fl) && 0 < i < |fl| && fl[i].addr == tmpHead && split == (newSize >= 0)
    requires Found(a, fl, i, newNode, split)
    modifies a.buffer
    ensures a.Headers(fl) == Relinked(old(a.Headers(fl)), i, newSize, newNode, split)
    ensures a.Untouched(fl)
  {
    var negSize := newSize < 0;
    if negSize {
      Bypassing(a, tmpHead, fl, i);
    } else {
      HandingOver(a, tmpHead, newSize, newNode, fl, i);
    }
  }

  /** Lines 166-169. */
  method Bypassing(a: Arena, tmpHead: int, ghost fl: seq<Block>, ghost i: nat)
    requires a.Shape() && Apart(fl) && 0 < i < |fl| && fl[i].addr == tmpHead
    requires a.Headers(fl)[i].left == Addr(fl, i - 1) && a.Headers(fl)[i].right == Addr(fl, i + 1)
    modifies a.buffer
    ensures a.Headers(fl) == Bypass(old(a.Headers(fl)), i)
    ensures a.Untouched(fl)
  {
    Neighbours(fl, i);
    assert a.Headers(fl)[i] == a.HeaderAt(tmpHead);
    var left, right := a.Left(tmpHead), a.Right(tmpHead);
    a.SetRight(left, right, fl, i - 1);
    if right != NULL {
      a.SetLeft(right, left, fl, i + 1);
    }
  }

  /** Lines 171-178. */
  method HandingOver(a: Arena, tmpHead: int, newSize: int, newNode: int, ghost fl: seq<Block>, ghost i: nat)
    requires a.Shape() && Apart(fl) && 0 < i && i + 1 < |fl| && fl[i].addr == tmpHead && fl[i + 1].addr == newNode
    requires a.Headers(fl)[i].left == Addr(fl, i - 1) && a.Headers(fl)[i].right == Addr(fl, i + 2)
    modifies a.buffer
    ensures a.Headers(fl) == Relinked(old(a.Headers(fl)), i, newSize, newNode, true)
    ensures a.Untouched(fl)
  {
    Neighbours(fl, i);
    ghost var hs := a.Headers(fl);
    assert hs[i] == a.HeaderAt(tmpHead);
    var left, right := a.Left(tmpHead), a.Right(tmpHead);
    SetLinks(a, newNode, left, right, newSize, fl, i + 1);
    ghost var hs1 := hs[i + 1 := Header(left, right, newSize, hs[i + 1].buffer)];
    assert a.Headers(fl) == hs1;
    a.SetRight(left, newNode, fl, i - 1);
    assert a.Headers(fl) == hs1[i - 1 := hs1[i - 1].(right := newNode)];
    if right != NULL {
      a.SetLeft(right, newNode, fl, i + 2);
    }
    RelinkedSplit(hs, i, newSize, newNode);
  }

  lemma RelinkedSplit(hs: seq<Header>, i: nat, newSize: int, newNode: int)
    requires 0 < i && i + 1 < |hs|
    ensures var hs1 := hs[i + 1 := Header(hs[i].left, hs[i].right, newSize, hs[i + 1].buffer)];
      var hs2 := hs1[i - 1 := hs1[i - 1].(right := newNode)];
      Relinked(hs, i, newSize, newNode, true)
      == if i + 2 < |hs| then hs2[i + 2 := hs2[i + 2].(left := newNode)] else hs2
  {}

  /** Lines 181-189: tmpHead is the head of the list. */
  method RelinkHead(a: Arena, newSize: int, newNode: int, ghost fl: seq<Block>, ghost split: bool)
    requires a.Shape() && Apart(fl) && fl != [] && fl[0].addr == a.head && split == (newSize >= 0)
    requires split ==> 1 < |fl| && fl[1].addr == newNode
    modifies a`head, a.buffer
    ensures a.head == if split then newNode else NULL
    ensures a.Headers(fl) == Relinked(old(a.Headers(fl)), 0, newSize, newNode, split)
    ensures a.Untouched(fl)
  {
    assert InArena(fl[0]);
    assert a.Headers(fl)[0] == a.HeaderAt(a.head);
    var negSize := newSize < 0;
    if !negSize {
      SetLinks(a, newNode, NULL, a.Right(a.head), newSize, fl, 1);
    }
    a.head := if negSize then NULL else newNode;
  }

  /** A new node gets every field but its buffer. */
  method SetLinks(a: Arena, node: int, left: int, right: int, size: int, ghost fl: seq<Block>, ghost i: nat)
    requires a.Shape() && Apart(fl) && i < |fl| && fl[i].addr == node
    modifies a.buffer
    ensures a.Wrote(fl, i, Header(left, right, size, old(a.Headers(fl))[i].buffer))
  {
    a.SetSize(node, size, fl, i);
    a.SetLeft(node, left, fl, i);
    a.SetRight(node, right, fl, i);
  }

  // ---------- When the literal MyMalloc does what is intended ----------

  /**
   The block given out is not a list head with successors, and it is split or exactly of the
   requested size. before and after count the free blocks on either side of it.
   */
  predicate LooselyAgrees(b: Block, before: int, after: int, size: int) {
    (0 < before || after == 0) && (b.size - size - HEADER_SIZE >= 0 || size == b.size)
  }

  /** And if it is split stale memory happens to hold the new node's buffer. */
  predicate Agrees(b: Block, before: int, after: int, size: int, stale: int) {
    && LooselyAgrees(b, before, after, size)
    && (b.size - size - HEADER_SIZE >= 0 ==> stale == b.addr + HEADER_SIZE + size + HEADER_SIZE)
  }

  /** The same for block k of an arena. */
  predicate LooseAllocAgrees(bs: seq<Block>, k: nat, size: int)
    requires k < |bs|
  {
    LooselyAgrees(bs[k], |Select(bs[..k], false)|, |Select(bs[k + 1..], false)|, size)
  }

  predicate AllocAgrees(bs: seq<Block>, k: nat, size: int, stale: int)
    requires k < |bs|
  {
    Agrees(bs[k], |Select(bs[..k], false)|, |Select(bs[k + 1..], false)|, size, stale)
  }

  lemma AgreesSplit(fl: seq<Block>, i: nat, size: int, cut: seq<Block>, hs: seq<Header>, tmpHead: int, newSize: int)
    requires Apart(fl) && i < |fl| && fl[i].Fits(size) && 0 <= size && size % 8 == 0
    requires tmpHead == fl[i].addr && newSize == fl[i].size - size - HEADER_SIZE >= 0
    requires Opened(hs, Links(fl), i, 2) && |cut| == |hs| && Removed(cut, i) == Rest(fl, i, size)
    ensures Removed(LiteralTaken(hs, i, tmpHead, size, newSize), i) == Links(Removed(cut, i))
      <==> Agrees(fl[i], i, |fl| - 1 - i, size, hs[i + 1].buffer)
  {
    var newNode := tmpHead + HEADER_SIZE + size;
    var hs1 := Resized(hs, i, size);
    assert hs[i] == Links(fl)[i];
    ProcessedLinks(fl, i, size, cut, hs);
    var p := Handover(hs1, i, newNode, newSize);
    var q := Relinked(hs1, i, newSize, newNode, newSize >= 0);
    assert p == Processed(hs, i, size, fl[i].addr, true);
    assert Removed(p, i)[i] == p[i + 1] && Removed(q, i)[i] == q[i + 1];
    if 0 < i {
      assert q == p[i + 1 := q[i + 1]];
      assert q[i + 1].buffer == p[i + 1].buffer ==> q == p;
    } else if |fl| == 1 {
      assert p == [p[0], p[1]] && q == [q[0], q[1]];
      assert p[0] == q[0];
    } else {
      assert hs[2] == Links(fl)[1];
      assert Removed(p, i)[1] == p[2] && Removed(q, i)[1] == q[2];
    }
  }

  lemma AgreesWhole(fl: seq<Block>, i: nat, size: int, hs: seq<Header>, head: int)
    requires Apart(fl) && i < |fl| && fl[i].size - size - HEADER_SIZE < 0 && Opened(hs, Links(fl), i, 1)
    requires head == if 0 < i then Addr(fl, 0) else NULL
    ensures var lp := LiteralTaken(hs, i, fl[i].addr, size, fl[i].size - size - HEADER_SIZE);
      head == Addr(Removed(fl, i), 0) && Removed(lp, i) == Links(Removed(fl, i)) && size == fl[i].size
      <==> Agrees(fl[i], i, |fl| - 1 - i, size, NULL)
  {
    if 0 < i {
      RemovedAddr(fl, i);
      WholeInner(fl, i, size, hs);
    } else if |fl| > 1 {
      assert InArena(fl[1]) && Removed(fl, 0)[0] == fl[1];
    } else {
      assert Removed(fl, 0) == [];
    }
  }

  /** An inner node taken whole is bypassed, whatever size it claims. */
  lemma WholeInner(fl: seq<Block>, i: nat, size: int, hs: seq<Header>)
    requires Apart(fl) && 0 < i < |fl| && Opened(hs, Links(fl), i, 1)
    ensures Removed(Bypass(Resized(hs, i, size), i), i) == Links(Removed(fl, i))
  {
    BypassedLinks(fl, i, hs);
    assert Removed(Bypass(Resized(hs, i, size), i), i) == Removed(Bypass(hs, i), i);
  }

  /** The word that becomes the buffer field of the node split off b; nothing writes it. */
  function Stale(words: seq<int>, b: Block, size: int): int { Word(words, b.addr + HEADER_SIZE + size, BUFFER) }

  /** The loop of lines 131-134: stops at the first node that is large enough, or else at the last node. */
  method Walk(a: Arena, size: int, ghost fl: seq<Block>) returns (tmpHead: int, ghost i: nat)
    requires a.Shape() && Apart(fl) && LooseChain(a, fl) && fl != []
    ensures i < |fl| && fl[i].addr == tmpHead
    ensures forall j :: 0 <= j < i ==> fl[j].size < size
    ensures size <= fl[i].size || i == |fl| - 1
  {
    tmpHead, i := a.head, 0;
    LooseNodeAt(a, fl, 0);
    while a.Right(tmpHead) != NULL && size > a.Size(tmpHead)
      invariant i < |fl| && fl[i].addr == tmpHead && InArena(fl[i])
      invariant a.HeaderAt(tmpHead).(buffer := fl[i].Payload()) == Links(fl)[i]
      invariant forall j :: 0 <= j < i ==> fl[j].size < size
      decreases |fl| - i
    {
      tmpHead := a.Right(tmpHead);
      i := i + 1;
      LooseNodeAt(a, fl, i);
    }
    if i + 1 < |fl| {
      LooseNodeAt(a, fl, i + 1);
    }
  }

  /** The node that Walk stops at. */
  function Stop(fl: seq<Block>, size: int): (i: nat)
    requires fl != []
    ensures i < |fl| && forall j :: 0 <= j < i ==> !fl[j].Fits(size)
    ensures fl[i].Fits(size) || i == |fl| - 1
  {
    var f := FirstFit(fl, size);
    if f == |fl| then |fl| - 1 else f
  }

  lemma WalkStops(fl: seq<Block>, size: int, i: nat)
    requires i < |fl| && (forall j :: 0 <= j < |fl| ==> !fl[j].live)
    requires (forall j :: 0 <= j < i ==> fl[j].size < size) && (size <= fl[i].size || i == |fl| - 1)
    ensures i == Stop(fl, size)
  {
    assert fl[i].Fits(size) <==> size <= fl[i].size;
  }

  /** What lines 155-194 do to the headers of a list whose node i is b. */
  ghost function TakenHeaders(hs: seq<Header>, i: nat, b: Block, size: int): (r: seq<Header>)
    requires if b.size - size - HEADER_SIZE >= 0 then i + 1 < |hs| else i < |hs|
    ensures |r| == |hs|
  {
    Detached(LiteralTaken(hs, i, b.addr, size, b.size - size - HEADER_SIZE), i, b.addr)
  }

  /** What the literal code leaves in memory when it gives out block b, node i of the list cut. */
  ghost function Taken(m: Memory, cut: seq<Block>, i: nat, b: Block, size: int): Memory
    requires if b.size - size - HEADER_SIZE >= 0 then i + 1 < |cut| else i < |cut|
  {
    var newSize := b.size - size - HEADER_SIZE;
    Memory(
      if i > 0 then m.head else if newSize >= 0 then b.addr + HEADER_SIZE + size else NULL,
      Write(m.words, cut, TakenHeaders(HeadersIn(m.words, cut), i, b, size)))
  }

  /** The same for a list with node i not yet cut. */
  ghost function AfterTaking(m: Memory, fl: seq<Block>, i: nat, size: int): Memory
    requires i < |fl|
  {
    Taken(m, Cut(fl, i, size), i, fl[i], size)
  }

  lemma OpenedMended(hs: seq<Header>, was: seq<Header>, cut: seq<Block>, fl: seq<Block>, i: nat, n: nat)
    requires |hs| == |cut| && |was| == |fl| && i < |fl| && 0 < n
    requires Opened(hs, was, i, n) && OpenedAddrs(cut, fl, i, n) && Mended(was, fl) == Links(fl)
    ensures Opened(Mended(hs, cut), Links(fl), i, n)
  {
    var hs', ls := Mended(hs, cut), Mended(was, fl);
    forall j | 0 <= j <= i ensures hs'[j] == ls[j] {}
    forall j | i + n <= j < |hs'| ensures hs'[j] == ls[j - n + 1] {}
  }

  /** The list fl with node i cut, and headers hs of the cut list that link fl, their buffers aside. */
  ghost predicate CutOpen(fl: seq<Block>, i: nat, size: int, hs: seq<Header>)
    requires i < |fl|
  {
    var cut, n := Cut(fl, i, size), |Carve(fl[i], size)|;
    && Apart(cut) && OpenedAddrs(cut, fl, i, n) && cut[i].addr == fl[i].addr && InArena(fl[i])
    && (n == 2 ==> cut[i + 1] == Carve(fl[i], size)[1])
    && Removed(cut, i) == Rest(fl, i, size) && Apart(Removed(cut, i))
    && |hs| == |cut| && Opened(Mended(hs, cut), Links(fl), i, n)
  }

  lemma CutOpens(fl: seq<Block>, i: nat, size: int, hs: seq<Header>, was: seq<Header>)
    requires Apart(fl) && i < |fl| && 0 <= size && size % 8 == 0
    requires |was| == |fl| && Mended(was, fl) == Links(fl) && Opened(hs, was, i, |Carve(fl[i], size)|)
    ensures CutOpen(fl, i, size, hs)
    ensures forall w :: InSome(Cut(fl, i, size), w) ==> InSome(fl, w)
  {
    var cut := CutNode(fl, i, size);
    OpenedMended(hs, was, cut, fl, i, |Carve(fl[i], size)|);
  }

  lemma OpenLoose(a: Arena, fl: seq<Block>, i: nat, size: int)
    requires a.Shape() && Apart(fl) && LooseChain(a, fl) && i < |fl| && 0 <= size && size % 8 == 0
    ensures var cut := Cut(fl, i, size);
      && Apart(cut) && CutOpen(fl, i, size, a.Headers(cut))
      && Found(a, cut, i, fl[i].addr + HEADER_SIZE + size, fl[i].size - size - HEADER_SIZE >= 0)
      && forall w :: InSome(cut, w) ==> InSome(fl, w)
  {
    var cut := CutNode(fl, i, size);
    a.OpenedHeaders(cut, fl, i, |Carve(fl[i], size)|);
    CutOpens(fl, i, size, a.Headers(cut), a.Headers(fl));
    FoundLinks(a, fl, i, size);
  }

  lemma FoundLinks(a: Arena, fl: seq<Block>, i: nat, size: int)
    requires a.Shape() && Apart(fl) && LooseChain(a, fl) && i < |fl|
    requires Apart(Cut(fl, i, size)) && CutOpen(fl, i, size, a.Headers(Cut(fl, i, size)))
    ensures Found(a, Cut(fl, i, size), i, fl[i].addr + HEADER_SIZE + size, fl[i].size - size - HEADER_SIZE >= 0)
  {
    var cut := Cut(fl, i, size);
    assert Mended(a.Headers(cut), cut)[i] == Links(fl)[i];
  }

  /** ProcessNodeFound, and the memory it leaves. */
  method Take(a: Arena, tmpHead: int, size: int, newSize: int,
              ghost cut: seq<Block>, ghost i: nat, ghost b: Block, ghost hs: seq<Header>)
    requires a.Shape() && Apart(cut) && Found(a, cut, i, tmpHead + HEADER_SIZE + size, newSize >= 0)
    requires cut[i].addr == tmpHead == b.addr && newSize == b.size - size - HEADER_SIZE && hs == a.Headers(cut)
    modifies a`head, a.buffer
    ensures a.Mem() == Taken(old(a.Mem()), cut, i, b, size)
    ensures a.head == HeadWithout(cut, i, newSize >= 0)
    ensures a.Headers(cut) == Detached(LiteralTaken(hs, i, tmpHead, size, newSize), i, tmpHead)
    ensures a.Untouched(cut)
  {
    ghost var m := a.Mem();
    a.HeadersInMem(cut);
    FoundHead(a, cut, i, tmpHead + HEADER_SIZE + size, newSize >= 0);
    ProcessNodeFound(a, tmpHead, size, newSize, cut, i);
    a.Written(cut);
    TakenIs(m, a.Mem(), cut, i, tmpHead, size, newSize, b, hs, a.Headers(cut));
  }

  lemma FoundHead(a: Arena, fl: seq<Block>, i: nat, newNode: int, split: bool)
    requires a.Shape() && Apart(fl) && Found(a, fl, i, newNode, split)
    ensures HeadWithout(fl, i, split) == if i > 0 then a.Mem().head else if split then newNode else NULL
  {}

  lemma TakenIs(m: Memory, m': Memory, cut: seq<Block>, i: nat, tmpHead: int, size: int, newSize: int,
                b: Block, hs: seq<Header>, hs': seq<Header>)
    requires tmpHead == b.addr && newSize == b.size - size - HEADER_SIZE
    requires (if newSize >= 0 then i + 1 < |cut| else i < |cut|) && hs == HeadersIn(m.words, cut)
    requires hs' == Detached(LiteralTaken(hs, i, tmpHead, size, newSize), i, tmpHead)
    requires |hs'| == |cut| && m'.words == Write(m.words, cut, hs')
    requires m'.head == HeadWithout(cut, i, newSize >= 0)
      == if i > 0 then m.head else if newSize >= 0 then tmpHead + HEADER_SIZE + size else NULL
    ensures m' == Taken(m, cut, i, b, size)
  {
    assert hs' == Detached(LiteralTaken(hs, i, b.addr, size, b.size - size - HEADER_SIZE), i, b.addr);
    TakenOf(m, m', cut, i, b, size, hs, hs');
  }

  lemma TakenOf(m: Memory, m': Memory, cut: seq<Block>, i: nat, b: Block, size: int, hs: seq<Header>, hs': seq<Header>)
    requires if b.size - size - HEADER_SIZE >= 0 then i + 1 < |cut| else i < |cut|
    requires hs == HeadersIn(m.words, cut) && |hs'| == |cut| && m'.words == Write(m.words, cut, hs')
    requires hs' == Detached(LiteralTaken(hs, i, b.addr, size, b.size - size - HEADER_SIZE), i, b.addr)
    requires m'.head
      == if i > 0 then m.head else if b.size - size - HEADER_SIZE >= 0 then b.addr + HEADER_SIZE + size else NULL
    ensures m' == Taken(m, cut, i, b, size)
  {}

  /** What Take left: the header given out, and those of the other nodes. */
  lemma HeadersTaken(a: Arena, cut: seq<Block>, i: nat, tmpHead: int, size: int, newSize: int, hs: seq<Header>)
    requires a.Shape() && Apart(cut) && i < |cut| && cut[i].addr == tmpHead && Apart(Removed(cut, i))
    requires |hs| == |cut| && (newSize >= 0 ==> i + 1 < |cut|)
    requires a.Headers(cut) == Detached(LiteralTaken(hs, i, tmpHead, size, newSize), i, tmpHead)
    ensures IsNode(tmpHead) && a.HeaderAt(tmpHead) == Header(NULL, NULL, size, tmpHead + HEADER_SIZE)
    ensures a.Headers(Removed(cut, i)) == Removed(LiteralTaken(hs, i, tmpHead, size, newSize), i)
  {
    assert InArena(cut[i]) && a.Headers(cut)[i] == a.HeaderAt(tmpHead);
    TakenSize(hs, i, tmpHead, size, newSize);
    DetachedRest(LiteralTaken(hs, i, tmpHead, size, newSize), i, tmpHead);
    a.RemovedHeaders(cut, i);
  }

  lemma AfterTakingIs(m: Memory, fl: seq<Block>, i: nat, size: int)
    requires i < |fl|
    ensures AfterTaking(m, fl, i, size) == Taken(m, Cut(fl, i, size), i, fl[i], size)
  {}

  /** Mending and taking may be done in either order. */
  lemma MendedTaken(hs: seq<Header>, cut: seq<Block>, i: nat, tmpHead: int, size: int, newSize: int)
    requires |hs| == |cut| && if newSize >= 0 then i + 1 < |hs| else i < |hs|
    ensures var hs' := LiteralTaken(hs, i, tmpHead, size, newSize);
      && |hs'| == |hs|
      && Mended(Removed(hs', i), Removed(cut, i))
         == Removed(LiteralTaken(Mended(hs, cut), i, tmpHead, size, newSize), i)
  {
    var hs' := LiteralTaken(hs, i, tmpHead, size, newSize);
    var hsM := LiteralTaken(Mended(hs, cut), i, tmpHead, size, newSize);
    forall j | 0 <= j < |hs| && j != i ensures hs'[j].(buffer := cut[j].Payload()) == hsM[j] {}
  }

  /** What is left is linked up as intended, and the header given out is right, exactly when LooselyAgrees says so. */
  lemma TakenLoosely(a: Arena, fl: seq<Block>, i: nat, tmpHead: int, size: int, newSize: int, hs: seq<Header>)
    requires a.Shape() && Apart(fl) && i < |fl| && fl[i].Fits(size) && 0 <= size && size % 8 == 0
    requires Apart(Cut(fl, i, size)) && CutOpen(fl, i, size, hs)
    requires tmpHead == fl[i].addr && newSize == fl[i].size - size - HEADER_SIZE
    requires a.Headers(Cut(fl, i, size)) == Detached(LiteralTaken(hs, i, tmpHead, size, newSize), i, tmpHead)
    requires a.head == if i > 0 then Addr(fl, 0) else if newSize >= 0 then tmpHead + HEADER_SIZE + size else NULL
    ensures var b, rest := Carve(fl[i], size)[0], Rest(fl, i, size);
      LooseChain(a, rest) && a.HeaderAt(tmpHead) == Header(NULL, NULL, b.size, b.Payload())
      <==> LooselyAgrees(fl[i], i, |fl| - 1 - i, size)
  {
    var cut := Cut(fl, i, size);
    var rest := Removed(cut, i);
    var hsM := Mended(hs, cut);
    MendedTaken(hs, cut, i, tmpHead, size, newSize);
    HeadersTaken(a, cut, i, tmpHead, size, newSize, hs);
    RemovedAddr(cut, i);
    if newSize >= 0 {
      AgreesSplit(fl, i, size, cut, hsM, tmpHead, newSize);
    } else {
      AgreesWhole(fl, i, size, hsM, a.head);
    }
  }

  lemma TakenSize(hs: seq<Header>, i: nat, tmpHead: int, size: int, newSize: int)
    requires if newSize >= 0 then i + 1 < |hs| else i < |hs|
    ensures var hs' := LiteralTaken(hs, i, tmpHead, size, newSize); |hs'| == |hs| && hs'[i].size == size
  {}

  lemma StaleIs(a: Arena, fl: seq<Block>, i: nat, size: int)
    requires a.Shape() && i < |fl| && Apart(Cut(fl, i, size)) && CutOpen(fl, i, size, a.Headers(Cut(fl, i, size)))
    ensures |Carve(fl[i], size)| == 2 ==> a.Headers(Cut(fl, i, size))[i + 1].buffer == Stale(a.Mem().words, fl[i], size)
  {
    var cut := Cut(fl, i, size);
    if |Carve(fl[i], size)| == 2 {
      assert InArena(cut[i + 1]) && a.Headers(cut)[i + 1] == a.HeaderAt(cut[i + 1].addr);
    }
  }

  /** The buffers on the list stay right exactly when the node split off, if there is one, has a right one by chance. */
  lemma TakenBuffers(hs: seq<Header>, was: seq<Header>, cut: seq<Block>, fl: seq<Block>,
                     i: nat, size: int, newSize: int)
    requires |hs| == |cut| && |was| == |fl| && i < |fl| && BuffersSet(was, fl)
    requires var n := if newSize >= 0 then 2 else 1; Opened(hs, was, i, n) && OpenedAddrs(cut, fl, i, n)
    ensures var hs' := LiteralTaken(hs, i, fl[i].addr, size, newSize);
      |hs'| == |hs|
      && (BuffersSet(Removed(hs', i), Removed(cut, i)) <==> (newSize >= 0 ==> hs[i + 1].buffer == cut[i + 1].Payload()))
  {
    var hs' := LiteralTaken(hs, i, fl[i].addr, size, newSize);
    var rest, bs := Removed(hs', i), Removed(cut, i);
    forall j | 0 <= j < |rest| && !(newSize >= 0 && j == i) ensures rest[j].buffer == bs[j].Payload() {
      var n := if newSize >= 0 then 2 else 1;
      var j' := if j < i then j else j - n + 2;
      assert hs'[if j < i then j else j + 1].buffer == hs[if j < i then j else j + 1].buffer == was[j'].buffer;
    }
    assert newSize >= 0 ==> rest[i].buffer == hs[i + 1].buffer && bs[i] == cut[i + 1];
  }

  /** The same, said of memory before the call. */
  lemma BuffersAfter(a: Arena, fl: seq<Block>, i: nat, tmpHead: int, size: int, newSize: int, hs: seq<Header>)
    requires a.Shape() && Apart(fl) && i < |fl| && Apart(Cut(fl, i, size)) && hs == a.Headers(Cut(fl, i, size))
    requires CutOpen(fl, i, size, hs)
    requires tmpHead == fl[i].addr && newSize == fl[i].size - size - HEADER_SIZE
    ensures var cut, hs' := Cut(fl, i, size), LiteralTaken(hs, i, tmpHead, size, newSize);
      |hs'| == |cut|
      && (BuffersSet(a.Headers(fl), fl) ==>
            (BuffersSet(Removed(hs', i), Removed(cut, i))
             <==> (newSize >= 0 ==> Stale(a.Mem().words, fl[i], size) == tmpHead + HEADER_SIZE + size + HEADER_SIZE)))
  {
    var cut := Cut(fl, i, size);
    StaleIs(a, fl, i, size);
    a.OpenedHeaders(cut, fl, i, |Carve(fl[i], size)|);
    TakenSize(hs, i, tmpHead, size, newSize);
    if BuffersSet(a.Headers(fl), fl) {
      TakenBuffers(hs, a.Headers(fl), cut, fl, i, size, newSize);
    }
  }

  /** Node i of the list is large enough and is taken. */
  method TakeNode(a: Arena, tmpHead: int, size: int, newSize: int, ghost fl: seq<Block>, ghost i: nat)
    requires a.Shape() && Apart(fl) && LooseChain(a, fl) && i < |fl| && fl[i].Fits(size) && 0 <= size && size % 8 == 0
    requires tmpHead == fl[i].addr && newSize == fl[i].size - size - HEADER_SIZE && InArena(fl[i])
    modifies a`head, a.buffer
    ensures a.Mem() == AfterTaking(old(a.Mem()), fl, i, size) && a.Within(fl)
    ensures a.Buffer(tmpHead) == fl[i].Payload() && Apart(Rest(fl, i, size))
    ensures var b, rest := Carve(fl[i], size)[0], Rest(fl, i, size);
      LooseChain(a, rest) && a.HeaderAt(tmpHead) == Header(NULL, NULL, b.size, b.Payload())
      <==> LooselyAgrees(fl[i], i, |fl| - 1 - i, size)
    ensures old(BuffersSet(a.Headers(fl), fl)) ==>
      (BuffersSet(a.Headers(Rest(fl, i, size)), Rest(fl, i, size))
       <==> (newSize >= 0 ==> Stale(old(a.Mem()).words, fl[i], size) == tmpHead + HEADER_SIZE + size + HEADER_SIZE))
  {
    OpenLoose(a, fl, i, size);
    ghost var cut := Cut(fl, i, size);
    ghost var hs := a.Headers(cut);
    assert CutOpen(fl, i, size, hs);
    BuffersAfter(a, fl, i, tmpHead, size, newSize, hs);
    AfterTakingIs(a.Mem(), fl, i, size);
    Take(a, tmpHead, size, newSize, cut, i, fl[i], hs);
    HeadersTaken(a, cut, i, tmpHead, size, newSize, hs);
    TakenLoosely(a, fl, i, tmpHead, size, newSize, hs);
    a.HeadersAreInside(cut);
  }

  /** Free block k is large enough and is taken. */
  method TakeFit(a: Arena, tmpHead: int, size: int, newSize: int, ghost bs: seq<Block>, ghost k: nat)
    requires Loose(a, bs) && 0 <= size && size % 8 == 0 && k < |bs| && bs[k].Fits(size)
    requires tmpHead == bs[k].addr && newSize == bs[k].size - size - HEADER_SIZE && InArena(bs[k])
    modifies a`head, a.buffer
    ensures var fl, i := Select(bs, false), |Select(bs[..k], false)|;
      i < |fl| && a.Mem() == AfterTaking(old(a.Mem()), fl, i, size)
    ensures a.Buffer(tmpHead) == bs[k].Payload() && a.Kept(Select(bs, true))
    ensures Loose(a, AllocAt(bs, k, size)) <==> LooseAllocAgrees(bs, k, size)
    ensures old(a.Represents(bs)) ==>
      (a.Represents(AllocAt(bs, k, size)) <==> AllocAgrees(bs, k, size, Stale(old(a.Mem()).words, bs[k], size)))
  {
    ghost var fl, i := Select(bs, false), |Select(bs[..k], false)|;
    AllocAtInList(bs, k, size);
    SelectAt(bs, k, false);
    RepresentsIsLoose(a, bs);
    TakeNode(a, tmpHead, size, newSize, fl, i);
    a.LiveKept(bs);
    a.KeptHeaders(Select(bs, true));
    a.LiveAfterAlloc(bs, k, size);
    RepresentsIsLoose(a, AllocAt(bs, k, size));
  }

  /**
   The last node is too small but is taken all the same: it drops off the list, and its header
   claims the size that was asked for.
   */
  method TakeTooSmall(a: Arena, tmpHead: int, size: int, newSize: int, ghost bs: seq<Block>, ghost i: nat)
    requires Loose(a, bs) && i + 1 == |Select(bs, false)| && tmpHead == Select(bs, false)[i].addr
    requires newSize == Select(bs, false)[i].size - size - HEADER_SIZE < 0 && 0 <= size && size % 8 == 0
    modifies a`head, a.buffer
    ensures a.Mem() == AfterTaking(old(a.Mem()), Select(bs, false), i, size)
    ensures IsNode(tmpHead) && a.HeaderAt(tmpHead) == Header(NULL, NULL, size, tmpHead + HEADER_SIZE)
    ensures var rest := Select(bs, false)[..i]; Apart(rest) && LooseChain(a, rest)
    ensures !Loose(a, bs) && a.Kept(Select(bs, true))
  {
    ghost var fl := Select(bs, false);
    OpenLoose(a, fl, i, size);
    ghost var cut := Cut(fl, i, size);
    ghost var hs := a.Headers(cut);
    assert CutOpen(fl, i, size, hs);
    AfterTakingIs(a.Mem(), fl, i, size);
    Take(a, tmpHead, size, newSize, cut, i, fl[i], hs);
    HeadersTaken(a, cut, i, tmpHead, size, newSize, hs);
    DroppedLast(a, fl, i, size, newSize, hs);
    a.HeadersAreInside(cut);
    a.LiveKept(bs);
  }

  /** A list whose last node was bypassed is the list without it. */
  lemma DroppedLast(a: Arena, fl: seq<Block>, i: nat, size: int, newSize: int, hs: seq<Header>)
    requires a.Shape() && Apart(fl) && i + 1 == |fl| && newSize == fl[i].size - size - HEADER_SIZE < 0
    requires CutOpen(fl, i, size, hs) && a.head == if i > 0 then Addr(fl, 0) else NULL
    requires a.Headers(Removed(Cut(fl, i, size), i)) == Removed(LiteralTaken(hs, i, fl[i].addr, size, newSize), i)
    ensures Apart(fl[..i]) && LooseChain(a, fl[..i]) && !LooseChain(a, fl)
  {
    var cut, rest := Cut(fl, i, size), fl[..i];
    var hsM := Mended(hs, cut);
    assert Removed(fl, i) == rest == Removed(cut, i);
    MendedTaken(hs, cut, i, fl[i].addr, size, newSize);
    if 0 < i {
      WholeInner(fl, i, size, hsM);
      assert Links(rest)[i - 1].right == NULL && Links(fl)[i - 1].right == fl[i].addr;
      assert InArena(fl[i]) && Mended(a.Headers(rest), rest)[i - 1].right == NULL;
      assert InArena(fl[i - 1]) && a.Headers(rest)[i - 1] == a.HeaderAt(fl[i - 1].addr) == a.Headers(fl)[i - 1];
    } else {
      assert InArena(fl[0]) && rest == [];
    }
  }

  // ---------- What MyMalloc leaves, field by field ----------

  /**
   Node i of the list fl in m was given out, and m' is left. Where it is split the new node stands
   between its neighbours with whatever buffer memory held there; where it is not, inner nodes are
   bypassed, but the successors of a head are lost. No successor of a head is ever pointed back.
   */
  ghost predicate GivenOut(m: Memory, m': Memory, fl: seq<Block>, i: nat, size: int)
    requires i < |fl| && |m.words| == |m'.words| == WORDS
  {
    var b := fl[i];
    var split, newNode := b.size >= size + HEADER_SIZE, b.addr + HEADER_SIZE + size;
    && m'.head == (if 0 < i then fl[0].addr else if split then newNode else NULL)
    && HeaderIn(m'.words, b.addr) == Header(NULL, NULL, size, b.Payload())
    && (split ==>
          HeaderIn(m'.words, newNode)
          == Header(Addr(fl, i - 1), Addr(fl, i + 1), b.size - size - HEADER_SIZE, Word(m.words, newNode, BUFFER)))
    && (0 < i ==>
          HeaderIn(m'.words, fl[i - 1].addr)
          == HeaderIn(m.words, fl[i - 1].addr).(right := if split then newNode else Addr(fl, i + 1)))
    && (0 < i < |fl| - 1 ==>
          HeaderIn(m'.words, fl[i + 1].addr)
          == HeaderIn(m.words, fl[i + 1].addr).(left := if split then newNode else fl[i - 1].addr))
    && (i == 0 && 1 < |fl| ==> HeaderIn(m'.words, fl[1].addr) == HeaderIn(m.words, fl[1].addr))
    && (forall j :: 0 <= j < |fl| && (j < i - 1 || i + 1 < j) ==>
          HeaderIn(m'.words, fl[j].addr) == HeaderIn(m.words, fl[j].addr))
    && (forall w :: 0 <= w < WORDS && !InHeader(fl, w) && !(split && newNode <= 8 * w < newNode + HEADER_SIZE) ==>
          m'.words[w] == m.words[w])
  }

  /** Headers written are read back, and no other word changes. */
  lemma FieldsWritten(m: Memory, fl: seq<Block>, hs': seq<Header>)
    requires |m.words| == WORDS && Apart(fl) && |hs'| == |fl|
    ensures var words := Write(m.words, fl, hs');
      && |words| == WORDS
      && (forall j :: 0 <= j < |fl| ==> HeaderIn(words, fl[j].addr) == hs'[j])
      && (forall w :: 0 <= w < WORDS && !InHeader(fl, w) ==> words[w] == m.words[w])
  {
    forall j | 0 <= j < |fl| ensures HeaderIn(Write(m.words, fl, hs'), fl[j].addr) == hs'[j] {
      Written(m.words, fl, hs', j);
    }
  }

  /** The headers hs of the list fl with node i cut, and hs' after that node was given out. */
  ghost predicate GivenTo(hs: seq<Header>, hs': seq<Header>, fl: seq<Block>, i: nat, size: int)
    requires i < |fl| && |hs| == |hs'| == |Cut(fl, i, size)|
  {
    var b := fl[i];
    var split, newNode := b.size >= size + HEADER_SIZE, b.addr + HEADER_SIZE + size;
    var next := if split then i + 2 else i + 1;
    && hs'[i] == Header(NULL, NULL, size, b.Payload())
    && (split ==>
          hs'[i + 1] == Header(Addr(fl, i - 1), Addr(fl, i + 1), b.size - size - HEADER_SIZE, hs[i + 1].buffer))
    && (0 < i ==> hs'[i - 1] == hs[i - 1].(right := if split then newNode else Addr(fl, i + 1)))
    && (next < |hs| ==>
          hs'[next] == if 0 < i then hs[next].(left := if split then newNode else fl[i - 1].addr) else hs[next])
    && (forall j :: 0 <= j < |hs| && (j < i - 1 || next < j) ==> hs'[j] == hs[j])
  }

  lemma GivenHeaders(fl: seq<Block>, i: nat, size: int, hs: seq<Header>)
    requires Apart(fl) && i < |fl| && CutOpen(fl, i, size, hs)
    ensures GivenTo(hs, TakenHeaders(hs, i, fl[i], size), fl, i, size)
  {
    var cut := Cut(fl, i, size);
    assert Mended(hs, cut)[i] == Links(fl)[i];
  }

  /** The headers of fl away from node i, once those of the list with node i cut are hs'. */
  lemma GivenOthers(m: Memory, m': Memory, fl: seq<Block>, i: nat, size: int, hs: seq<Header>, hs': seq<Header>, j: nat)
    requires i < |fl| && hs == HeadersIn(m.words, Cut(fl, i, size)) && hs' == HeadersIn(m'.words, Cut(fl, i, size))
    requires GivenTo(hs, hs', fl, i, size) && j < |fl| && (j < i - 1 || i + 1 < j)
    ensures HeaderIn(m'.words, fl[j].addr) == HeaderIn(m.words, fl[j].addr)
  {
    CutIndex(fl, i, size, j);
    var j' := if j < i then j else j + |Carve(fl[i], size)| - 1;
    assert hs'[j'] == hs[j'];
  }

  /** No word changes but those of the headers. */
  lemma GivenFrame(m: Memory, m': Memory, fl: seq<Block>, i: nat, size: int, w: int)
    requires i < |fl| && |m.words| == |m'.words| == WORDS && 0 <= w < WORDS && !InHeader(fl, w)
    requires !InHeader(Cut(fl, i, size), w) ==> m'.words[w] == m.words[w]
    requires var newNode := fl[i].addr + HEADER_SIZE + size;
      !(fl[i].size >= size + HEADER_SIZE && newNode <= 8 * w < newNode + HEADER_SIZE)
    ensures m'.words[w] == m.words[w]
  {
    if InHeader(Cut(fl, i, size), w) {
      CutHeaderWord(fl, i, size, w);
    }
  }

  /** The headers next to node i, and its own. */
  lemma GivenNear(m: Memory, m': Memory, fl: seq<Block>, i: nat, size: int, hs: seq<Header>, hs': seq<Header>)
    requires i < |fl| && CutOpen(fl, i, size, hs) && hs == HeadersIn(m.words, Cut(fl, i, size))
    requires hs' == HeadersIn(m'.words, Cut(fl, i, size)) && GivenTo(hs, hs', fl, i, size)
    ensures var b := fl[i];
      var split, newNode := b.size >= size + HEADER_SIZE, b.addr + HEADER_SIZE + size;
      && HeaderIn(m'.words, b.addr) == Header(NULL, NULL, size, b.Payload())
      && (split ==>
            HeaderIn(m'.words, newNode)
            == Header(Addr(fl, i - 1), Addr(fl, i + 1), b.size - size - HEADER_SIZE, Word(m.words, newNode, BUFFER)))
      && (0 < i ==>
            HeaderIn(m'.words, fl[i - 1].addr)
            == HeaderIn(m.words, fl[i - 1].addr).(right := if split then newNode else Addr(fl, i + 1)))
      && (i + 1 < |fl| ==>
            HeaderIn(m'.words, fl[i + 1].addr)
            == var h := HeaderIn(m.words, fl[i + 1].addr);
               if 0 < i then h.(left := if split then newNode else fl[i - 1].addr) else h)
  {
    var n := |Carve(fl[i], size)|;
    if i + 1 < |fl| {
      CutIndex(fl, i, size, i + 1);
      assert hs[i + n] == HeaderIn(m.words, fl[i + 1].addr) && hs'[i + n] == HeaderIn(m'.words, fl[i + 1].addr);
    }
    assert hs'[i] == HeaderIn(m'.words, fl[i].addr);
    assert 0 < i ==> hs'[i - 1] == HeaderIn(m'.words, fl[i - 1].addr) && hs[i - 1] == HeaderIn(m.words, fl[i - 1].addr);
  }

  lemma GivenBack(m: Memory, m': Memory, fl: seq<Block>, i: nat, size: int, hs: seq<Header>, hs': seq<Header>)
    requires i < |fl| && CutOpen(fl, i, size, hs) && hs == HeadersIn(m.words, Cut(fl, i, size))
    requires hs' == HeadersIn(m'.words, Cut(fl, i, size)) && GivenTo(hs, hs', fl, i, size)
    requires |m.words| == |m'.words| == WORDS
    requires forall w :: 0 <= w < WORDS && !InHeader(Cut(fl, i, size), w) ==> m'.words[w] == m.words[w]
    requires var newNode := fl[i].addr + HEADER_SIZE + size;
      m'.head == if 0 < i then fl[0].addr else if fl[i].size >= size + HEADER_SIZE then newNode else NULL
    ensures GivenOut(m, m', fl, i, size)
  {
    GivenNear(m, m', fl, i, size, hs, hs');
    forall j | 0 <= j < |fl| && (j < i - 1 || i + 1 < j)
      ensures HeaderIn(m'.words, fl[j].addr) == HeaderIn(m.words, fl[j].addr)
    {
      GivenOthers(m, m', fl, i, size, hs, hs', j);
    }
    var newNode := fl[i].addr + HEADER_SIZE + size;
    forall w | 0 <= w < WORDS && !InHeader(fl, w)
               && !(fl[i].size >= size + HEADER_SIZE && newNode <= 8 * w < newNode + HEADER_SIZE)
      ensures m'.words[w] == m.words[w]
    {
      GivenFrame(m, m', fl, i, size, w);
    }
  }

  lemma TakenParts(m: Memory, fl: seq<Block>, i: nat, size: int)
    requires i < |fl|
    ensures var cut, b, m' := Cut(fl, i, size), fl[i], AfterTaking(m, fl, i, size);
      && m'.words == Write(m.words, cut, TakenHeaders(HeadersIn(m.words, cut), i, b, size))
      && m'.head
         == if i > 0 then m.head else if b.size - size - HEADER_SIZE >= 0 then b.addr + HEADER_SIZE + size else NULL
  {}

  lemma TakenFields(m: Memory, m': Memory, fl: seq<Block>, i: nat, size: int, hs: seq<Header>)
    requires |m.words| == WORDS && Apart(fl) && i < |fl| && m.head == Addr(fl, 0)
    requires CutOpen(fl, i, size, hs) && hs == HeadersIn(m.words, Cut(fl, i, size))
    requires m' == AfterTaking(m, fl, i, size)
    ensures |m'.words| == WORDS && GivenOut(m, m', fl, i, size)
  {
    var cut := Cut(fl, i, size);
    var hs' := TakenHeaders(hs, i, fl[i], size);
    GivenHeaders(fl, i, size, hs);
    TakenParts(m, fl, i, size);
    FieldsWritten(m, cut, hs');
    assert HeadersIn(m'.words, cut) == hs';
    GivenBack(m, m', fl, i, size, hs, hs');
  }

  /** A NULL head, or a last node so much too small that the int arithmetic wraps around. */
  predicate AllocFaults(bs: seq<Block>, size: int) {
    var fl := Select(bs, false);
    fl == [] || (FirstFit(bs, size) == |bs| && fl[|fl| - 1].size - size - HEADER_SIZE < -0x8000_0000)
  }

  /** What the literal malloc leaves in memory, unless it faults. */
  ghost function AfterAlloc(m: Memory, bs: seq<Block>, size: int): Memory {
    var fl := Select(bs, false);
    if fl == [] then m else AfterTaking(m, fl, Stop(fl, size), size)
  }

  /** The blocks with size bytes given out by first fit, if they fit anywhere. */
  function Placed(bs: seq<Block>, size: int): seq<Block> {
    if FirstFit(bs, size) == |bs| then bs else AllocAt(bs, FirstFit(bs, size), size)
  }

  /** Node i, where the walk stops, is the first free block that is large enough; or, if there is none, the last. */
  ghost predicate StopIs(bs: seq<Block>, size: int, i: nat)
    requires i < |Select(bs, false)|
  {
    var fl, k := Select(bs, false), FirstFit(bs, size);
    && i == Stop(fl, size)
    && (if k < |bs| then fl[i] == bs[k] && size <= fl[i].size && i == |Select(bs[..k], false)|
        else fl[i].size < size && i == |fl| - 1)
  }

  lemma StopFound(bs: seq<Block>, size: int, i: nat)
    requires var fl := Select(bs, false);
      i < |fl| && (forall j :: 0 <= j < i ==> fl[j].size < size) && (size <= fl[i].size || i == |fl| - 1)
    ensures StopIs(bs, size, i)
    ensures AllocFaults(bs, size) <==> Select(bs, false)[i].size - size - HEADER_SIZE < -0x8000_0000
  {
    var fl := Select(bs, false);
    SelectLive(bs, false);
    WalkStops(fl, size, i);
    WalkFindsFirstFit(bs, size, if size <= fl[i].size then i else i + 1);
  }

  lemma NoHeadNoList(a: Arena, fl: seq<Block>)
    requires a.Shape() && Apart(fl) && LooseChain(a, fl)
    ensures a.head == NULL <==> fl == []
  {
    if fl != [] {
      assert InArena(fl[0]);
    }
  }

  /** _FirstFitAlgorithm, lines 127-144. */
  method FirstFitAlgorithm(a: Arena, size: int, ghost bs: seq<Block>) returns (out: Outcome)
    requires Loose(a, bs) && 0 <= size <= INT_MAX - 7 && size % 8 == 0
    modifies a`head, a.buffer
    ensures out.Fault? <==> AllocFaults(bs, size)
    ensures a.Mem() == if out.Fault? then old(a.Mem()) else AfterAlloc(old(a.Mem()), bs, size)
    ensures a.Kept(Select(bs, true))
    ensures var fl, k := Select(bs, false), FirstFit(bs, size);
      out.Returned? ==> out.p == if k < |bs| then bs[k].Payload() else fl[|fl| - 1].Payload()
    ensures var k := FirstFit(bs, size);
      out.Returned? ==> (Loose(a, Placed(bs, size)) <==> k < |bs| && LooseAllocAgrees(bs, k, size))
    ensures var k := FirstFit(bs, size);
      out.Returned? && old(a.Represents(bs)) ==>
        (a.Represents(Placed(bs, size))
         <==> k < |bs| && AllocAgrees(bs, k, size, Stale(old(a.Mem()).words, bs[k], size)))
  {
    ghost var fl := Select(bs, false);
    NoHeadNoList(a, fl);
    if a.head == NULL {
      return Fault;
    }
    var tmpHead, i := Walk(a, size, fl);
    LooseNodeAt(a, fl, i);
    StopFound(bs, size, i);
    out := ProcessStop(a, tmpHead, size, bs, i);
  }

  /** Lines 136-143, for the node where the walk has stopped; and the store outside BigBuffer that it may lead to. */
  method ProcessStop(a: Arena, tmpHead: int, size: int, ghost bs: seq<Block>, ghost i: nat) returns (out: Outcome)
    requires Loose(a, bs) && 0 <= size <= INT_MAX - 7 && size % 8 == 0
    requires var fl := Select(bs, false);
      && i < |fl| && StopIs(bs, size, i) && tmpHead == fl[i].addr && InArena(fl[i]) && a.Size(tmpHead) == fl[i].size
      && (AllocFaults(bs, size) <==> fl[i].size - size - HEADER_SIZE < -0x8000_0000)
    modifies a`head, a.buffer
    ensures out.Fault? <==> AllocFaults(bs, size)
    ensures a.Mem() == if out.Fault? then old(a.Mem()) else AfterAlloc(old(a.Mem()), bs, size)
    ensures a.Kept(Select(bs, true))
    ensures out.Returned? ==> out.p == tmpHead + HEADER_SIZE
    ensures var k := FirstFit(bs, size);
      out.Returned? ==> (Loose(a, Placed(bs, size)) <==> k < |bs| && LooseAllocAgrees(bs, k, size))
    ensures var k := FirstFit(bs, size);
      out.Returned? && old(a.Represents(bs)) ==>
        (a.Represents(Placed(bs, size))
         <==> k < |bs| && AllocAgrees(bs, k, size, Stale(old(a.Mem()).words, bs[k], size)))
  {
    var newSize := LiteralNewSize(a.Size(tmpHead), size);
    if newSize >= 0 && tmpHead + HEADER_SIZE + size + HEADER_SIZE > MAX_MALLOC_SIZE {
      return Fault;
    }
    Serve(a, tmpHead, size, newSize, bs, i);
    out := Returned(a.Buffer(tmpHead));
  }

  /** Node i, where the walk has stopped, is given out, whether or not it is large enough. */
  method Serve(a: Arena, tmpHead: int, size: int, newSize: int, ghost bs: seq<Block>, ghost i: nat)
    requires Loose(a, bs) && 0 <= size && size % 8 == 0
    requires var fl := Select(bs, false);
      && i < |fl| && StopIs(bs, size, i) && tmpHead == fl[i].addr && InArena(fl[i])
      && newSize == fl[i].size - size - HEADER_SIZE && a.Size(tmpHead) == fl[i].size
    modifies a`head, a.buffer
    ensures a.Mem() == AfterAlloc(old(a.Mem()), bs, size) && a.Kept(Select(bs, true))
    ensures a.Buffer(tmpHead) == tmpHead + HEADER_SIZE
    ensures var k := FirstFit(bs, size);
      Loose(a, Placed(bs, size)) <==> k < |bs| && LooseAllocAgrees(bs, k, size)
    ensures var k := FirstFit(bs, size);
      old(a.Represents(bs)) ==>
        (a.Represents(Placed(bs, size))
         <==> k < |bs| && AllocAgrees(bs, k, size, Stale(old(a.Mem()).words, bs[k], size)))
  {
    AfterAllocIs(a.Mem(), bs, size);
    if size <= a.Size(tmpHead) {
      TakeFit(a, tmpHead, size, newSize, bs, FirstFit(bs, size));
    } else {
      TakeTooSmall(a, tmpHead, size, newSize, bs, i);
      RepresentsIsLoose(a, bs);
    }
  }

  lemma AfterAllocIs(m: Memory, bs: seq<Block>, size: int)
    requires Select(bs, false) != []
    ensures AfterAlloc(m, bs, size) == AfterTaking(m, Select(bs, false), Stop(Select(bs, false), size), size)
  {}

  lemma CutInMemory(m: Memory, fl: seq<Block>, i: nat, size: int)
    requires Apart(fl) && i < |fl| && 0 <= size && size % 8 == 0 && Mended(HeadersIn(m.words, fl), fl) == Links(fl)
    ensures CutOpen(fl, i, size, HeadersIn(m.words, Cut(fl, i, size)))
  {
    var cut := CutNode(fl, i, size);
    CutOpens(fl, i, size, HeadersIn(m.words, cut), HeadersIn(m.words, fl));
  }

  lemma AfterTakingFields(m: Memory, m': Memory, fl: seq<Block>, i: nat, size: int)
    requires |m.words| == WORDS && Apart(fl) && i < |fl| && 0 <= size && size % 8 == 0
    requires m.head == Addr(fl, 0) && Mended(HeadersIn(m.words, fl), fl) == Links(fl)
    requires m' == AfterTaking(m, fl, i, size)
    ensures |m'.words| == WORDS && GivenOut(m, m', fl, i, size)
  {
    CutInMemory(m, fl, i, size);
    TakenFields(m, m', fl, i, size, HeadersIn(m.words, Cut(fl, i, size)));
  }

  /** The literal allocation, field by field. */
  lemma AllocFields(m: Memory, m': Memory, bs: seq<Block>, size: int)
    requires LooseIn(m, bs) && 0 <= size && size % 8 == 0 && Select(bs, false) != [] && m' == AfterAlloc(m, bs, size)
    ensures var fl := Select(bs, false); |m'.words| == WORDS && GivenOut(m, m', fl, Stop(fl, size), size)
  {
    var fl := Select(bs, false);
    AfterAllocIs(m, bs, size);
    AfterTakingFields(m, m', fl, Stop(fl, size), size);
  }

  /**
   MyMalloc as written. It faults on an empty list, and when a request so large that the int
   arithmetic wraps fits nowhere. Otherwise it returns what is intended exactly when something
   fits; then it keeps the loose representation exactly when LooseAllocAgrees holds, and the strict
   one exactly when AllocAgrees holds. The memory it leaves is given in full.
   In particular every field of every header is, whether or not memory is left as intended.
   */
  method MyMalloc(a: Arena, sz: int, ghost bs: seq<Block>) returns (out: Outcome)
    requires Loose(a, bs) && 0 <= sz <= INT_MAX - 7
    modifies a`head, a.buffer
    ensures out.Fault? <==> AllocFaults(bs, Align8(sz))
    ensures a.Mem() == if out.Fault? then old(a.Mem()) else AfterAlloc(old(a.Mem()), bs, Align8(sz))
    ensures var fl, s := Select(bs, false), Align8(sz);
      out.Returned? ==> GivenOut(old(a.Mem()), a.Mem(), fl, Stop(fl, s), s)
    ensures a.Kept(Select(bs, true))
    ensures var fl, k := Select(bs, false), FirstFit(bs, Align8(sz));
      out.Returned? ==> out.p == if k < |bs| then Malloc(bs, sz).pointer else fl[|fl| - 1].Payload()
    ensures var k := FirstFit(bs, Align8(sz));
      out.Returned? ==> (Loose(a, Malloc(bs, sz).blocks) <==> k < |bs| && LooseAllocAgrees(bs, k, Align8(sz)))
    ensures var s := Align8(sz);
      var k := FirstFit(bs, s);
      out.Returned? && old(a.Represents(bs)) ==>
        (a.Represents(Malloc(bs, sz).blocks)
         <==> k < |bs| && AllocAgrees(bs, k, s, Stale(old(a.Mem()).words, bs[k], s)))
  {
    assert Malloc(bs, sz).blocks == Placed(bs, Align8(sz));
    ghost var m := a.Mem();
    LooseIsIn(a, bs);
    out := FirstFitAlgorithm(a, Align8(sz), bs);
    if out.Returned? {
      AllocFields(m, a.Mem(), bs, Align8(sz));
    }
  }

  // ---------- MyFree ----------

  /** The list once node i has been put on it: the left link of its successor still skips it, unless it is the head. */
  ghost function LeftStale(fl: seq<Block>, i: nat): seq<Header>
    requires i < |fl|
  {
    if 0 < i < |fl| - 1 then Links(fl)[i + 1 := Links(fl)[i + 1].(left := fl[i - 1].addr)] else Links(fl)
  }

  /** What lines 66-105 do to the headers. */
  ghost function LiteralInserted(hs: seq<Header>, fl: seq<Block>, i: nat): seq<Header>
    requires i < |fl| == |hs|
  {
    if 0 < i then Behind(hs, fl, i) else Inserted(hs, fl, 0)
  }

  /** Lines 66-105. */
  method Insert(a: Arena, node: int, ghost fl: seq<Block>, ghost i: nat)
    requires a.Shape() && Apart(fl) && i < |fl| && fl[i].addr == node
    requires Apart(Removed(fl, i)) && LooseChain(a, Removed(fl, i))
    modifies a`head, a.buffer
    ensures a.head == Addr(fl, 0) && a.Headers(fl) == LiteralInserted(old(a.Headers(fl)), fl, i)
    ensures a.Untouched(fl)
  {
    ghost var rest := Removed(fl, i);
    a.RemovedHeaders(fl, i);
    Neighbours(fl, i);
    LooseNodeAt(a, rest, 0);
    var tmpHead := a.head;
    if a.head == NULL {
      a.SetRight(node, NULL, fl, i);
      a.SetLeft(node, NULL, fl, i);
      a.head := node;
    } else if tmpHead < node {
      ghost var j := 0;
      while a.Right(tmpHead) != NULL && a.Right(tmpHead) < node
        invariant 0 <= j < i && tmpHead == rest[j].addr && IsNode(tmpHead)
        invariant a.HeaderAt(tmpHead).(buffer := rest[j].Payload()) == Links(rest)[j]
        decreases i - j
        modifies {}
      {
        tmpHead := a.Right(tmpHead);
        j := j + 1;
        LooseNodeAt(a, rest, j);
      }
      InsertBehind(a, tmpHead, node, fl, i);
    } else {
      a.InsertFront(node, fl);
    }
  }

  /** Lines 94-97. */
  method InsertBehind(a: Arena, tmpHead: int, node: int, ghost fl: seq<Block>, ghost i: nat)
    requires a.Shape() && Apart(fl) && 0 < i < |fl| && fl[i].addr == node && fl[i - 1].addr == tmpHead
    requires a.Headers(fl)[i - 1].right == Addr(fl, i + 1)
    modifies a.buffer
    ensures a.Headers(fl) == Behind(old(a.Headers(fl)), fl, i)
    ensures a.Untouched(fl)
  {
    Neighbours(fl, i);
    assert a.Headers(fl)[i - 1] == a.HeaderAt(tmpHead);
    a.SetRight(node, a.Right(tmpHead), fl, i);
    a.SetRight(tmpHead, node, fl, i - 1);
    a.SetLeft(node, tmpHead, fl, i);
  }

  ghost function Behind(hs: seq<Header>, fl: seq<Block>, i: nat): seq<Header>
    requires 0 < i < |fl| == |hs|
  {
    var hs1 := hs[i := hs[i].(left := fl[i - 1].addr, right := Addr(fl, i + 1))];
    hs1[i - 1 := hs1[i - 1].(right := fl[i].addr)]
  }

  lemma InsertedBehind(fl: seq<Block>, i: nat, hs: seq<Header>)
    requires 0 < i < |fl| == |hs| && Removed(hs, i) == Links(Removed(fl, i))
    requires Inserted(hs, fl, i) == Links(fl)
    ensures Behind(hs, fl, i) == LeftStale(fl, i)
  {
    if i + 1 < |fl| {
      assert hs[i + 1] == Removed(hs, i)[i] == Links(Removed(fl, i))[i];
      assert Inserted(hs, fl, i) == Behind(hs, fl, i)[i + 1 := Links(fl)[i + 1]];
    }
  }

  /** With the buffers mended, these are the links of the list but for the one that is stale. */
  lemma InsertedLoosely(hs: seq<Header>, fl: seq<Block>, i: nat)
    requires i < |fl| == |hs| && Mended(Removed(hs, i), Removed(fl, i)) == Links(Removed(fl, i))
    requires hs[i].size == fl[i].size
    ensures Mended(LiteralInserted(hs, fl, i), fl) == LeftStale(fl, i)
  {
    var hsM := Mended(hs, fl);
    assert Removed(hsM, i) == Mended(Removed(hs, i), Removed(fl, i));
    InsertedLinks(fl, i, hsM);
    assert Mended(LiteralInserted(hs, fl, i), fl) == LiteralInserted(hsM, fl, i);
    if 0 < i {
      InsertedBehind(fl, i, hsM);
    }
  }

  /** Header i after lines 208-209 or 218-219: the header of the absorbed node is not added to its size. */
  ghost function Swallowed(hs: seq<Header>, i: nat): seq<Header>
    requires i + 1 < |hs|
  {
    hs[i := hs[i].(size := hs[i].size + hs[i + 1].size, right := hs[i + 1].right)]
  }

  /**
   What _CoalesceFreeNodes leaves. It trusts the buffer of the left neighbour, and merges to the
   right only at the head.
   */
  ghost function LiteralCoalesced(hs: seq<Header>, i: nat): seq<Header>
    requires i < |hs|
  {
    if 0 < i then (if hs[i - 1].buffer + hs[i - 1].size == hs[i - 1].right then Swallowed(hs, i - 1) else hs)
    else if 1 < |hs| && hs[0].buffer + hs[0].size == hs[0].right then Swallowed(hs, 0)
    else hs
  }

  method Swallow(a: Arena, l: int, r: int, ghost fl: seq<Block>, ghost i: nat)
    requires a.Shape() && Apart(fl) && i + 1 < |fl| && fl[i].addr == l && fl[i + 1].addr == r
    modifies a.buffer
    ensures a.Headers(fl) == Swallowed(old(a.Headers(fl)), i)
    ensures a.Untouched(fl)
  {
    assert InArena(fl[i]) && InArena(fl[i + 1]);
    assert a.Headers(fl)[i] == a.HeaderAt(l) && a.Headers(fl)[i + 1] == a.HeaderAt(r);
    var right := a.Right(r);
    a.SetSize(l, a.Size(l) + a.Size(r), fl, i);
    a.SetRight(l, right, fl, i);
  }

  lemma InsertedHeader(hs: seq<Header>, fl: seq<Block>, i: nat)
    requires Apart(fl) && i < |fl| == |hs| && Mended(hs, fl) == LeftStale(fl, i)
    ensures hs[i].left == Addr(fl, i - 1) && hs[i].right == Addr(fl, i + 1) && hs[i].size == fl[i].size
    ensures 0 < i ==> hs[i - 1].right == fl[i].addr && hs[i - 1].size == fl[i - 1].size
  {
    assert Mended(hs, fl)[i] == Links(fl)[i];
    assert 0 < i ==> Mended(hs, fl)[i - 1] == Links(fl)[i - 1];
  }

  /** Once the left neighbour was looked at, merged or not, the test of line 216 fails. */
  lemma NoSecondMerge(hs: seq<Header>, fl: seq<Block>, i: nat)
    requires Apart(fl) && 0 < i < |fl| == |hs| && Mended(hs, fl) == LeftStale(fl, i)
    ensures var l := LiteralCoalesced(hs, i)[i - 1]; l.buffer + l.size != l.right
  {
    InsertedHeader(hs, fl, i);
    Neighbours(fl, i);
    assert InArena(fl[i]) && (i + 1 < |fl| ==> Before(fl[i], fl[i + 1]));
  }

  /** Lines 197-224. */
  method CoalesceFreeNodes(a: Arena, node: int, ghost fl: seq<Block>, ghost i: nat)
    requires a.Shape() && Apart(fl) && i < |fl| && fl[i].addr == node
    requires Mended(a.Headers(fl), fl) == LeftStale(fl, i) && a.Headers(fl)[i].buffer == fl[i].Payload()
    modifies a.buffer
    ensures a.Headers(fl) == LiteralCoalesced(old(a.Headers(fl)), i)
    ensures a.Untouched(fl)
  {
    ghost var hs := a.Headers(fl);
    InsertedHeader(hs, fl, i);
    NodesAt(a, fl, i);
    assert 0 < i ==> InArena(fl[i - 1]);
    var l, r := a.Left(node), a.Right(node);
    var n := node;
    if l != NULL {
      NodesAt(a, fl, i - 1);
      if a.Buffer(l) + a.Size(l) == a.Right(l) {
        Swallow(a, l, node, fl, i - 1);
        NodesAt(a, fl, i - 1);
      }
      n := l;
      NoSecondMerge(hs, fl, i);
    }
    if a.Buffer(n) + a.Size(n) == a.Right(n) {
      assert i == 0 && 1 < |fl|;
      Swallow(a, n, r, fl, 0);
    }
  }

  lemma NodesAt(a: Arena, fl: seq<Block>, i: nat)
    requires a.Shape() && Apart(fl) && i < |fl|
    ensures InArena(fl[i]) && a.HeaderAt(fl[i].addr) == a.Headers(fl)[i]
  {
    assert InArena(fl[i]);
  }

  /** The list neighbours of node i do not touch it, line 206 agrees, and node i is the first or the last. */
  predicate Undisturbed(fl: seq<Block>, i: nat, leftBuffer: int)
    requires i < |fl|
  {
    && (0 < i ==> fl[i - 1].End() != fl[i].addr && leftBuffer + fl[i - 1].size != fl[i].addr)
    && (i + 1 < |fl| ==> fl[i].End() != fl[i + 1].addr)
    && (i == 0 || i + 1 == |fl|)
  }

  /** The list left in memory is the coalesced one exactly when nothing was to merge, and nothing seemed to. */
  lemma CoalescedChain(a: Arena, fl: seq<Block>, i: nat, hs: seq<Header>, target: seq<Block>)
    requires a.Shape() && Apart(fl) && i < |fl| && Apart(target) && target == Coalesce(fl, i)
    requires |hs| == |fl| && Mended(hs, fl) == LeftStale(fl, i) && hs[i].buffer == fl[i].Payload()
    requires a.head == Addr(fl, 0) && a.Headers(fl) == LiteralCoalesced(hs, i)
    ensures LooseChain(a, target) <==> Undisturbed(fl, i, if 0 < i then hs[i - 1].buffer else NULL)
  {
    Neighbours(fl, i);
    assert Mended(hs, fl)[i] == Links(fl)[i];
    assert 0 < i ==> Mended(hs, fl)[i - 1] == Links(fl)[i - 1];
    if Adjacent(fl, i - 1) || Adjacent(fl, i) {
      TooSmall(a, fl, i, hs, target);
    } else {
      assert target == fl;
      if 0 < i && hs[i - 1].buffer + hs[i - 1].size == hs[i - 1].right {
        assert Mended(a.Headers(fl), fl)[i - 1].right == Addr(fl, i + 1) != fl[i].addr;
      } else if 0 < i < |fl| - 1 {
        assert Mended(a.Headers(fl), fl)[i + 1].left == fl[i - 1].addr;
        assert Links(fl)[i + 1].left == fl[i].addr;
        assert Before(fl[i - 1], fl[i]);
      } else {
        assert Mended(a.Headers(fl), fl) == LeftStale(fl, i) == Links(fl);
      }
    }
  }

  /** Where a merge was due the size left is too small by a header at least. */
  lemma TooSmall(a: Arena, fl: seq<Block>, i: nat, hs: seq<Header>, target: seq<Block>)
    requires a.Shape() && Apart(fl) && i < |fl| && Apart(target) && target == Coalesce(fl, i)
    requires |hs| == |fl| && Mended(hs, fl) == LeftStale(fl, i)
    requires a.Headers(fl) == LiteralCoalesced(hs, i)
    requires Adjacent(fl, i - 1) || Adjacent(fl, i)
    ensures !LooseChain(a, target)
  {
    var j := if Adjacent(fl, i - 1) then i - 1 else i;
    CoalesceAt(fl, i, j);
    assert InArena(fl[j]) && InArena(fl[j + 1]) && InArena(target[j]);
    assert Mended(hs, fl)[j].size == fl[j].size && Mended(hs, fl)[j + 1].size == fl[j + 1].size;
    assert a.Headers(fl)[j] == a.HeaderAt(fl[j].addr) == a.Headers(target)[j];
    assert a.Headers(fl)[j].size <= fl[j].size + fl[j + 1].size;
    assert Mended(a.Headers(target), target)[j].size < target[j].size == Links(target)[j].size;
  }

  lemma CoalesceAt(fl: seq<Block>, i: nat, j: nat)
    requires Apart(fl) && i < |fl| && j == (if Adjacent(fl, i - 1) then i - 1 else i) && Adjacent(fl, j)
    ensures j < |Coalesce(fl, i)| && Coalesce(fl, i)[j].addr == fl[j].addr
    ensures fl[j].size + fl[j + 1].size < Coalesce(fl, i)[j].size
  {
    assert InArena(fl[j]) && InArena(fl[j + 1]);
    var fl1 := MergeAt(fl, j);
    assert fl1[j] == Join(fl[j], fl[j + 1]);
    if j == i - 1 && Adjacent(fl1, j) {
      assert fl1[j + 1] == fl[j + 2];
      assert InArena(fl[j + 2]);
      assert MergeAt(fl1, j)[j] == Join(fl1[j], fl1[j + 1]);
    }
  }

  /** Neither neighbour of block k is free, and the free blocks all lie on one side of it. */
  predicate FreeAgrees(bs: seq<Block>, k: nat)
    requires k < |bs|
  {
    && MergeLo(bs, k) == k && MergeHi(bs, k) == k + 1
    && (Select(bs[..k], false) == [] || Select(bs[k + 1..], false) == [])
  }

  /** Moreover line 206 does not take the stale buffer of the free block to the left for a sign that it touches. */
  predicate LooseFreeAgrees(words: seq<int>, bs: seq<Block>, k: nat)
    requires k < |bs|
  {
    var before := Select(bs[..k], false);
    && FreeAgrees(bs, k)
    && (before != [] ==>
          var l := before[|before| - 1]; Word(words, l.addr, BUFFER) + l.size != bs[k].addr)
  }

  /** The free list with block k put on it. */
  function WithBlock(bs: seq<Block>, k: nat): seq<Block>
    requires k < |bs|
  {
    Select(bs[..k], false) + [bs[k].(live := false)] + Select(bs[k + 1..], false)
  }

  /** What the literal code leaves in memory when it puts node i of fl on the list. */
  ghost function Freed(m: Memory, fl: seq<Block>, i: nat): Memory
    requires i < |fl|
  {
    Memory(Addr(fl, 0), Write(m.words, fl, LiteralCoalesced(LiteralInserted(HeadersIn(m.words, fl), fl, i), i)))
  }

  /** What the literal free of block k leaves in memory. */
  ghost function AfterFree(m: Memory, bs: seq<Block>, k: nat): Memory
    requires k < |bs|
  {
    Freed(m, WithBlock(bs, k), |Select(bs[..k], false)|)
  }

  // ---------- What MyFree leaves, field by field ----------

  /**
   Block i of fl was put on the list in m, and m' is left. Where it is taken to touch a neighbour the
   left one of the two gets both sizes, a header short, and the right link of the right one. To the
   left that is decided by a buffer that may be stale; to the right it happens at the head only.
   */
  ghost predicate TakenBack(m: Memory, m': Memory, fl: seq<Block>, i: nat)
    requires i < |fl| && |m.words| == |m'.words| == WORDS
  {
    var b := fl[i];
    && m'.head == fl[0].addr
    && (if 0 < i then
          var l := fl[i - 1];
          var touches := Word(m.words, l.addr, BUFFER) + l.size == b.addr;
          && HeaderIn(m'.words, l.addr)
             == HeaderIn(m.words, l.addr).(right := if touches then Addr(fl, i + 1) else b.addr,
                                           size := if touches then l.size + b.size else l.size)
          && HeaderIn(m'.words, b.addr) == Header(l.addr, Addr(fl, i + 1), b.size, b.Payload())
          && (i + 1 < |fl| ==> HeaderIn(m'.words, fl[i + 1].addr) == HeaderIn(m.words, fl[i + 1].addr))
        else
          var touches := 1 < |fl| && b.Payload() + b.size == fl[1].addr;
          && HeaderIn(m'.words, b.addr)
             == Header(NULL, if touches then Addr(fl, 2) else Addr(fl, 1),
                       if touches then b.size + fl[1].size else b.size, b.Payload())
          && (1 < |fl| ==> HeaderIn(m'.words, fl[1].addr) == HeaderIn(m.words, fl[1].addr).(left := b.addr)))
    && (forall j :: 0 <= j < |fl| && (j < i - 1 || i + 1 < j) ==>
          HeaderIn(m'.words, fl[j].addr) == HeaderIn(m.words, fl[j].addr))
    && (forall w :: 0 <= w < WORDS && !InHeader(fl, w) ==> m'.words[w] == m.words[w])
  }

  /** The same said of the headers hs of fl. */
  ghost predicate CoalescedTo(hs: seq<Header>, hs': seq<Header>, fl: seq<Block>, i: nat)
    requires i < |fl| == |hs| == |hs'|
  {
    var b := fl[i];
    && (if 0 < i then
          var l := fl[i - 1];
          var touches := hs[i - 1].buffer + l.size == b.addr;
          && hs'[i - 1] == hs[i - 1].(right := if touches then Addr(fl, i + 1) else b.addr,
                                      size := if touches then l.size + b.size else l.size)
          && hs'[i] == Header(l.addr, Addr(fl, i + 1), b.size, b.Payload())
          && (i + 1 < |fl| ==> hs'[i + 1] == hs[i + 1])
        else
          var touches := 1 < |fl| && b.Payload() + b.size == fl[1].addr;
          && hs'[0] == Header(NULL, if touches then Addr(fl, 2) else Addr(fl, 1),
                              if touches then b.size + fl[1].size else b.size, b.Payload())
          && (1 < |fl| ==> hs'[1] == hs[1].(left := b.addr)))
    && (forall j :: 0 <= j < |fl| && (j < i - 1 || i + 1 < j) ==> hs'[j] == hs[j])
  }

  lemma CoalescedFields(hs: seq<Header>, fl: seq<Block>, i: nat)
    requires i < |fl| == |hs| && Mended(Removed(hs, i), Removed(fl, i)) == Links(Removed(fl, i))
    requires hs[i].size == fl[i].size && hs[i].buffer == fl[i].Payload()
    ensures var hs' := LiteralCoalesced(LiteralInserted(hs, fl, i), i);
      |hs'| == |hs| && CoalescedTo(hs, hs', fl, i)
  {
    var rest := Removed(fl, i);
    if 0 < i {
      assert Mended(Removed(hs, i), rest)[i - 1] == Links(rest)[i - 1];
      assert Removed(hs, i)[i - 1] == hs[i - 1] && rest[i - 1] == fl[i - 1];
    } else if 1 < |fl| {
      assert Mended(Removed(hs, i), rest)[0] == Links(rest)[0];
      assert Removed(hs, i)[0] == hs[1] && rest[0] == fl[1];
    }
  }

  lemma FreedFields(m: Memory, m': Memory, fl: seq<Block>, i: nat, hs: seq<Header>)
    requires |m.words| == WORDS && Apart(fl) && i < |fl| && hs == HeadersIn(m.words, fl)
    requires Mended(Removed(hs, i), Removed(fl, i)) == Links(Removed(fl, i))
    requires hs[i].size == fl[i].size && hs[i].buffer == fl[i].Payload()
    requires m' == Freed(m, fl, i)
    ensures |m'.words| == WORDS && TakenBack(m, m', fl, i)
  {
    var hs' := LiteralCoalesced(LiteralInserted(hs, fl, i), i);
    CoalescedFields(hs, fl, i);
    FieldsWritten(m, fl, hs');
  }

  method InsertAndCoalesce(a: Arena, node: int, ghost fl: seq<Block>, ghost i: nat)
    requires a.Shape() && Apart(fl) && i < |fl| && fl[i].addr == node
    requires Apart(Removed(fl, i)) && LooseChain(a, Removed(fl, i))
    requires a.Headers(fl)[i].size == fl[i].size && a.Headers(fl)[i].buffer == fl[i].Payload()
    modifies a`head, a.buffer
    ensures a.head == Addr(fl, 0) && a.Mem() == Freed(old(a.Mem()), fl, i)
    ensures a.Headers(fl) == LiteralCoalesced(LiteralInserted(old(a.Headers(fl)), fl, i), i)
    ensures a.Untouched(fl)
  {
    ghost var hs := a.Headers(fl);
    a.HeadersInMem(fl);
    a.RemovedHeaders(fl, i);
    InsertedLoosely(hs, fl, i);
    var wasEmpty := a.head == NULL;
    assert |fl| > 1 ==> InArena(Removed(fl, i)[0]);
    Insert(a, node, fl, i);
    if !wasEmpty {
      CoalesceFreeNodes(a, node, fl, i);
    }
    a.Written(fl);
  }

  /** A list node touches a neighbour exactly when the block next to it is free. */
  lemma AdjacentIsMerge(bs: seq<Block>, k: nat)
    requires WellFormed(bs) && k < |bs| && bs[k].live
    ensures var i, fl := |Select(bs[..k], false)|, WithBlock(bs, k);
      && (Adjacent(fl, i - 1) <==> MergeLo(bs, k) < k)
      && (Adjacent(fl, i) <==> k + 1 < MergeHi(bs, k))
  {
    var before, after, fl := Select(bs[..k], false), Select(bs[k + 1..], false), WithBlock(bs, k);
    FreeLeft(bs, k);
    FreeRight(bs, k);
    var b := bs[k].(live := false);
    assert Adjacent(fl, |before| - 1) <==> before != [] && before[|before| - 1].End() == b.addr;
    assert Adjacent(fl, |before|) <==> after != [] && b.End() == after[0].addr;
    if MergeLo(bs, k) < k {
      assert before[|before| - 1] == bs[k - 1];
    }
    if k + 1 < MergeHi(bs, k) {
      assert after[0] == bs[k + 1];
      assert b.End() == bs[k + 1].addr;
      assert Adjacent(fl, |before|);
    } else if after != [] {
      assert bs[k].End() < Select(bs[k + 1..], false)[0].addr;
    }
  }

  /** Whether node i is undisturbed can be told from the blocks and one word of memory. */
  lemma UndisturbedIsAgreed(words: seq<int>, bs: seq<Block>, k: nat)
    requires WellFormed(bs) && k < |bs| && bs[k].live
    ensures var i, fl := |Select(bs[..k], false)|, WithBlock(bs, k);
      Undisturbed(fl, i, if 0 < i then Word(words, fl[i - 1].addr, BUFFER) else NULL) <==> LooseFreeAgrees(words, bs, k)
  {
    AdjacentIsMerge(bs, k);
  }

  /** The headers hs of a list with node i just put on it; words are those of memory before that. */
  ghost predicate OnList(words: seq<int>, fl: seq<Block>, i: nat, hs: seq<Header>) {
    && i < |fl| == |hs| && Mended(hs, fl) == LeftStale(fl, i) && hs[i].buffer == fl[i].Payload()
    && (0 < i ==> hs[i - 1].buffer == Word(words, fl[i - 1].addr, BUFFER))
  }

  /** With the live headers as intended, the list as the source leaves it decides. */
  lemma FreeRepresents(a: Arena, words: seq<int>, bs: seq<Block>, k: nat, fl: seq<Block>, i: nat, hs: seq<Header>)
    requires a.Shape() && WellFormed(bs) && k < |bs| && bs[k].live && WellFormed(FreeAt(bs, k))
    requires fl == WithBlock(bs, k) && i == |Select(bs[..k], false)| && Apart(fl)
    requires OnList(words, fl, i, hs)
    requires a.head == Addr(fl, 0) && a.Headers(fl) == LiteralCoalesced(hs, i)
    requires Apart(Select(FreeAt(bs, k), true))
    requires a.Headers(Select(FreeAt(bs, k), true)) == Unlinked(Select(FreeAt(bs, k), true))
    ensures Loose(a, FreeAt(bs, k)) <==> LooseFreeAgrees(words, bs, k)
    ensures BuffersSet(hs, fl) ==> (a.Represents(FreeAt(bs, k)) <==> FreeAgrees(bs, k))
  {
    var target := Select(FreeAt(bs, k), false);
    SelectApart(FreeAt(bs, k), 0, MAX_MALLOC_SIZE, false);
    CoalesceIsFreeAt(bs, k);
    CoalescedChain(a, fl, i, hs, target);
    UndisturbedIsAgreed(words, bs, k);
    AdjacentIsMerge(bs, k);
    RepresentsIsLoose(a, FreeAt(bs, k));
    if BuffersSet(hs, fl) && 0 < i {
      assert hs[i - 1].buffer == fl[i - 1].Payload();
    }
  }

  /** Putting a node on the list changes no buffer. */
  lemma InsertedBuffers(hs: seq<Header>, fl: seq<Block>, i: nat)
    requires i < |fl| == |hs|
    ensures var hs' := LiteralInserted(hs, fl, i);
      |hs'| == |hs| && forall j :: 0 <= j < |hs| ==> hs'[j].buffer == hs[j].buffer
  {}

  lemma BeforeFree(a: Arena, bs: seq<Block>, k: nat, fl: seq<Block>, i: nat)
    requires Loose(a, bs) && k < |bs| && bs[k].live && fl == WithBlock(bs, k) && i == |Select(bs[..k], false)|
    ensures Apart(fl) && Apart(Removed(fl, i)) && LooseChain(a, Removed(fl, i))
    ensures a.Headers(fl)[i].size == fl[i].size && a.Headers(fl)[i].buffer == fl[i].Payload()
    ensures OnList(a.Mem().words, fl, i, LiteralInserted(a.Headers(fl), fl, i))
    ensures a.Represents(bs) ==> BuffersSet(LiteralInserted(a.Headers(fl), fl, i), fl)
    ensures var live := Select(bs[..k], true) + Select(bs[k + 1..], true);
      Apart(live) && a.Headers(live) == Unlinked(live)
  {
    MarkedTiles(bs, k);
    a.FreedHeader(bs, k);
    a.RemovedHeaders(fl, i);
    a.HeadersInMem(fl);
    InsertedLoosely(a.Headers(fl), fl, i);
    RepresentsIsLoose(a, bs);
    InsertedBuffers(a.Headers(fl), fl, i);
    BuffersSetBack(a.Headers(fl), fl, i);
  }

  lemma BuffersSetBack(hs: seq<Header>, fl: seq<Block>, i: nat)
    requires i < |fl| == |hs| && hs[i].buffer == fl[i].Payload()
    ensures BuffersSet(Removed(hs, i), Removed(fl, i)) ==> BuffersSet(hs, fl)
  {
    if BuffersSet(Removed(hs, i), Removed(fl, i)) {
      forall j | 0 <= j < |fl| ensures hs[j].buffer == fl[j].Payload() {
        assert j < i ==> Removed(hs, i)[j] == hs[j] && Removed(fl, i)[j] == fl[j];
        assert j > i ==> Removed(hs, i)[j - 1] == hs[j] && Removed(fl, i)[j - 1] == fl[j];
      }
    }
  }

  lemma LiveAfterFree(bs: seq<Block>, k: nat)
    requires WellFormed(bs) && k < |bs| && bs[k].live
    ensures Tiles(Marked(bs, k), 0, MAX_MALLOC_SIZE) && Select(Marked(bs, k), false) == WithBlock(bs, k)
    ensures WellFormed(FreeAt(bs, k)) && Apart(Select(FreeAt(bs, k), true))
    ensures Select(Marked(bs, k), true) == Select(FreeAt(bs, k), true)
    ensures Select(Marked(bs, k), true) == Select(bs[..k], true) + Select(bs[k + 1..], true)
  {
    MarkedTiles(bs, k);
    SelectMarked(bs, k);
    SelectLiveAfterFreeAt(bs, k);
    FreeAtWellFormed(bs, k);
  }

  lemma AfterFreeIs(m: Memory, bs: seq<Block>, k: nat, fl: seq<Block>, i: nat)
    requires k < |bs| && fl == WithBlock(bs, k) && i == |Select(bs[..k], false)|
    ensures AfterFree(m, bs, k) == Freed(m, fl, i)
  {}

  lemma LiveHeader(m: Memory, bs: seq<Block>, k: nat)
    requires k < |bs| && bs[k].live && HeadersIn(m.words, Select(bs, true)) == Unlinked(Select(bs, true))
    ensures HeaderIn(m.words, bs[k].addr) == Header(NULL, NULL, bs[k].size, bs[k].Payload())
  {
    var live, n := Select(bs, true), |Select(bs[..k], true)|;
    SelectAt(bs, k, true);
    assert live[n] == bs[k] && HeadersIn(m.words, live)[n] == Unlinked(live)[n];
  }

  lemma RemovedIn(words: seq<int>, fl: seq<Block>, i: nat)
    requires i < |fl|
    ensures Removed(HeadersIn(words, fl), i) == HeadersIn(words, Removed(fl, i))
  {}

  /** The free list with block k on it, in memory before that. */
  lemma BlockInMemory(m: Memory, bs: seq<Block>, k: nat, fl: seq<Block>, i: nat)
    requires LooseIn(m, bs) && k < |bs| && bs[k].live && fl == WithBlock(bs, k) && i == |Select(bs[..k], false)|
    ensures Apart(fl) && Mended(Removed(HeadersIn(m.words, fl), i), Removed(fl, i)) == Links(Removed(fl, i))
    ensures HeadersIn(m.words, fl)[i].size == fl[i].size && HeadersIn(m.words, fl)[i].buffer == fl[i].Payload()
  {
    MarkedTiles(bs, k);
    SelectMarked(bs, k);
    SelectAt(bs, k, false);
    assert Removed(fl, i) == Select(bs, false);
    RemovedIn(m.words, fl, i);
    LiveHeader(m, bs, k);
  }

  /** The literal free, field by field. */
  lemma FreeFields(m: Memory, m': Memory, bs: seq<Block>, k: nat)
    requires LooseIn(m, bs) && k < |bs| && bs[k].live && m' == AfterFree(m, bs, k)
    ensures |m'.words| == WORDS && TakenBack(m, m', WithBlock(bs, k), |Select(bs[..k], false)|)
  {
    var fl, i := WithBlock(bs, k), |Select(bs[..k], false)|;
    BlockInMemory(m, bs, k, fl, i);
    AfterFreeIs(m, bs, k, fl, i);
    FreedFields(m, m', fl, i, HeadersIn(m.words, fl));
  }

  method TakeBack(a: Arena, node: int, ghost bs: seq<Block>, ghost k: nat)
    requires Loose(a, bs) && k < |bs| && bs[k].live && node == bs[k].addr
    modifies a`head, a.buffer
    ensures a.Mem() == AfterFree(old(a.Mem()), bs, k)
    ensures a.Kept(Select(FreeAt(bs, k), true))
    ensures Loose(a, FreeAt(bs, k)) <==> LooseFreeAgrees(old(a.Mem()).words, bs, k)
    ensures old(a.Represents(bs)) ==> (a.Represents(FreeAt(bs, k)) <==> FreeAgrees(bs, k))
  {
    ghost var fl, i, words := WithBlock(bs, k), |Select(bs[..k], false)|, a.Mem().words;
    BeforeFree(a, bs, k, fl, i);
    ghost var hs := LiteralInserted(a.Headers(fl), fl, i);
    assert OnList(words, fl, i, hs) && (a.Represents(bs) ==> BuffersSet(hs, fl));
    AfterFreeIs(a.Mem(), bs, k, fl, i);
    InsertAndCoalesce(a, node, fl, i);
    a.HeadersAreInside(fl);
    LiveAfterFree(bs, k);
    a.LiveKept(Marked(bs, k));
    a.KeptHeaders(Select(FreeAt(bs, k), true));
    FreeRepresents(a, words, bs, k, fl, i, hs);
  }

  /**
   MyFree as written. It keeps the loose representation exactly when LooseFreeAgrees holds of the
   freed block, and the strict one exactly when FreeAgrees does. The memory it leaves is given in full,
   and so is every field of every header, merged or not.
   */
  method MyFree(a: Arena, p: int, ghost bs: seq<Block>)
    requires Loose(a, bs) && (p == NULL || IsLive(bs, p))
    modifies a`head, a.buffer
    ensures var k := LiveIndex(bs, p);
      a.Mem() == if p == NULL then old(a.Mem()) else AfterFree(old(a.Mem()), bs, k)
    ensures var k := LiveIndex(bs, p);
      p != NULL ==> TakenBack(old(a.Mem()), a.Mem(), WithBlock(bs, k), |Select(bs[..k], false)|)
    ensures a.Kept(Select(Free(bs, p), true))
    ensures var k := LiveIndex(bs, p);
      Loose(a, Free(bs, p)) <==> p == NULL || LooseFreeAgrees(old(a.Mem()).words, bs, k)
    ensures var k := LiveIndex(bs, p);
      old(a.Represents(bs)) ==> (a.Represents(Free(bs, p)) <==> p == NULL || FreeAgrees(bs, k))
  {
    if p != NULL {
      ghost var m, k := a.Mem(), LiveIndex(bs, p);
      LooseIsIn(a, bs);
      TakeBack(a, p - HEADER_SIZE, bs, k);
      FreeFields(m, a.Mem(), bs, k);
    }
  }
}

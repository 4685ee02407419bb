/**
 The allocator of proj1_malloc: an arena of words in which free blocks are threaded, in place,
 on a doubly-linked list sorted by address.

 The source as written does not do what its comments and tests ask for; here each departure is
 repaired, and each repair is marked. Module LiteralArena keeps the code as it is written.
 */
module ArenaModule {
  import opened CInts
  import opened BlockList
  import opened FreeList
  import opened Memories

  /** `int newSize = nodeSize - size - HEADER_SIZE`, whose last subtraction is done in size_t. */
  function NewSize(nodeSize: int, size: int): int {
    ToInt(ToSizeT(ToSizeT(nodeSize - size) - HEADER_SIZE))
  }

  /** The mixed arithmetic is exact as long as the difference fits an int. */
  method ComputeNewSize(nodeSize: int, size: int) returns (newSize: int)
    requires -0x8000_0000 <= nodeSize - size - HEADER_SIZE && nodeSize - size <= INT_MAX
    ensures newSize == nodeSize - size - HEADER_SIZE
  {
    newSize := NewSize(nodeSize, size);
  }

  class Arena {
    const buffer: array<int>
    var head: int
    ghost var blocks: seq<Block>

    ghost predicate Shape() { buffer.Length == WORDS }

    // ---------- Header fields, in place ----------

    /** The four fields of the header at address a. */
    ghost function HeaderAt(a: int): Header
      requires Shape() && IsNode(a)
      reads buffer
    {
      Header(buffer[a / 8 + LEFT], buffer[a / 8 + RIGHT], buffer[a / 8 + SIZE], buffer[a / 8 + BUFFER])
    }

    ghost function Headers(fl: seq<Block>): seq<Header>
      requires Shape() && Apart(fl)
      reads buffer
    {
      seq(|fl|, i requires 0 <= i < |fl| reads buffer => assert InArena(fl[i]); HeaderAt(fl[i].addr))
    }

    function Left(a: int): (v: int)
      requires Shape() && IsNode(a)
      reads buffer
      ensures v == HeaderAt(a).left
    { buffer[a / 8 + LEFT] }

    function Right(a: int): (v: int)
      requires Shape() && IsNode(a)
      reads buffer
      ensures v == HeaderAt(a).right
    { buffer[a / 8 + RIGHT] }

    function Size(a: int): (v: int)
      requires Shape() && IsNode(a)
      reads buffer
      ensures v == HeaderAt(a).size
    { buffer[a / 8 + SIZE] }

    function Buffer(a: int): (v: int)
      requires Shape() && IsNode(a)
      reads buffer
      ensures v == HeaderAt(a).buffer
    { buffer[a / 8 + BUFFER] }

    /** Of the headers of fl only the i-th changed, to h, and nothing outside these headers did. */
    twostate predicate Wrote(fl: seq<Block>, i: nat, h: Header)
      requires Shape() && Apart(fl) && i < |fl|
      reads buffer
    {
      && Headers(fl) == old(Headers(fl))[i := h]
      && Untouched(fl)
    }

    /** No word outside the headers of fl changed. */
    twostate predicate Untouched(fl: seq<Block>)
      requires Shape()
      reads buffer
    {
      forall w {:trigger buffer[w]} :: 0 <= w < WORDS && !InHeader(fl, w) ==> buffer[w] == old(buffer[w])
    }

    /** No word outside the blocks of fl changed. */
    twostate predicate Within(fl: seq<Block>)
      requires Shape()
      reads buffer
    {
      forall w {:trigger buffer[w]} :: 0 <= w < WORDS && !InSome(fl, w) ==> buffer[w] == old(buffer[w])
    }

    /** No word changed that is in no header of a block, neither of those before nor of those after. */
    twostate predicate HeadersOnly(before: seq<Block>, after: seq<Block>)
      requires Shape()
      reads buffer
    {
      forall w {:trigger buffer[w]} :: 0 <= w < WORDS && !InHeader(before, w) && !InHeader(after, w) ==>
        buffer[w] == old(buffer[w])
    }

    ghost function Mem(): Memory
      reads this`head, buffer
    {
      Memory(head, buffer[..])
    }

    lemma HeadersInMem(fl: seq<Block>)
      requires Shape() && Apart(fl)
      ensures HeadersIn(Mem().words, fl) == Headers(fl)
    {
      forall i | 0 <= i < |fl| ensures HeadersIn(Mem().words, fl)[i] == Headers(fl)[i] {
        assert InArena(fl[i]);
      }
    }

    /** Memory after only headers of fl were written. */
    twostate lemma Written(fl: seq<Block>)
      requires Shape() && Apart(fl) && Untouched(fl)
      ensures Mem().words == Write(old(Mem().words), fl, Headers(fl))
    {
      HeadersInMem(fl);
      WriteIs(old(Mem().words), Mem().words, fl, Headers(fl));
    }

    /** a->left = v, where a is node i of fl; likewise for the other fields. */
    method SetLeft(a: int, v: int, ghost fl: seq<Block>, ghost i: nat)
      requires Shape() && Apart(fl) && i < |fl| && a == fl[i].addr
      modifies buffer
      ensures Wrote(fl, i, old(Headers(fl))[i].(left := v))
    {
      Neighbours(fl, i);
      assert InHeader(fl, a / 8 + LEFT);
      buffer[a / 8 + LEFT] := v;
    }

    method SetRight(a: int, v: int, ghost fl: seq<Block>, ghost i: nat)
      requires Shape() && Apart(fl) && i < |fl| && a == fl[i].addr
      modifies buffer
      ensures Wrote(fl, i, old(Headers(fl))[i].(right := v))
    {
      Neighbours(fl, i);
      assert InHeader(fl, a / 8 + RIGHT);
      buffer[a / 8 + RIGHT] := v;
    }

    method SetSize(a: int, v: int, ghost fl: seq<Block>, ghost i: nat)
      requires Shape() && Apart(fl) && i < |fl| && a == fl[i].addr
      modifies buffer
      ensures Wrote(fl, i, old(Headers(fl))[i].(size := v))
    {
      Neighbours(fl, i);
      assert InHeader(fl, a / 8 + SIZE);
      buffer[a / 8 + SIZE] := v;
    }

    method SetBuffer(a: int, v: int, ghost fl: seq<Block>, ghost i: nat)
      requires Shape() && Apart(fl) && i < |fl| && a == fl[i].addr
      modifies buffer
      ensures Wrote(fl, i, old(Headers(fl))[i].(buffer := v))
    {
      Neighbours(fl, i);
      assert InHeader(fl, a / 8 + BUFFER);
      buffer[a / 8 + BUFFER] := v;
    }

    method SetNode(a: int, left: int, right: int, size: int, buf: int, ghost fl: seq<Block>, ghost i: nat)
      requires Shape() && Apart(fl) && i < |fl| && a == fl[i].addr
      modifies buffer
      ensures Wrote(fl, i, Header(left, right, size, buf))
    {
      SetLeft(a, left, fl, i);
      SetRight(a, right, fl, i);
      SetSize(a, size, fl, i);
      SetBuffer(a, buf, fl, i);
    }

    // ---------- The list in memory ----------

    /** Following `right` from head visits exactly fl, `left` is its inverse, and each header describes its block. */
    ghost predicate Chain(fl: seq<Block>)
      requires Shape() && Apart(fl)
      reads this`head, buffer
    {
      head == Addr(fl, 0) && Headers(fl) == Links(fl)
    }

    /** The list in memory is the free blocks of bs, and each live block has an unlinked header. */
    ghost predicate Represents(bs: seq<Block>)
      reads this`head, buffer
    {
      && Shape()
      && WellFormed(bs)
      && Apart(Select(bs, false)) && Apart(Select(bs, true))
      && Chain(Select(bs, false))
      && Headers(Select(bs, true)) == Unlinked(Select(bs, true))
    }

    ghost predicate Valid()
      reads this, buffer
    {
      Represents(blocks)
    }

    constructor ()
      ensures Valid() && fresh(buffer) && blocks == INIT
    {
      buffer := new int[WORDS];
      head := 0;
      blocks := INIT;
      new;
      InitWellFormed();
      assert InArena(INIT[0]);
      SetLeft(head, NULL, INIT, 0);
      SetRight(head, NULL, INIT, 0);
      SetBuffer(head, head + HEADER_SIZE, INIT, 0);
      SetSize(head, MAX_MALLOC_SIZE - HEADER_SIZE, INIT, 0);
      assert Headers(INIT) == Links(INIT);
      assert Headers([]) == Unlinked([]);
    }

    /** Every word of the given blocks, header and payload, is as it was. */
    twostate predicate Kept(bs: seq<Block>)
      requires Shape()
      reads buffer
    {
      forall w {:trigger buffer[w]} :: 0 <= w < WORDS && InSome(bs, w) ==> buffer[w] == old(buffer[w])
    }

    /** Every header word of the given blocks is as it was. */
    twostate predicate HeadersKept(bs: seq<Block>)
      requires Shape()
      reads buffer
    {
      forall w {:trigger buffer[w]} :: 0 <= w < WORDS && InHeader(bs, w) ==> buffer[w] == old(buffer[w])
    }

    twostate lemma SameHeaders(bs: seq<Block>)
      requires Shape() && Apart(bs) && HeadersKept(bs)
      ensures Headers(bs) == old(Headers(bs))
    {
      forall i | 0 <= i < |bs| ensures Headers(bs)[i] == old(Headers(bs))[i] {
        assert InArena(bs[i]);
        var w := bs[i].addr / 8;
        assert InHeader(bs, w) && InHeader(bs, w + 1) && InHeader(bs, w + 2) && InHeader(bs, w + 3);
      }
    }

    twostate lemma KeptHeaders(bs: seq<Block>)
      requires Shape() && Apart(bs) && Kept(bs)
      ensures Headers(bs) == old(Headers(bs))
    {
      forall w | 0 <= w < WORDS && InHeader(bs, w) ensures buffer[w] == old(buffer[w]) {
        var i :| 0 <= i < |bs| && bs[i].addr <= 8 * w < bs[i].Payload();
        assert InArena(bs[i]) && InSpan(bs[i], w);
      }
      SameHeaders(bs);
    }

    /** Unlink tmpHead, node i of the list, whole. */
    method TakeWhole(tmpHead: int, ghost fl: seq<Block>, ghost i: nat)
      requires Shape() && Apart(fl) && i < |fl| && fl[i].addr == tmpHead
      requires head == Addr(fl, 0) && Headers(fl)[i].left == Addr(fl, i - 1) && Headers(fl)[i].right == Addr(fl, i + 1)
      modifies this`head, buffer
      ensures head == if i == 0 then Addr(fl, 1) else Addr(fl, 0)
      ensures Headers(fl) == Bypass(old(Headers(fl)), i)
      ensures Untouched(fl)
    {
      Neighbours(fl, i);
      assert tmpHead == head <==> i == 0;
      assert Headers(fl)[i] == HeaderAt(tmpHead);
      var left, right := Left(tmpHead), Right(tmpHead);
      if tmpHead != head {
        SetRight(left, right, fl, i - 1);
        if right != NULL {
          SetLeft(right, left, fl, i + 1);
        }
      } else {
        // repair: taking the head whole keeps the rest of the list
        if right != NULL {
          SetLeft(right, NULL, fl, i + 1);
        }
        head := right;
      }
    }

    /** Put newNode on the list in the place of tmpHead; they are nodes i + 1 and i of fl. */
    method TakeFront(tmpHead: int, newNode: int, newSize: int, ghost fl: seq<Block>, ghost i: nat)
      requires Shape() && Apart(fl) && i + 1 < |fl| && fl[i].addr == tmpHead && fl[i + 1].addr == newNode
      requires head == Addr(fl, 0) && Headers(fl)[i].left == Addr(fl, i - 1) && Headers(fl)[i].right == Addr(fl, i + 2)
      modifies this`head, buffer
      ensures head == if i == 0 then newNode else Addr(fl, 0)
      ensures Headers(fl) == Handover(old(Headers(fl)), i, newNode, newSize)
      ensures Untouched(fl)
    {
      Neighbours(fl, i);
      assert tmpHead == head <==> i == 0;
      assert Headers(fl)[i] == HeaderAt(tmpHead);
      var left, right := Left(tmpHead), Right(tmpHead);
      if tmpHead != head {
        SplitInner(left, right, newNode, newSize, fl, i);
      } else {
        SplitHead(right, newNode, newSize, fl);
        head := newNode;
      }
    }

    /** Lines 170-178. */
    method SplitInner(left: int, right: int, newNode: int, newSize: int, ghost fl: seq<Block>, ghost i: nat)
      requires Shape() && Apart(fl) && 0 < i && i + 1 < |fl| && fl[i + 1].addr == newNode
      requires left == Headers(fl)[i].left == fl[i - 1].addr && right == Headers(fl)[i].right == Addr(fl, i + 2)
      modifies buffer
      ensures Headers(fl) == Handover(old(Headers(fl)), i, newNode, newSize)
      ensures Untouched(fl)
    {
      Neighbours(fl, i);
      // repair: the new node's buffer is set
      SetNode(newNode, left, right, newSize, newNode + HEADER_SIZE, fl, i + 1);
      SetRight(left, newNode, fl, i - 1);
      if right != NULL {
        SetLeft(right, newNode, fl, i + 2);
      }
    }

    /** Lines 184-187. */
    method SplitHead(right: int, newNode: int, newSize: int, ghost fl: seq<Block>)
      requires Shape() && Apart(fl) && 1 < |fl| && fl[1].addr == newNode
      requires Headers(fl)[0].left == NULL && right == Headers(fl)[0].right == Addr(fl, 2)
      modifies buffer
      ensures Headers(fl) == Handover(old(Headers(fl)), 0, newNode, newSize)
      ensures Untouched(fl)
    {
      Neighbours(fl, 0);
      // repair: the new node's buffer is set, and the old head's successor points back to it
      SetNode(newNode, NULL, right, newSize, newNode + HEADER_SIZE, fl, 1);
      if right != NULL {
        SetLeft(right, newNode, fl, 2);
      }
    }

    /** The header of an allocated node has no neighbours. */
    method Detach(tmpHead: int, ghost fl: seq<Block>, ghost i: nat)
      requires Shape() && Apart(fl) && i < |fl| && fl[i].addr == tmpHead
      modifies buffer
      ensures Wrote(fl, i, Header(NULL, NULL, old(Headers(fl))[i].size, tmpHead + HEADER_SIZE))
    {
      SetLeft(tmpHead, NULL, fl, i);
      SetRight(tmpHead, NULL, fl, i);
      SetBuffer(tmpHead, tmpHead + HEADER_SIZE, fl, i);
    }

    /**
     Give out the first `size` bytes of tmpHead, or all of it when no header fits in the rest.
     In fl, node i is the part given out and, when there is a rest, node i + 1 is the rest.
     */
    method RelinkFound(tmpHead: int, size: int, ghost fl: seq<Block>, ghost i: nat, ghost split: bool)
      requires Shape() && Apart(fl) && i < |fl| && fl[i].addr == tmpHead
      requires head == Addr(fl, 0) && Headers(fl)[i].left == Addr(fl, i - 1)
      requires 0 <= size <= Headers(fl)[i].size <= MAX_MALLOC_SIZE
      requires split == (Headers(fl)[i].size - size - HEADER_SIZE >= 0)
      requires if split
        then i + 1 < |fl| && fl[i + 1].addr == tmpHead + HEADER_SIZE + size && Headers(fl)[i].right == Addr(fl, i + 2)
        else Headers(fl)[i].right == Addr(fl, i + 1)
      modifies this`head, buffer
      ensures head == if i == 0 then Addr(fl, 1) else Addr(fl, 0)
      ensures Headers(fl) == Detached(Processed(old(Headers(fl)), i, size, tmpHead, split), i, tmpHead)
      ensures Untouched(fl)
    {
      ghost var hs := Headers(fl);
      assert InArena(fl[i]);
      assert hs[i] == HeaderAt(tmpHead) && |hs| == |fl|;
      var newSize := ComputeNewSize(Size(tmpHead), size);
      Relink(tmpHead, size, newSize, fl, i, split);
      ghost var hs' := Headers(fl);
      Detach(tmpHead, fl, i);
      assert Headers(fl) == Detached(hs', i, tmpHead);
    }

    /** Lines 155-189. */
    method Relink(tmpHead: int, size: int, newSize: int, ghost fl: seq<Block>, ghost i: nat, ghost split: bool)
      requires Shape() && Apart(fl) && i < |fl| && fl[i].addr == tmpHead
      requires head == Addr(fl, 0) && Headers(fl)[i].left == Addr(fl, i - 1)
      requires newSize == Headers(fl)[i].size - size - HEADER_SIZE && split == (newSize >= 0)
      requires if split
        then i + 1 < |fl| && fl[i + 1].addr == tmpHead + HEADER_SIZE + size && Headers(fl)[i].right == Addr(fl, i + 2)
        else Headers(fl)[i].right == Addr(fl, i + 1)
      modifies this`head, buffer
      ensures head == if i == 0 then Addr(fl, 1) else Addr(fl, 0)
      ensures Headers(fl) == Processed(old(Headers(fl)), i, size, tmpHead, split)
      ensures Untouched(fl)
    {
      var negSize := newSize < 0;
      if negSize {
        // repair: an unsplit block keeps its whole size
        TakeWhole(tmpHead, fl, i);
      } else {
        ghost var hs := Headers(fl);
        SetSize(tmpHead, size, fl, i);
        assert Headers(fl) == hs[i := hs[i].(size := size)];
        TakeFront(tmpHead, tmpHead + HEADER_SIZE + size, newSize, fl, i);
      }
    }

    lemma OpenedHeaders(cut: seq<Block>, fl: seq<Block>, i: nat, n: nat)
      requires Shape() && Apart(fl) && Apart(cut) && i < |fl| && 0 < n && OpenedAddrs(cut, fl, i, n)
      ensures Opened(Headers(cut), Headers(fl), i, n)
    {}

    lemma RemovedHeaders(fl: seq<Block>, i: nat)
      requires Shape() && Apart(fl) && i < |fl| && Apart(Removed(fl, i))
      ensures Headers(Removed(fl, i)) == Removed(Headers(fl), i)
    {}

    /** Give out `size` bytes of free block k. */
    method ProcessNodeFound(tmpHead: int, size: int, ghost fl: seq<Block>, ghost i: nat)
      returns (ghost rest: seq<Block>)
      requires Shape() && Apart(fl) && Chain(fl) && i < |fl| && fl[i].Fits(size) && tmpHead == fl[i].addr
      requires 0 <= size && size % 8 == 0 && fl[i].size <= MAX_MALLOC_SIZE
      modifies this`head, buffer
      ensures Apart(rest) && Chain(rest)
      ensures var m := Carve(fl[i], size);
        && rest == Rest(fl, i, size)
        && IsNode(tmpHead) && HeaderAt(tmpHead) == Header(NULL, NULL, m[0].size, m[0].Payload())
      ensures Within(fl) && HeadersOnly(fl, rest)
    {
      ghost var split := |Carve(fl[i], size)| == 2;
      ghost var cut := OpenNode(fl, i, size);
      assert cut == Cut(fl, i, size);
      ghost var hs := Headers(cut);
      RelinkFound(tmpHead, size, cut, i, split);
      ghost var p := Processed(hs, i, size, tmpHead, split);
      ProcessedSize(hs, i, size, tmpHead, split);
      ProcessedLinks(fl, i, size, cut, hs);
      DetachedRest(p, i, tmpHead);
      RemovedAddr(cut, i);
      RemovedHeaders(cut, i);
      assert InArena(cut[i]);
      assert Headers(cut)[i] == HeaderAt(tmpHead);
      rest := Removed(cut, i);
      HeadersAreInside(cut);
      CutHeaders(fl, i, size);
    }

    /** The list with node i cut in two, and what its headers hold before anything is written. */
    lemma OpenNode(fl: seq<Block>, i: nat, size: int) returns (cut: seq<Block>)
      requires Shape() && Apart(fl) && Chain(fl) && i < |fl| && fl[i].Fits(size) && 0 <= size && size % 8 == 0
      ensures cut == Cut(fl, i, size) && Apart(cut) && forall w :: InSome(cut, w) ==> InSome(fl, w)
      ensures var m := Carve(fl[i], size);
        && OpenedAddrs(cut, fl, i, |m|) && cut[i] == m[0]
        && (|m| == 2 ==> cut[i + 1] == m[1]) && Removed(cut, i) == Rest(fl, i, size) && Apart(Removed(cut, i))
        && Opened(Headers(cut), Links(fl), i, |m|)
        && head == Addr(cut, 0)
        && Headers(cut)[i] == Header(Addr(cut, i - 1), Addr(cut, i + |m|), fl[i].size, fl[i].Payload())
    {
      cut := CutNode(fl, i, size);
      OpenedHeaders(cut, fl, i, |Carve(fl[i], size)|);
      assert Headers(cut)[i] == Links(fl)[i];
    }

    twostate lemma HeadersAreInside(fl: seq<Block>)
      requires Shape() && Apart(fl) && Untouched(fl)
      ensures Within(fl)
    {
      forall w | 0 <= w < WORDS && !InSome(fl, w) ensures buffer[w] == old(buffer[w]) {
        if InHeader(fl, w) {
          InHeaderIsInside(fl, w);
        }
      }
    }

    /** Changing only free blocks changes no live one. */
    twostate lemma LiveKept(bs: seq<Block>)
      requires Shape() && Tiles(bs, 0, MAX_MALLOC_SIZE) && Within(Select(bs, false))
      ensures Kept(Select(bs, true))
    {
      forall w | 0 <= w < WORDS && InSome(Select(bs, true), w) ensures buffer[w] == old(buffer[w]) {
        LiveIsNotFree(bs, w);
      }
    }

    lemma UnlinkedInsert(a: seq<Block>, b: Block, c: seq<Block>)
      requires Shape() && Apart(a + c) && Apart(a + [b] + c)
      requires Headers(a + c) == Unlinked(a + c)
      requires IsNode(b.addr) && HeaderAt(b.addr) == Header(NULL, NULL, b.size, b.Payload())
      ensures Headers(a + [b] + c) == Unlinked(a + [b] + c)
    {
      forall i | 0 <= i < |a + [b] + c| ensures Headers(a + [b] + c)[i] == Unlinked(a + [b] + c)[i] {
        if i != |a| {
          assert Headers(a + c)[if i < |a| then i else i - 1] == Unlinked(a + c)[if i < |a| then i else i - 1];
        }
      }
    }

    /** First node that is large enough; NULL, rather than the last node, when none is (repair). */
    method FirstFitAlgorithm(size: int) returns (p: int)
      requires Valid() && 0 <= size && size % 8 == 0
      modifies this, buffer
      ensures Valid()
      ensures var k := FirstFit(old(blocks), size);
        if k == |old(blocks)| then p == NULL && blocks == old(blocks)
        else p == old(blocks)[k].Payload() && blocks == AllocAt(old(blocks), k, size)
      ensures Kept(Select(old(blocks), true)) && HeadersOnly(old(blocks), blocks)
    {
      ghost var bs, fl := blocks, Select(blocks, false);
      ghost var i := 0;
      var tmpHead := head;
      NodeAt(fl, 0);
      while tmpHead != NULL && size > Size(tmpHead)
        invariant 0 <= i <= |fl| && tmpHead == Addr(fl, i)
        invariant i < |fl| ==> InArena(fl[i]) && HeaderAt(fl[i].addr) == Links(fl)[i]
        invariant forall j :: 0 <= j < i ==> fl[j].size < size
        decreases |fl| - i
        modifies {}
      {
        tmpHead := Right(tmpHead);
        i := i + 1;
        NodeAt(fl, i);
      }
      WalkFindsFirstFit(bs, size, i);
      p := NULL;
      if tmpHead != NULL {
        GiveOut(tmpHead, size, FirstFit(bs, size));
        p := Buffer(tmpHead);
      }
    }

    /** Process node tmpHead, which is free block k. */
    method GiveOut(tmpHead: int, size: int, ghost k: nat)
      requires Valid() && 0 <= size && size % 8 == 0
      requires k < |blocks| && blocks[k].Fits(size) && blocks[k].addr == tmpHead
      modifies this, buffer
      ensures Valid() && blocks == AllocAt(old(blocks), k, size) && Kept(Select(old(blocks), true))
      ensures IsNode(tmpHead) && Buffer(tmpHead) == old(blocks)[k].Payload()
      ensures HeadersOnly(old(blocks), blocks)
    {
      ghost var bs, fl, i := blocks, Select(blocks, false), |Select(blocks[..k], false)|;
      AllocAtInList(bs, k, size);
      assert InArena(fl[i]);
      ghost var rest := ProcessNodeFound(tmpHead, size, fl, i);
      LiveKept(bs);
      KeptHeaders(Select(bs, true));
      AllocRepresents(bs, k, size, rest);
      blocks := AllocAt(bs, k, size);
      HeadersOfSome(bs, false);
      HeadersOfSome(blocks, false);
    }

    /** With the live headers as they were, those after block k was given out are right exactly when its own is. */
    lemma LiveAfterAlloc(bs: seq<Block>, k: nat, size: int)
      requires Shape() && WellFormed(bs) && k < |bs| && bs[k].Fits(size) && 0 <= size && size % 8 == 0
      requires Apart(Select(bs, true)) && Headers(Select(bs, true)) == Unlinked(Select(bs, true))
      requires IsNode(bs[k].addr)
      ensures var b, live := Carve(bs[k], size)[0], Select(AllocAt(bs, k, size), true);
        && WellFormed(AllocAt(bs, k, size)) && Apart(live)
        && (Headers(live) == Unlinked(live) <==> HeaderAt(bs[k].addr) == Header(NULL, NULL, b.size, b.Payload()))
    {
      var a, b, c := Select(bs[..k], true), Carve(bs[k], size)[0], Select(bs[k + 1..], true);
      AllocAtWellFormed(bs, k, size);
      AllocAtInList(bs, k, size);
      SelectApart(AllocAt(bs, k, size), 0, MAX_MALLOC_SIZE, true);
      if HeaderAt(b.addr) == Header(NULL, NULL, b.size, b.Payload()) {
        UnlinkedInsert(a, b, c);
      } else {
        assert Headers(a + [b] + c)[|a|] == HeaderAt(b.addr);
        assert Unlinked(a + [b] + c)[|a|] == Header(NULL, NULL, b.size, b.Payload());
      }
    }

    /**
     With the live headers as they were, memory represents block k given out exactly when the list
     is what is left of the free blocks and the header at block k describes the part given out.
     */
    lemma AllocRepresents(bs: seq<Block>, k: nat, size: int, rest: seq<Block>)
      requires Shape() && WellFormed(bs) && k < |bs| && bs[k].Fits(size) && 0 <= size && size % 8 == 0
      requires Apart(Select(bs, true)) && Headers(Select(bs, true)) == Unlinked(Select(bs, true))
      requires Apart(rest) && rest == Select(AllocAt(bs, k, size), false)
      requires IsNode(bs[k].addr)
      ensures var b := Carve(bs[k], size)[0];
        Represents(AllocAt(bs, k, size))
        <==> Chain(rest) && HeaderAt(bs[k].addr) == Header(NULL, NULL, b.size, b.Payload())
    {
      LiveAfterAlloc(bs, k, size);
    }

    /** The header of a list node, if there is an i-th node. */
    lemma NodeAt(fl: seq<Block>, i: nat)
      requires Shape() && Apart(fl) && Chain(fl)
      ensures i < |fl| ==> InArena(fl[i]) && HeaderAt(fl[i].addr) == Links(fl)[i]
    {
      if i < |fl| {
        assert Headers(fl)[i] == Links(fl)[i];
      }
    }

    /** Sizes are at most INT_MAX - 7, or the rounding overflows. */
    method MyMalloc(size: int) returns (p: int)
      requires Valid() && 0 <= size <= INT_MAX - 7
      modifies this, buffer
      ensures Valid()
      ensures Allocation(blocks, p) == Malloc(old(blocks), size)
      ensures Kept(Select(old(blocks), true)) && HeadersOnly(old(blocks), blocks)
    {
      p := FirstFitAlgorithm(Align8(size));
    }

    // ---------- Free ----------

    /** Link node, which belongs at position i of fl, behind tmpHead, the node before it. */
    method InsertBehind(tmpHead: int, node: int, ghost fl: seq<Block>, ghost i: nat)
      requires Shape() && Apart(fl) && 0 < i < |fl| && fl[i].addr == node && fl[i - 1].addr == tmpHead
      requires Headers(fl)[i - 1].right == Addr(fl, i + 1)
      modifies buffer
      ensures Headers(fl) == Inserted(old(Headers(fl)), fl, i)
      ensures Untouched(fl)
    {
      Neighbours(fl, i);
      ghost var hs := Headers(fl);
      assert hs[i - 1] == HeaderAt(tmpHead);
      var right := Right(tmpHead);
      SetRight(node, right, fl, i);
      SetRight(tmpHead, node, fl, i - 1);
      SetLeft(node, tmpHead, fl, i);
      ghost var hs1 := hs[i := hs[i].(left := tmpHead, right := right)];
      assert Headers(fl) == hs1[i - 1 := hs1[i - 1].(right := node)];
      // repair: the successor points back to the new node
      if right != NULL {
        SetLeft(right, node, fl, i + 1);
      }
    }

    method InsertFront(node: int, ghost fl: seq<Block>)
      requires Shape() && Apart(fl) && 1 < |fl| && fl[0].addr == node && fl[1].addr == head
      modifies this`head, buffer
      ensures head == node
      ensures Headers(fl) == Inserted(old(Headers(fl)), fl, 0)
      ensures Untouched(fl)
    {
      SetLeft(head, node, fl, 1);
      SetRight(node, head, fl, 0);
      SetLeft(node, NULL, fl, 0);
      head := node;
    }

    /** The field updates that merge r, the node after l, into l. */
    method AbsorbHeaders(l: int, r: int, ghost fl: seq<Block>, ghost i: nat)
      requires Shape() && Apart(fl) && i + 1 < |fl| && fl[i].addr == l && fl[i + 1].addr == r
      requires Headers(fl)[i + 1].right == Addr(fl, i + 2)
      modifies buffer
      ensures Headers(fl) == Absorbed(old(Headers(fl)), i, l)
      ensures Untouched(fl)
    {
      Neighbours(fl, i + 1);
      ghost var hs := Headers(fl);
      assert hs[i] == HeaderAt(l) && hs[i + 1] == HeaderAt(r);
      var right := Right(r);
      // repair: the header of the merged node becomes payload
      SetSize(l, Size(l) + Size(r) + HEADER_SIZE, fl, i);
      SetRight(l, right, fl, i);
      assert Headers(fl) == hs[i := hs[i].(size := hs[i].size + hs[i + 1].size + HEADER_SIZE, right := right)];
      // repair: the successor points back to the merged node
      if right != NULL {
        SetLeft(right, l, fl, i + 2);
      }
    }

    /** Merge r, the node after l, into l. */
    method Absorb(l: int, r: int, ghost fl: seq<Block>, ghost i: nat) returns (ghost merged: seq<Block>)
      requires Shape() && Apart(fl) && Chain(fl) && Adjacent(fl, i) && fl[i].addr == l && fl[i + 1].addr == r
      modifies buffer
      ensures Apart(merged) && Chain(merged) && merged == MergeAt(fl, i)
      ensures Untouched(fl) && forall w :: InHeader(merged, w) ==> InHeader(fl, w)
    {
      merged := MergeNodes(fl, i);
      assert Headers(fl)[i + 1] == Links(fl)[i + 1];
      AbsorbHeaders(l, r, fl, i);
      MergedHeaders(fl, i, merged);
    }

    /** The headers of a merged list are those of the list before it without the node that was merged away. */
    lemma MergedHeaders(fl: seq<Block>, i: nat, merged: seq<Block>)
      requires Shape() && Apart(fl) && Apart(merged) && i + 1 < |fl| && |merged| == |fl| - 1
      requires forall j :: 0 <= j < |merged| ==> merged[j].addr == fl[if j <= i then j else j + 1].addr
      ensures Headers(merged) == Removed(Headers(fl), i + 1)
    {
      forall j | 0 <= j < |merged| ensures Headers(merged)[j] == Removed(Headers(fl), i + 1)[j] {
        var j' := if j <= i then j else j + 1;
        assert InArena(merged[j]) && InArena(fl[j']);
        assert Headers(merged)[j] == HeaderAt(merged[j].addr) == Headers(fl)[j'];
      }
    }

    /** Merge node, node i of the list, with the nodes it touches. */
    method CoalesceFreeNodes(node: int, ghost fl: seq<Block>, ghost i: nat) returns (ghost fl': seq<Block>)
      requires Shape() && Apart(fl) && Chain(fl) && i < |fl| && fl[i].addr == node
      modifies buffer
      ensures Apart(fl') && Chain(fl') && fl' == Coalesce(fl, i)
      ensures Untouched(fl)
    {
      NodeAt(fl, i);
      NodeAt(fl, if i > 0 then i - 1 else 0);
      var l, r := Left(node), Right(node);
      var n := node;
      ghost var j := i;
      fl' := fl;
      if l != NULL {
        if Buffer(l) + Size(l) == Right(l) {
          fl' := Absorb(l, node, fl, i - 1);
          // repair: only a merged node is left for its left neighbour
          n, j := l, i - 1;
        }
      }
      NodeAt(fl', j);
      if Buffer(n) + Size(n) == Right(n) {
        NodeAt(fl', j + 1);
        fl' := Absorb(n, r, fl', j);
      }
    }

    /** Put node on the list by address; it belongs at position i of fl. */
    method Insert(node: int, ghost fl: seq<Block>, ghost i: nat)
      requires Shape() && Apart(fl) && i < |fl| && fl[i].addr == node && Apart(Removed(fl, i)) && Chain(Removed(fl, i))
      requires Headers(fl)[i].size == fl[i].size && Headers(fl)[i].buffer == fl[i].Payload()
      modifies this`head, buffer
      ensures Chain(fl)
      ensures Untouched(fl)
    {
      ghost var rest := Removed(fl, i);
      RemovedHeaders(fl, i);
      InsertedLinks(fl, i, Headers(fl));
      Neighbours(fl, i);
      NodeAt(rest, 0);
      var tmpHead := head;
      if head == NULL {
        SetRight(node, NULL, fl, i);
        SetLeft(node, NULL, fl, i);
        head := node;
        assert Headers(fl) == Links(fl);
      } else if tmpHead < node {
        ghost var j := 0;
        while Right(tmpHead) != NULL && Right(tmpHead) < node
          invariant 0 <= j < i && tmpHead == rest[j].addr && IsNode(tmpHead)
          invariant HeaderAt(tmpHead) == Links(rest)[j]
          decreases i - j
          modifies {}
        {
          tmpHead := Right(tmpHead);
          j := j + 1;
          NodeAt(rest, j);
        }
        InsertBehind(tmpHead, node, fl, i);
      } else {
        InsertFront(node, fl);
      }
    }

    /** Only a pointer MyMalloc returned, and not freed since, may be freed; NULL is ignored. */
    method MyFree(p: int)
      requires Valid() && (p == NULL || IsLive(blocks, p))
      modifies this, buffer
      ensures Valid()
      ensures blocks == Free(old(blocks), p)
      ensures Kept(Select(blocks, true)) && HeadersOnly(old(blocks), blocks)
    {
      if p != NULL {
        TakeBack(p - HEADER_SIZE, LiveIndex(blocks, p));
      }
    }

    /** Lines 66-108. A node alone on the list is not coalesced. */
    method PutBack(node: int, ghost fl: seq<Block>, ghost i: nat)
      requires Shape() && Apart(fl) && i < |fl| && fl[i].addr == node && Apart(Removed(fl, i)) && Chain(Removed(fl, i))
      requires Headers(fl)[i].size == fl[i].size && Headers(fl)[i].buffer == fl[i].Payload()
      modifies this`head, buffer
      ensures Apart(Coalesce(fl, i)) && Chain(Coalesce(fl, i))
      ensures Untouched(fl)
    {
      var wasEmpty := head == NULL;
      assert |fl| > 1 ==> InArena(Removed(fl, i)[0]);
      Insert(node, fl, i);
      if !wasEmpty {
        ghost var fl' := CoalesceFreeNodes(node, fl, i);
      }
    }

    method TakeBack(node: int, ghost k: nat)
      requires Valid() && k < |blocks| && blocks[k].live && node == blocks[k].addr
      modifies this, buffer
      ensures Valid() && blocks == FreeAt(old(blocks), k) && Kept(Select(blocks, true))
      ensures HeadersOnly(old(blocks), blocks)
    {
      ghost var bs := blocks;
      ghost var a, c := Select(bs[..k], false), Select(bs[k + 1..], false);
      ghost var fl := a + [bs[k].(live := false)] + c;
      MarkedTiles(bs, k);
      SelectMarked(bs, k);
      FreedHeader(bs, k);
      PutBack(node, fl, |a|);
      CoalesceIsFreeAt(bs, k);
      FreeAtWellFormed(bs, k);
      SelectLiveAfterFreeAt(bs, k);
      blocks := FreeAt(bs, k);
      MarkedHeaders(bs, k);
      HeadersAreInside(fl);
      LiveKept(Marked(bs, k));
      SelectApart(blocks, 0, MAX_MALLOC_SIZE, true);
      KeptHeaders(Select(blocks, true));
    }

    /** The headers before block k is freed: its own, and those of the blocks that stay live. */
    lemma FreedHeader(bs: seq<Block>, k: nat)
      requires Shape() && k < |bs| && bs[k].live && Apart(Select(bs, false)) && Apart(Select(bs, true))
      requires Headers(Select(bs, true)) == Unlinked(Select(bs, true))
      requires Apart(Select(Marked(bs, k), false)) && Apart(Select(Marked(bs, k), true))
      ensures var a, c := Select(bs[..k], false), Select(bs[k + 1..], false);
        var fl := a + [bs[k].(live := false)] + c;
        && Select(bs, false) == Removed(fl, |a|) && Apart(fl)
        && Headers(fl)[|a|] == Header(NULL, NULL, bs[k].size, bs[k].Payload())
      ensures var a, c := Select(bs[..k], true), Select(bs[k + 1..], true);
        Apart(a + c) && Headers(a + c) == Unlinked(a + c)
    {
      var b := bs[k];
      SelectMarked(bs, k);
      SelectAt(bs, k, false);
      SelectAt(bs, k, true);
      UnlinkedRemove(Select(bs[..k], true), b, Select(bs[k + 1..], true));
      var x := Select(bs[..k], false);
      var fl := x + [b.(live := false)] + Select(bs[k + 1..], false);
      assert InArena(fl[|x|]) && Headers(fl)[|x|] == HeaderAt(b.addr);
    }

    /** The inverse of UnlinkedInsert. */
    lemma UnlinkedRemove(a: seq<Block>, b: Block, c: seq<Block>)
      requires Shape() && Apart(a + c) && Apart(a + [b] + c) && Headers(a + [b] + c) == Unlinked(a + [b] + c)
      ensures Headers(a + c) == Unlinked(a + c)
      ensures IsNode(b.addr) && HeaderAt(b.addr) == Header(NULL, NULL, b.size, b.Payload())
    {
      var all := a + [b] + c;
      assert InArena(all[|a|]) && Headers(all)[|a|] == HeaderAt(b.addr) && Headers(all)[|a|] == Unlinked(all)[|a|];
      forall i | 0 <= i < |a + c| ensures Headers(a + c)[i] == Unlinked(a + c)[i] {
        var j := if i < |a| then i else i + 1;
        assert all[j] == (a + c)[i] && Headers(all)[j] == Unlinked(all)[j];
      }
    }
  }
}

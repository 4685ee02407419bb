/**
 Runs of the literal MyMalloc alone, from InitMyMalloc on: what each call returns, exactly.
 These runs leave the new node's buffer unset, so they are not runs of a well-formed arena.
 Then the first inputs on which the literal code goes wrong.
 */
module LiteralRuns {
  import opened CInts
  import opened BlockList
  import opened FreeList
  import opened Memories
  import opened ArenaModule
  import opened LiteralArena

  /** Bytes taken by the first i requests, headers included. */
  function Offset(sizes: seq<int>, i: nat): int
    requires i <= |sizes|
  {
    if i == 0 then 0 else Offset(sizes, i - 1) + Align8(sizes[i - 1]) + HEADER_SIZE
  }

  /** No node fits at x any more, or newSize wraps around there. */
  predicate Faults(x: int, s: int) {
    x + HEADER_SIZE > MAX_MALLOC_SIZE || MAX_MALLOC_SIZE - x - HEADER_SIZE - s - HEADER_SIZE < -0x8000_0000
  }

  /** Request i faults once the list has run empty, or when the arithmetic wraps; else it returns the next address. */
  function Expected(sizes: seq<int>, i: nat): Outcome
    requires i < |sizes|
  {
    var x := Offset(sizes, i);
    if Faults(x, Align8(sizes[i])) then Fault
    else Returned(x + HEADER_SIZE)
  }

  /** The list is one node that covers [x, MAX), its buffer aside; or empty when no header fits there. */
  ghost predicate Tail(a: Arena, x: int)
    requires a.Shape()
    reads a`head, a.buffer
  {
    if x + HEADER_SIZE > MAX_MALLOC_SIZE then a.head == NULL
    else
      && a.head == x && IsNode(x)
      && a.HeaderAt(x) == Header(NULL, NULL, MAX_MALLOC_SIZE - x - HEADER_SIZE, a.HeaderAt(x).buffer)
  }

  /** MyMalloc as written, lines 53-57, 127-144 and 151-195, on such a list. */
  method MyMallocOnTail(a: Arena, sz: int, ghost x: int) returns (out: Outcome)
    requires a.Shape() && Tail(a, x) && 0 <= x && x % 8 == 0 && 0 <= sz <= INT_MAX - 7
    modifies a`head, a.buffer
    ensures var s := Align8(sz);
      && out == (if x + HEADER_SIZE > MAX_MALLOC_SIZE
                   || MAX_MALLOC_SIZE - x - HEADER_SIZE - s - HEADER_SIZE < -0x8000_0000 then Fault
                 else Returned(x + HEADER_SIZE))
      && (out.Returned? ==> Tail(a, x + HEADER_SIZE + s))
    ensures forall w :: 0 <= w < WORDS && 8 * w < x ==> a.buffer[w] == old(a.buffer[w])
  {
    var size := Align8(sz);
    if a.head == NULL {
      return Fault;
    }
    var tmpHead := a.head;
    assert a.Right(tmpHead) == NULL;  // so the loop of lines 131-134 stops at once
    var newSize := LiteralNewSize(a.Size(tmpHead), size);
    if newSize >= 0 && tmpHead + HEADER_SIZE + size + HEADER_SIZE > MAX_MALLOC_SIZE {
      return Fault;
    }
    TakeTail(a, tmpHead, size, newSize);
    out := Returned(a.Buffer(tmpHead));
  }

  /** _ProcessNodeFound on such a list. */
  method TakeTail(a: Arena, x: int, size: int, newSize: int)
    requires a.Shape() && Tail(a, x) && a.head == x >= 0 && x % 8 == 0 && 0 <= size && size % 8 == 0
    requires if newSize >= 0 then newSize == MAX_MALLOC_SIZE - x - HEADER_SIZE - size - HEADER_SIZE
      else MAX_MALLOC_SIZE < x + HEADER_SIZE + size + HEADER_SIZE
    modifies a`head, a.buffer
    ensures Tail(a, x + HEADER_SIZE + size) && a.Buffer(x) == x + HEADER_SIZE
    ensures forall w :: 0 <= w < WORDS && 8 * w < x ==> a.buffer[w] == old(a.buffer[w])
  {
    ghost var fl := [Block(x, if newSize >= 0 then size else MAX_MALLOC_SIZE - x - HEADER_SIZE, false)]
                    + if newSize >= 0 then [Block(x + HEADER_SIZE + size, newSize, false)] else [];
    assert InArena(fl[0]) && (newSize >= 0 ==> InArena(fl[1]) && Before(fl[0], fl[1]));
    assert a.Headers(fl)[0] == a.HeaderAt(x);
    ProcessNodeFound(a, x, size, newSize, fl, 0);
    assert a.Headers(fl)[0] == a.HeaderAt(x);
    assert newSize >= 0 ==> a.Headers(fl)[1] == a.HeaderAt(fl[1].addr);
  }

  /** A run of requests from the state InitMyMalloc sets up, up to the first fault. */
  method AllocOnly(a: Arena, sizes: seq<int>) returns (outs: seq<Outcome>)
    requires a.Valid() && a.blocks == INIT
    requires forall i :: 0 <= i < |sizes| ==> 0 <= sizes[i] <= INT_MAX - 7
    modifies a`head, a.buffer
    ensures |outs| <= |sizes| && forall i :: 0 <= i < |outs| ==> outs[i] == Expected(sizes, i)
    ensures forall i :: 0 <= i < |outs| - 1 ==> outs[i].Returned?
    ensures |outs| < |sizes| ==> outs != [] && outs[|outs| - 1].Fault?
    ensures (forall i :: 0 <= i < |outs| ==> outs[i].Returned?) ==> Tail(a, Offset(sizes, |sizes|))
  {
    outs := [];
    InitWellFormed();
    a.NodeAt(Select(a.blocks, false), 0);
    while |outs| < |sizes|
      invariant |outs| <= |sizes| && forall i :: 0 <= i < |outs| ==> outs[i] == Expected(sizes, i) && outs[i].Returned?
      invariant Tail(a, Offset(sizes, |outs|))
    {
      OffsetAligned(sizes, |outs|);
      var out := MyMallocOnTail(a, sizes[|outs|], Offset(sizes, |outs|));
      outs := outs + [out];
      if out.Fault? {
        return;
      }
    }
  }

  lemma {:induction false} OffsetAligned(sizes: seq<int>, i: nat)
    requires i <= |sizes| && forall j :: 0 <= j < |sizes| ==> 0 <= sizes[j]
    ensures 0 <= Offset(sizes, i) && Offset(sizes, i) % 8 == 0
  {
    if i > 0 {
      OffsetAligned(sizes, i - 1);
      Align8IsLeastMultiple(sizes[i - 1], 0);
    }
  }

  lemma {:induction false} OffsetMonotone(sizes: seq<int>, i: nat, j: nat)
    requires i <= j <= |sizes| && forall j :: 0 <= j < |sizes| ==> 0 <= sizes[j]
    ensures Offset(sizes, i) + (if i < j then Align8(sizes[i]) + HEADER_SIZE else 0) <= Offset(sizes, j)
    decreases j - i
  {
    if i < j {
      OffsetMonotone(sizes, i + 1, j);
    }
  }

  /** The payloads of a run never overlap. */
  lemma {:induction false} AllocOnlyPayloads(sizes: seq<int>, i: nat, j: nat)
    requires forall k :: 0 <= k < |sizes| ==> 0 <= sizes[k]
    requires i < j < |sizes| && Expected(sizes, i).Returned? && Expected(sizes, j).Returned?
    ensures Expected(sizes, i).p + Align8(sizes[i]) + HEADER_SIZE <= Expected(sizes, j).p
  {
    OffsetMonotone(sizes, i, j);
  }

  /** Every request gets a pointer to a payload inside the arena exactly when all fit it together, headers included. */
  lemma AllSucceed(sizes: seq<int>)
    requires forall k :: 0 <= k < |sizes| ==> 0 <= sizes[k]
    ensures (forall i :: 0 <= i < |sizes| ==> InsideArena(Expected(sizes, i), Align8(sizes[i])))
        <==> Offset(sizes, |sizes|) <= MAX_MALLOC_SIZE
  {
    if Offset(sizes, |sizes|) <= MAX_MALLOC_SIZE {
      forall i | 0 <= i < |sizes| ensures InsideArena(Expected(sizes, i), Align8(sizes[i])) {
        OffsetAligned(sizes, i);
        OffsetMonotone(sizes, i, |sizes|);
      }
    } else if sizes != [] {
      assert !InsideArena(Expected(sizes, |sizes| - 1), Align8(sizes[|sizes| - 1]));
    }
  }

  /** The call returned a payload of s bytes that lies inside the arena. */
  predicate InsideArena(out: Outcome, s: int) {
    out.Returned? && HEADER_SIZE <= out.p && out.p + s <= MAX_MALLOC_SIZE
  }

  /** And then each pointer is the sum of what went before, and a header. */
  lemma ConsecutivePayloads(sizes: seq<int>, i: nat)
    requires forall k :: 0 <= k < |sizes| ==> 0 <= sizes[k]
    requires i < |sizes| && Offset(sizes, |sizes|) <= MAX_MALLOC_SIZE
    ensures Expected(sizes, i) == Returned(Offset(sizes, i) + HEADER_SIZE)
  {
    OffsetMonotone(sizes, i, |sizes|);
  }

  // ---------- Inputs on which the literal code goes wrong ----------

  /** The whole arena is asked for: NULL is intended, but AllocOnly returns a pointer. */
  lemma TooLargeRequest()
    ensures Malloc(INIT, MAX_MALLOC_SIZE).pointer == NULL
    ensures Expected([MAX_MALLOC_SIZE], 0) == Returned(HEADER_SIZE)
  {
    assert Offset([MAX_MALLOC_SIZE], 0) == 0;
  }

  /** The word of a fresh arena that becomes the buffer field of the node split off by a malloc of 8 bytes. */
  const STALE_WORD := (HEADER_SIZE + 8) / 8 + BUFFER

  /** The blocks after a malloc of 8 bytes. */
  const ONE_LIVE: seq<Block> := [Block(0, 8, true), Block(40, MAX_MALLOC_SIZE - 72, false)]

  lemma MallocOnInit()
    ensures Malloc(INIT, 8) == Allocation(ONE_LIVE, HEADER_SIZE)
    ensures LiveIndex(ONE_LIVE, HEADER_SIZE) == 0 && Free(ONE_LIVE, HEADER_SIZE) == INIT
    ensures FirstFit(INIT, Align8(8)) == 0 && !AllocFaults(INIT, Align8(8))
    ensures LooseAllocAgrees(INIT, 0, Align8(8))
    ensures forall stale :: AllocAgrees(INIT, 0, Align8(8), stale) <==> stale == 72
    ensures forall words: seq<int> :: |words| == WORDS ==> Stale(words, INIT[0], Align8(8)) == words[STALE_WORD]
  {
    assert AllocAt(INIT, 0, 8) == ONE_LIVE;
    assert ONE_LIVE[2..] == [] && INIT[..0] == [] == INIT[1..];
  }

  /** The very first malloc leaves what is intended but for a buffer, and that too only if memory happens to hold it. */
  method FirstMalloc(a: Arena) returns (out: Outcome)
    requires Loose(a, INIT)
    modifies a`head, a.buffer
    ensures out == Returned(HEADER_SIZE) && Loose(a, ONE_LIVE)
    ensures old(a.Represents(INIT)) ==> (a.Represents(ONE_LIVE) <==> old(a.buffer[STALE_WORD]) == 72)
  {
    MallocOnInit();
    out := MyMalloc(a, 8, INIT);
  }

  /** Freeing its block again does not lead back to the initial arena, whatever memory holds: a header is lost. */
  method FreeNextToFree(a: Arena)
    requires Loose(a, INIT)
    modifies a`head, a.buffer
    ensures Free(ONE_LIVE, HEADER_SIZE) == INIT && !Loose(a, INIT) && IsNode(0)
    ensures a.head == 0 && a.HeaderAt(0) == Header(NULL, NULL, MAX_MALLOC_SIZE - 64, HEADER_SIZE)
  {
    var out := FirstMalloc(a);
    FreeFirst(a);
  }

  method FreeFirst(a: Arena)
    requires Loose(a, ONE_LIVE)
    modifies a`head, a.buffer
    ensures Free(ONE_LIVE, HEADER_SIZE) == INIT && !Loose(a, INIT) && IsNode(0)
    ensures a.head == 0 && a.HeaderAt(0) == Header(NULL, NULL, MAX_MALLOC_SIZE - 64, HEADER_SIZE)
  {
    MallocOnInit();
    FreedHeaders(a);
    MyFree(a, HEADER_SIZE, ONE_LIVE);
    assert a.HeaderAt(0) == HeaderIn(a.Mem().words, 0);
  }

  /** What the free finds, and the header it leaves. */
  lemma FreedHeaders(a: Arena)
    requires Loose(a, ONE_LIVE)
    ensures var m := AfterFree(a.Mem(), ONE_LIVE, 0);
      m.head == 0 && HeaderIn(m.words, 0) == Header(NULL, NULL, MAX_MALLOC_SIZE - 64, HEADER_SIZE)
    ensures !FreeAgrees(ONE_LIVE, 0)
  {
    var fl := [Block(0, 8, false), Block(40, MAX_MALLOC_SIZE - 72, false)];
    assert ONE_LIVE[..0] == [] && ONE_LIVE[1..] == [fl[1]];
    assert Select(ONE_LIVE[1..], false) == [fl[1]];
    assert WithBlock(ONE_LIVE, 0) == fl;
    BeforeFree(a, ONE_LIVE, 0, fl, 0);
    a.HeadersInMem(fl);
    var hs := LiteralInserted(a.Headers(fl), fl, 0);
    assert Mended(hs, fl)[0] == Links(fl)[0] && Mended(hs, fl)[1] == Links(fl)[1];
    Written(a.Mem().words, fl, LiteralCoalesced(hs, 0), 0);
  }
}

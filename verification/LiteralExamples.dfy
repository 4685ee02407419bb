/**
 Two runs of the literal MyMalloc and MyFree that go wrong in the middle of the list. Both first make
 a hole of s bytes below a live block.
 */
module LiteralExamples {
  import opened CInts
  import opened BlockList
  import opened FreeList
  import opened Memories
  import opened ArenaModule
  import opened LiteralArena

  // ---------- Blocks ----------

  /** s is a payload with room for two more headers and 8 bytes. */
  predicate Roomy(s: int) { 0 <= s && s % 8 == 0 && s + 104 <= MAX_MALLOC_SIZE }

  function Last(s: int): Block { Block(s + 72, MAX_MALLOC_SIZE - s - 104, false) }

  function OneLive(s: int): seq<Block> { [Block(0, s, true), Block(s + 32, MAX_MALLOC_SIZE - s - 64, false)] }

  function TwoLive(s: int): seq<Block> { [Block(0, s, true), Block(s + 32, 8, true), Last(s)] }

  function Hole(s: int): seq<Block> { [Block(0, s, false), Block(s + 32, 8, true), Last(s)] }

  lemma Mallocs(s: int)
    requires Roomy(s)
    ensures Align8(s) == s && Malloc(INIT, s) == Allocation(OneLive(s), HEADER_SIZE)
    ensures FirstFit(INIT, s) == 0 && LooseAllocAgrees(INIT, 0, s) && Select(INIT, false) != []
    ensures Malloc(OneLive(s), 8) == Allocation(TwoLive(s), s + 64)
    ensures FirstFit(OneLive(s), 8) == 1 && LooseAllocAgrees(OneLive(s), 1, 8) && Select(OneLive(s), false) != []
  {
    assert AllocAt(INIT, 0, s) == OneLive(s);
    assert INIT[..0] == [] == INIT[1..];
    assert AllocAt(OneLive(s), 1, 8) == TwoLive(s);
    assert OneLive(s)[..1] == [Block(0, s, true)] && OneLive(s)[2..] == [];
    assert OneLive(s)[1..] == [Block(s + 32, MAX_MALLOC_SIZE - s - 64, false)];
  }

  lemma OnlyLast(s: int)
    ensures Select([Block(s + 32, 8, true), Last(s)], false) == [Last(s)]
  {
    var bs, last := [Block(s + 32, 8, true), Last(s)], [Last(s)];
    assert last[1..] == [] && Select(last, false) == last + [];
    assert bs[1..] == last && Select(bs, false) == Select(bs[1..], false);
  }

  lemma FreeBelow(s: int, words: seq<int>)
    requires Roomy(s)
    ensures LiveIndex(TwoLive(s), HEADER_SIZE) == 0 && Free(TwoLive(s), HEADER_SIZE) == Hole(s)
    ensures LooseFreeAgrees(words, TwoLive(s), 0)
    ensures WithBlock(TwoLive(s), 0) == [Block(0, s, false), Last(s)] && |Select(TwoLive(s)[..0], false)| == 0
  {
    assert TwoLive(s)[..0] == [] && TwoLive(s)[1..] == [Block(s + 32, 8, true), Last(s)];
    OnlyLast(s);
  }

  lemma FreeAbove(s: int)
    requires Roomy(s)
    ensures LiveIndex(Hole(s), s + 64) == 1 && Free(Hole(s), s + 64) == INIT
    ensures WithBlock(Hole(s), 1) == [Block(0, s, false), Block(s + 32, 8, false), Last(s)]
    ensures |Select(Hole(s)[..1], false)| == 1 && !FreeAgrees(Hole(s), 1)
  {
    assert Hole(s)[..1] == [Block(0, s, false)] && Hole(s)[2..] == [Last(s)];
    assert Hole(s)[1..] == [Block(s + 32, 8, true), Last(s)];
    assert Select(Hole(s)[..1], false) == [Block(0, s, false)] && Select(Hole(s)[2..], false) == [Last(s)];
  }

  // ---------- Runs ----------

  method MakeTwo(a: Arena, s: int)
    requires Loose(a, INIT) && Roomy(s)
    modifies a`head, a.buffer
    ensures Loose(a, TwoLive(s))
  {
    Mallocs(s);
    var p := MyMalloc(a, s, INIT);
    var q := MyMalloc(a, 8, OneLive(s));
  }

  /** The hole is the head of the list, and what is above the live block follows it. */
  method MakeHole(a: Arena, s: int)
    requires Loose(a, TwoLive(s)) && Roomy(s)
    modifies a`head, a.buffer
    ensures Loose(a, Hole(s)) && IsNode(0) && a.HeaderAt(0) == Header(NULL, s + 72, s, HEADER_SIZE)
  {
    FreeBelow(s, a.Mem().words);
    MyFree(a, HEADER_SIZE, TwoLive(s));
    assert a.HeaderAt(0) == HeaderIn(a.Mem().words, 0);
  }

  /** Then the live block is freed: it is merged into the hole, but the header between them is lost. */
  method MergeLosesHeader(a: Arena, s: int)
    requires Loose(a, INIT) && Roomy(s)
    modifies a`head, a.buffer
    ensures FreeAt(Hole(s), 1) == INIT && !Loose(a, INIT) && IsNode(0)
    ensures a.head == 0 && a.HeaderAt(0) == Header(NULL, s + 72, s + 8, HEADER_SIZE)
  {
    MakeTwo(a, s);
    MakeHole(a, s);
    FreeAboveHole(a, s);
  }

  method FreeAboveHole(a: Arena, s: int)
    requires Loose(a, Hole(s)) && Roomy(s) && IsNode(0) && a.HeaderAt(0) == Header(NULL, s + 72, s, HEADER_SIZE)
    modifies a`head, a.buffer
    ensures FreeAt(Hole(s), 1) == INIT && !Loose(a, INIT) && IsNode(0)
    ensures a.head == 0 && a.HeaderAt(0) == Header(NULL, s + 72, s + 8, HEADER_SIZE)
  {
    FreeAbove(s);
    ghost var m := a.Mem();
    assert HeaderIn(m.words, 0) == a.HeaderAt(0);
    MyFree(a, s + 64, Hole(s));
    MergedHeader(m, a.Mem(), s);
    assert a.HeaderAt(0) == HeaderIn(a.Mem().words, 0);
  }

  lemma MergedHeader(m: Memory, m': Memory, s: int)
    requires |m.words| == |m'.words| == WORDS
    requires TakenBack(m, m', [Block(0, s, false), Block(s + 32, 8, false), Last(s)], 1)
    requires HeaderIn(m.words, 0) == Header(NULL, s + 72, s, HEADER_SIZE)
    ensures m'.head == 0 && HeaderIn(m'.words, 0) == Header(NULL, s + 72, s + 8, HEADER_SIZE)
  {
    var fl := [Block(0, s, false), Block(s + 32, 8, false), Last(s)];
    assert fl[0] == Block(0, s, false) && fl[1] == Block(s + 32, 8, false) && Addr(fl, 2) == s + 72;
  }

  /**
   Or a block of 8 bytes is split off the hole instead: the rest of it becomes the head of the list,
   and what is above the live block points back to the block given out.
   */
  method SplitHead(a: Arena, s: int) returns (out: Outcome)
    requires Loose(a, INIT) && Roomy(s) && 40 <= s
    modifies a`head, a.buffer
    ensures out == Returned(HEADER_SIZE) && !Loose(a, Malloc(Hole(s), 8).blocks)
    ensures var m := a.Mem();
      && m.head == 40 && HeaderIn(m.words, s + 72).left == 0
      && HeaderIn(m.words, 40).(buffer := NULL) == Header(NULL, s + 72, s - 40, NULL)
  {
    MakeTwo(a, s);
    MakeHole(a, s);
    MallocInHole(s);
    out := MallocAtHole(a, s, Hole(s));
  }

  /** The blocks bs, as far as it matters: the search stops at the head, and another free block follows. */
  ghost predicate HeadOfTwo(s: int, bs: seq<Block>, size: int) {
    var fl := Select(bs, false);
    && Roomy(s) && 40 <= s && size == 8 && fl == [Block(0, s, false), Last(s)] && Stop(fl, size) == 0
    && FirstFit(bs, size) == 0 < |bs| && !LooseAllocAgrees(bs, 0, size) && !AllocFaults(bs, size)
  }

  /** A malloc of 8 bytes: as much of its contract as is needed here. */
  method Malloc8(a: Arena, ghost bs: seq<Block>) returns (out: Outcome)
    requires Loose(a, bs) && FirstFit(bs, Align8(8)) < |bs|
    modifies a`head, a.buffer
    ensures out.Fault? <==> AllocFaults(bs, Align8(8))
    ensures var fl, s := Select(bs, false), Align8(8);
      out.Returned? ==> GivenOut(old(a.Mem()), a.Mem(), fl, Stop(fl, s), s)
    ensures out.Returned? ==> out.p == Malloc(bs, 8).pointer
    ensures var k := FirstFit(bs, Align8(8));
      out.Returned? ==> (Loose(a, Malloc(bs, 8).blocks) <==> k < |bs| && LooseAllocAgrees(bs, k, Align8(8)))
  {
    out := MyMalloc(a, 8, bs);
  }

  method MallocAtHole(a: Arena, s: int, ghost bs: seq<Block>) returns (out: Outcome)
    requires Loose(a, bs) && HeadOfTwo(s, bs, Align8(8)) && Malloc(bs, 8).pointer == HEADER_SIZE
    modifies a`head, a.buffer
    ensures out == Returned(HEADER_SIZE) && !Loose(a, Malloc(bs, 8).blocks)
    ensures var m := a.Mem();
      && m.head == 40 && HeaderIn(m.words, s + 72).left == 0
      && HeaderIn(m.words, 40).(buffer := NULL) == Header(NULL, s + 72, s - 40, NULL)
  {
    HoleLinks(a, s, bs, Select(bs, false));
    ghost var m := a.Mem();
    out := Malloc8(a, bs);
    HoleMeets(m, a.Mem(), s, bs, Align8(8), out, Loose(a, Malloc(bs, 8).blocks));
  }

  lemma HoleMeets(m: Memory, m': Memory, s: int, bs: seq<Block>, size: int, out: Outcome, loose: bool)
    requires HeadOfTwo(s, bs, size) && |m.words| == |m'.words| == WORDS && HeaderIn(m.words, s + 72).left == 0
    requires out.Fault? <==> AllocFaults(bs, size)
    requires out.Returned? ==> GivenOut(m, m', Select(bs, false), Stop(Select(bs, false), size), size)
    requires var k := FirstFit(bs, size);
      out.Returned? ==> (loose <==> k < |bs| && LooseAllocAgrees(bs, k, size))
    ensures out.Returned? && !loose
    ensures m'.head == 40 && HeaderIn(m'.words, s + 72).left == 0
    ensures HeaderIn(m'.words, 40).(buffer := NULL) == Header(NULL, s + 72, s - 40, NULL)
  {
    SplitHeaders(m, m', s, Select(bs, false));
  }

  lemma MallocInHole(s: int)
    requires Roomy(s) && 40 <= s
    ensures HeadOfTwo(s, Hole(s), Align8(8)) && Malloc(Hole(s), 8).pointer == HEADER_SIZE
  {
    OnlyLast(s);
    assert Hole(s)[..0] == [] && Hole(s)[1..] == [Block(s + 32, 8, true), Last(s)];
  }

  lemma HoleLinks(a: Arena, s: int, bs: seq<Block>, fl: seq<Block>)
    requires Loose(a, bs) && fl == Select(bs, false) == [Block(0, s, false), Last(s)]
    ensures IsNode(s + 72) && HeaderIn(a.Mem().words, s + 72).left == 0
  {
    LooseNodeAt(a, fl, 1);
    assert fl[1] == Last(s) && HeaderIn(a.Mem().words, s + 72) == a.HeaderAt(s + 72);
  }

  lemma SplitHeaders(m: Memory, m': Memory, s: int, fl: seq<Block>)
    requires fl == [Block(0, s, false), Last(s)]
    requires |m.words| == |m'.words| == WORDS && 40 <= s && GivenOut(m, m', fl, 0, 8)
    requires HeaderIn(m.words, s + 72).left == 0
    ensures m'.head == 40 && HeaderIn(m'.words, s + 72).left == 0
    ensures HeaderIn(m'.words, 40).(buffer := NULL) == Header(NULL, s + 72, s - 40, NULL)
  {
    assert fl[0] == Block(0, s, false) && fl[1] == Last(s) && Addr(fl, 1) == s + 72;
  }
}

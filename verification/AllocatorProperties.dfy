/**
 What the allocator guarantees over whole runs, stated on the block list: the free list is
 determined by the live blocks alone, frees commute, a malloc is undone by its free, and a
 request of a computable size cannot fail.
 */
module AllocatorProperties {
  import opened BlockList

  // ---------- Runs ----------

  datatype Op = OpMalloc(n: nat) | OpFree(p: int)

  /** Only NULL and pointers handed out and not yet freed may be freed. */
  predicate Allowed(bs: seq<Block>, op: Op) {
    op.OpFree? ==> op.p == NULL || IsLive(bs, op.p)
  }

  function Step(bs: seq<Block>, op: Op): seq<Block>
    requires Allowed(bs, op)
  {
    match op
    case OpMalloc(n) => Malloc(bs, n).blocks
    case OpFree(p) => Free(bs, p)
  }

  predicate Legal(bs: seq<Block>, ops: seq<Op>)
    decreases |ops|
  {
    ops == [] || (Allowed(bs, ops[0]) && Legal(Step(bs, ops[0]), ops[1..]))
  }

  function Run(bs: seq<Block>, ops: seq<Op>): seq<Block>
    requires Legal(bs, ops)
    decreases |ops|
  {
    if ops == [] then bs else Run(Step(bs, ops[0]), ops[1..])
  }

  lemma StepWellFormed(bs: seq<Block>, op: Op)
    requires WellFormed(bs) && Allowed(bs, op)
    ensures WellFormed(Step(bs, op))
  {
    match op
    case OpMalloc(n) =>
      var k := FirstFit(bs, Align8(n));
      if k < |bs| {
        Align8IsLeastMultiple(n, 0);
        AllocAtWellFormed(bs, k, Align8(n));
      }
    case OpFree(p) =>
      if p != NULL {
        FreeAtWellFormed(bs, LiveIndex(bs, p));
      }
  }

  /** Every run keeps the arena exactly tiled, aligned and fully coalesced. */
  lemma {:induction false} RunWellFormed(bs: seq<Block>, ops: seq<Op>)
    requires WellFormed(bs) && Legal(bs, ops)
    ensures WellFormed(Run(bs, ops))
    ensures TotalSpan(Run(bs, ops)) == MAX_MALLOC_SIZE
    decreases |ops|
  {
    if ops == [] {
      Conservation(bs, 0, MAX_MALLOC_SIZE);
    } else {
      StepWellFormed(bs, ops[0]);
      RunWellFormed(Step(bs, ops[0]), ops[1..]);
    }
  }

  lemma {:induction false} RunConcat(bs: seq<Block>, a: seq<Op>, b: seq<Op>)
    ensures Legal(bs, a + b) <==> Legal(bs, a) && Legal(Run(bs, a), b)
    ensures Legal(bs, a + b) ==> Run(bs, a + b) == Run(Run(bs, a), b)
    decreases |a|
  {
    if a == [] {
      assert a + b == b;
    } else {
      assert (a + b)[0] == a[0] && (a + b)[1..] == a[1..] + b;
      if Allowed(bs, a[0]) {
        RunConcat(Step(bs, a[0]), a[1..], b);
      }
    }
  }

  lemma RunMiddle(bs: seq<Block>, before: seq<Op>, op: Op, later: seq<Op>)
    requires Legal(bs, (before + [op]) + later)
    ensures Legal(bs, before) && Allowed(Run(bs, before), op)
    ensures Legal(bs, before + [op]) && Run(bs, before + [op]) == Step(Run(bs, before), op)
  {
    RunConcat(bs, before + [op], later);
    RunConcat(bs, before, [op]);
    RunOne(Run(bs, before), op);
  }

  /** The first n calls of a legal run, and then one more. */
  lemma RunNext(bs: seq<Block>, ops: seq<Op>, n: nat)
    requires Legal(bs, ops) && n < |ops|
    ensures Legal(bs, ops[..n]) && Allowed(Run(bs, ops[..n]), ops[n])
    ensures Legal(bs, ops[..n + 1]) && Run(bs, ops[..n + 1]) == Step(Run(bs, ops[..n]), ops[n])
  {
    SplitAt(ops, n);
    RunMiddle(bs, ops[..n], ops[n], ops[n + 1..]);
  }

  lemma SplitAt(ops: seq<Op>, n: nat)
    requires n < |ops|
    ensures ops[..n] + [ops[n]] == ops[..n + 1]
    ensures (ops[..n] + [ops[n]]) + ops[n + 1..] == ops
  {}

  lemma RunOne(bs: seq<Block>, op: Op)
    ensures Legal(bs, [op]) <==> Allowed(bs, op)
    ensures Allowed(bs, op) ==> Run(bs, [op]) == Step(bs, op)
  {
    assert [op][1..] == [];
  }

  // ---------- Canonical form ----------

  /** The gap [lo, hi) as a list of at most one free block. */
  function Gap(lo: int, hi: int): seq<Block> {
    if lo < hi then [Block(lo, hi - lo - HEADER_SIZE, false)] else []
  }

  /** The maximal gaps that the live blocks leave in [lo, hi). */
  function Gaps(live: seq<Block>, lo: int, hi: int): seq<Block> {
    if live == [] then Gap(lo, hi) else Gap(lo, live[0].addr) + Gaps(live[1..], live[0].End(), hi)
  }

  /** The live blocks with every gap between them filled by one free block. */
  function Weave(live: seq<Block>, lo: int, hi: int): seq<Block> {
    if live == [] then Gap(lo, hi) else Gap(lo, live[0].addr) + [live[0]] + Weave(live[1..], live[0].End(), hi)
  }

  /** A coalesced list is determined by its live blocks, and its free blocks are their maximal gaps. */
  lemma {:induction false} Canonical(bs: seq<Block>, lo: int, hi: int)
    requires Tiles(bs, lo, hi) && Coalesced(bs)
    ensures bs == Weave(Select(bs, true), lo, hi)
    ensures Select(bs, false) == Gaps(Select(bs, true), lo, hi)
  {
    if bs != [] {
      Canonical(bs[1..], bs[0].End(), hi);
      if bs[0].live {
        assert Select(bs, true)[1..] == Select(bs[1..], true);
      } else {
        FirstIsLive(bs, lo, hi);
        GapInFront(Select(bs[1..], true), lo, bs[0].End(), hi);
      }
    }
  }

  /** Space in front of the first live block, or of the end, is one more free block. */
  lemma GapInFront(live: seq<Block>, lo: int, x: int, hi: int)
    requires lo < x && x == if live == [] then hi else live[0].addr
    ensures Weave(live, lo, hi) == [Block(lo, x - lo - HEADER_SIZE, false)] + Weave(live, x, hi)
    ensures Gaps(live, lo, hi) == [Block(lo, x - lo - HEADER_SIZE, false)] + Gaps(live, x, hi)
  {}

  /** After a free block comes a live one, or the end. */
  lemma FirstIsLive(bs: seq<Block>, lo: int, hi: int)
    requires bs != [] && !bs[0].live && Tiles(bs, lo, hi) && Coalesced(bs)
    ensures var live := Select(bs[1..], true);
      if bs[1..] == [] then live == [] && bs[0].End() == hi
      else live != [] && live[0] == bs[1] && bs[1].addr == bs[0].End()
  {
    assert |bs| > 1 ==> (bs[0].live || bs[1].live) && bs[1..][0] == bs[1];
  }

  /** The whole state, and so the outcome of every later call, depends only on which blocks are live. */
  lemma StateIsItsLiveBlocks(ops: seq<Op>, ops': seq<Op>)
    requires Legal(INIT, ops) && Legal(INIT, ops')
    requires Select(Run(INIT, ops), true) == Select(Run(INIT, ops'), true)
    ensures Run(INIT, ops) == Run(INIT, ops')
  {
    InitWellFormed();
    RunWellFormed(INIT, ops);
    RunWellFormed(INIT, ops');
    Canonical(Run(INIT, ops), 0, MAX_MALLOC_SIZE);
    Canonical(Run(INIT, ops'), 0, MAX_MALLOC_SIZE);
  }

  /** Once nothing is live the arena is back to what InitMyMalloc set up. */
  lemma NothingLiveIsInit(ops: seq<Op>)
    requires Legal(INIT, ops)
    ensures Select(Run(INIT, ops), true) == [] <==> Run(INIT, ops) == INIT
  {
    InitWellFormed();
    RunWellFormed(INIT, ops);
    Canonical(Run(INIT, ops), 0, MAX_MALLOC_SIZE);
  }

  // ---------- Frees one after the other ----------

  function Frees(ps: seq<int>): seq<Op> {
    seq(|ps|, i requires 0 <= i < |ps| => OpFree(ps[i]))
  }

  function PointerSet(ps: seq<int>): set<int> { set p | p in ps }

  /** The blocks whose payload pointer is not in ps. */
  function Without(bs: seq<Block>, ps: set<int>): seq<Block> {
    if bs == [] then [] else if bs[0].Payload() in ps then Without(bs[1..], ps) else [bs[0]] + Without(bs[1..], ps)
  }

  lemma WithoutCons(b: Block, bs: seq<Block>, ps: set<int>)
    ensures Without([b] + bs, ps) == (if b.Payload() in ps then [] else [b]) + Without(bs, ps)
  {
    assert ([b] + bs)[1..] == bs;
  }

  lemma {:induction false} WithoutConcat(a: seq<Block>, b: seq<Block>, ps: set<int>)
    ensures Without(a + b, ps) == Without(a, ps) + Without(b, ps)
  {
    if a == [] {
      assert a + b == b;
    } else {
      var rest := a[1..];
      WithoutConcat(rest, b, ps);
      WithoutCons(a[0], rest, ps);
      WithoutCons(a[0], rest + b, ps);
      assert a == [a[0]] + rest;
      assert a + b == [a[0]] + (rest + b);
    }
  }

  lemma {:induction false} WithoutTwice(bs: seq<Block>, ps: set<int>, qs: set<int>)
    ensures Without(Without(bs, ps), qs) == Without(bs, ps + qs)
  {
    if bs != [] {
      WithoutTwice(bs[1..], ps, qs);
      if bs[0].Payload() !in ps {
        assert ([bs[0]] + Without(bs[1..], ps))[1..] == Without(bs[1..], ps);
      }
    }
  }

  lemma {:induction false} WithoutAbsent(bs: seq<Block>, p: int)
    requires forall i :: 0 <= i < |bs| ==> !(bs[i].live && bs[i].Payload() == p)
    ensures Without(Select(bs, true), {p}) == Select(bs, true)
  {
    if bs != [] {
      WithoutAbsent(bs[1..], p);
      assert bs[0].live ==> ([bs[0]] + Select(bs[1..], true))[1..] == Select(bs[1..], true);
    }
  }

  /** A free takes exactly the freed block out of the live ones. */
  lemma FreeRemovesOne(bs: seq<Block>, p: int)
    requires WellFormed(bs) && (p == NULL || IsLive(bs, p))
    ensures Select(Free(bs, p), true) == Without(Select(bs, true), {p})
  {
    if p == NULL {
      forall i | 0 <= i < |bs| ensures bs[i].Payload() != p {
        Inside(bs, 0, MAX_MALLOC_SIZE, i);
      }
      WithoutAbsent(bs, p);
    } else {
      var k := LiveIndex(bs, p);
      forall i | k < i < |bs| ensures bs[i].Payload() != p {
        Ordered(bs, 0, MAX_MALLOC_SIZE, k, i);
      }
      var a, c := Select(bs[..k], true), Select(bs[k + 1..], true);
      WithoutAbsent(bs[..k], p);
      WithoutAbsent(bs[k + 1..], p);
      WithoutMiddle(a, bs[k], c);
      SelectAt(bs, k, true);
      SelectLiveAfterFreeAt(bs, k);
    }
  }

  lemma WithoutMiddle(a: seq<Block>, b: Block, c: seq<Block>)
    ensures Without(a + [b] + c, {b.Payload()}) == Without(a, {b.Payload()}) + Without(c, {b.Payload()})
  {
    WithoutConcat(a + [b], c, {b.Payload()});
    WithoutConcat(a, [b], {b.Payload()});
    assert Without([b], {b.Payload()}) == [];
  }

  lemma FreesStep(bs: seq<Block>, ps: seq<int>)
    requires ps != [] && Legal(bs, Frees(ps))
    ensures Allowed(bs, OpFree(ps[0])) && Legal(Free(bs, ps[0]), Frees(ps[1..]))
    ensures Run(bs, Frees(ps)) == Run(Free(bs, ps[0]), Frees(ps[1..]))
  {
    assert Frees(ps)[0] == OpFree(ps[0]) && Frees(ps)[1..] == Frees(ps[1..]);
  }

  lemma {:induction false} FreesRemove(bs: seq<Block>, ps: seq<int>)
    requires WellFormed(bs) && Legal(bs, Frees(ps))
    ensures WellFormed(Run(bs, Frees(ps)))
    ensures Select(Run(bs, Frees(ps)), true) == Without(Select(bs, true), PointerSet(ps))
    decreases |ps|
  {
    if ps == [] {
      WithoutNothing(Select(bs, true));
      assert PointerSet(ps) == {};
    } else {
      var bs' := Free(bs, ps[0]);
      FreesStep(bs, ps);
      StepWellFormed(bs, OpFree(ps[0]));
      FreesRemove(bs', ps[1..]);
      FreeRemovesOne(bs, ps[0]);
      WithoutTwice(Select(bs, true), {ps[0]}, PointerSet(ps[1..]));
      assert PointerSet(ps) == {ps[0]} + PointerSet(ps[1..]);
    }
  }

  lemma {:induction false} WithoutNothing(bs: seq<Block>)
    ensures Without(bs, {}) == bs
  {
    if bs != [] {
      WithoutNothing(bs[1..]);
    }
  }

  // ---------- Which frees are legal ----------

  lemma {:induction false} LiveIsSelected(bs: seq<Block>, q: int)
    ensures IsLive(bs, q) <==> exists b :: b in Select(bs, true) && b.Payload() == q
  {
    if bs != [] {
      LiveIsSelected(bs[1..], q);
      var rest := Select(bs[1..], true);
      if bs[0].live {
        assert Select(bs, true) == [bs[0]] + rest;
      }
    }
  }

  lemma {:induction false} WithoutKeeps(bs: seq<Block>, ps: set<int>, b: Block)
    ensures b in Without(bs, ps) <==> b in bs && b.Payload() !in ps
  {
    if bs != [] {
      WithoutKeeps(bs[1..], ps, b);
      assert bs == [bs[0]] + bs[1..];
    }
  }

  /** After a free, merges and all, every other live pointer is still live, and no pointer besides. */
  lemma FreeKeepsLive(bs: seq<Block>, p: int, q: int)
    requires WellFormed(bs) && (p == NULL || IsLive(bs, p))
    ensures IsLive(Free(bs, p), q) <==> IsLive(bs, q) && q != p
  {
    FreeRemovesOne(bs, p);
    LiveIsSelected(bs, q);
    LiveIsSelected(Free(bs, p), q);
    forall b ensures b in Select(Free(bs, p), true) <==> b in Select(bs, true) && b.Payload() != p {
      WithoutKeeps(Select(bs, true), {p}, b);
    }
  }

  /** Every pointer to be freed is NULL, or is live and occurs only once. */
  ghost predicate Freeable(bs: seq<Block>, ps: multiset<int>) {
    forall p :: p in ps ==> p == NULL || (IsLive(bs, p) && ps[p] == 1)
  }

  /** Frees may be made one after the other exactly when their pointers are freeable together. */
  lemma {:induction false} FreesAreLegal(bs: seq<Block>, ps: seq<int>)
    requires WellFormed(bs)
    ensures Legal(bs, Frees(ps)) <==> Freeable(bs, multiset(ps))
    decreases |ps|
  {
    if ps != [] {
      var p := ps[0];
      assert ps == [p] + ps[1..];
      assert Frees(ps)[1..] == Frees(ps[1..]) && Frees(ps)[0] == OpFree(p);
      if p == NULL || IsLive(bs, p) {
        StepWellFormed(bs, OpFree(p));
        FreesAreLegal(Free(bs, p), ps[1..]);
        FreeableStep(bs, p, multiset(ps[1..]));
      } else {
        assert p in multiset(ps);
      }
    }
  }

  lemma FreeableStep(bs: seq<Block>, p: int, ps: multiset<int>)
    requires WellFormed(bs) && (p == NULL || IsLive(bs, p))
    ensures Freeable(bs, multiset{p} + ps) <==> Freeable(Free(bs, p), ps)
  {
    var all := multiset{p} + ps;
    forall q ensures IsLive(Free(bs, p), q) <==> IsLive(bs, q) && q != p {
      FreeKeepsLive(bs, p, q);
    }
    if Freeable(bs, all) {
      forall q | q in ps ensures q == NULL || (IsLive(Free(bs, p), q) && ps[q] == 1) {
        assert q in all;
      }
    }
    if Freeable(Free(bs, p), ps) {
      forall q | q in all ensures q == NULL || (IsLive(bs, q) && all[q] == 1) {
        assert q == p || q in ps;
      }
    }
  }

  // ---------- Order independence of frees ----------

  /** Frees of the same pointers end in the same arena. */
  lemma SamePointersFreed(bs: seq<Block>, ps: seq<int>, qs: seq<int>)
    requires WellFormed(bs) && Legal(bs, Frees(ps)) && Legal(bs, Frees(qs))
    requires PointerSet(ps) == PointerSet(qs)
    ensures Run(bs, Frees(ps)) == Run(bs, Frees(qs))
  {
    FreesRemove(bs, ps);
    FreesRemove(bs, qs);
    Canonical(Run(bs, Frees(ps)), 0, MAX_MALLOC_SIZE);
    Canonical(Run(bs, Frees(qs)), 0, MAX_MALLOC_SIZE);
  }

  /** Freeable pointers may be freed in any order at all, and every order ends in the same arena. */
  lemma OrderIndependence(bs: seq<Block>, ps: seq<int>, qs: seq<int>)
    requires WellFormed(bs) && Freeable(bs, multiset(ps)) && multiset(qs) == multiset(ps)
    ensures Legal(bs, Frees(ps)) && Legal(bs, Frees(qs))
    ensures Run(bs, Frees(ps)) == Run(bs, Frees(qs))
  {
    FreesAreLegal(bs, ps);
    FreesAreLegal(bs, qs);
    forall p ensures p in ps <==> p in qs {
      assert p in multiset(ps) <==> p in multiset(qs);
    }
    assert PointerSet(ps) == PointerSet(qs);
    SamePointersFreed(bs, ps, qs);
  }

  /** Freeing every live pointer is possible in any order, and always restores the initial single block. */
  lemma FreeingEverything(bs: seq<Block>, ps: seq<int>)
    requires WellFormed(bs) && Freeable(bs, multiset(ps))
    requires forall b :: b in Select(bs, true) ==> b.Payload() in ps
    ensures Legal(bs, Frees(ps)) && Run(bs, Frees(ps)) == INIT
  {
    FreesAreLegal(bs, ps);
    FreesRemove(bs, ps);
    WithoutEverything(Select(bs, true), PointerSet(ps));
    Canonical(Run(bs, Frees(ps)), 0, MAX_MALLOC_SIZE);
  }

  lemma {:induction false} WithoutEverything(bs: seq<Block>, ps: set<int>)
    requires forall b :: b in bs ==> b.Payload() in ps
    ensures Without(bs, ps) == []
  {
    if bs != [] {
      assert bs[0] in bs;
      WithoutEverything(bs[1..], ps);
    }
  }

  // ---------- Malloc followed by free ----------

  lemma LiveIndexIs(bs: seq<Block>, k: nat)
    requires WellFormed(bs) && k < |bs| && bs[k].live
    ensures LiveIndex(bs, bs[k].Payload()) == k
  {
    var j := LiveIndex(bs, bs[k].Payload());
    if j < k {
      Ordered(bs, 0, MAX_MALLOC_SIZE, j, k);
    }
  }

  lemma FreeAtUndoesAllocAt(bs: seq<Block>, k: nat, s: int)
    requires WellFormed(bs) && k < |bs| && bs[k].Fits(s) && 0 <= s
    ensures FreeAt(AllocAt(bs, k, s), k) == bs
  {
    var m := Carve(bs[k], s);
    var bs' := AllocAt(bs, k, s);
    assert 0 < k ==> bs[k - 1].live;
    assert k + 1 < |bs| ==> bs[k + 1].live;
    assert MergeLo(bs', k) == k && MergeHi(bs', k) == k + |m|;
    assert Join(bs'[k], bs'[k + |m| - 1]) == bs[k];
    assert bs'[k + |m|..] == bs[k + 1..] && bs'[..k] == bs[..k];
  }

  /** Freeing what a malloc has just returned restores the arena block for block, split or not. */
  lemma FreeUndoesMalloc(bs: seq<Block>, n: nat)
    requires WellFormed(bs)
    ensures var r := Malloc(bs, n);
      r.pointer != NULL ==> IsLive(r.blocks, r.pointer) && Free(r.blocks, r.pointer) == bs
  {
    var s := Align8(n);
    var k := FirstFit(bs, s);
    if k < |bs| {
      var bs' := AllocAt(bs, k, s);
      AllocAtWellFormed(bs, k, s);
      assert bs'[k] == Carve(bs[k], s)[0];
      LiveIndexIs(bs', k);
      FreeAtUndoesAllocAt(bs, k, s);
      Inside(bs, 0, MAX_MALLOC_SIZE, k);
      assert bs'[k].Payload() == bs[k].Payload() != NULL;
    }
  }

  // ---------- What malloc returns ----------

  /** NULL exactly when nothing fits; else the lowest fitting address, with at most a header's worth too much. */
  lemma MallocIsFirstFit(bs: seq<Block>, n: nat)
    requires WellFormed(bs)
    ensures var r := Malloc(bs, n);
      && (r.pointer == NULL <==> forall b :: b in bs && !b.live ==> b.size < Align8(n))
      && (r.pointer == NULL ==> r.blocks == bs)
      && (r.pointer != NULL ==>
            exists b, b' :: b in bs && b.Fits(Align8(n)) && r.pointer == b.Payload()
              && (forall c :: c in bs && c.Fits(Align8(n)) ==> b.addr <= c.addr)
              && b' in r.blocks && b'.live && b'.Payload() == r.pointer
              && n <= b'.size < Align8(n) + HEADER_SIZE)
  {
    var s := Align8(n);
    var k := FirstFit(bs, s);
    if k < |bs| {
      Inside(bs, 0, MAX_MALLOC_SIZE, k);
      var b, b' := bs[k], Carve(bs[k], s)[0];
      assert AllocAt(bs, k, s)[k] == b';
      forall c | c in bs && c.Fits(s) ensures b.addr <= c.addr {
        var j :| 0 <= j < |bs| && bs[j] == c;
        if k < j {
          Ordered(bs, 0, MAX_MALLOC_SIZE, k, j);
        }
      }
      assert b in bs && b' in AllocAt(bs, k, s);
    }
  }

  /** A malloc adds one live block and leaves all the others as they are. */
  lemma MallocAddsOne(bs: seq<Block>, n: nat)
    requires WellFormed(bs) && Malloc(bs, n).pointer != NULL
    ensures Without(Select(Malloc(bs, n).blocks, true), {Malloc(bs, n).pointer}) == Select(bs, true)
  {
    FreeUndoesMalloc(bs, n);
    StepWellFormed(bs, OpMalloc(n));
    FreeRemovesOne(Malloc(bs, n).blocks, Malloc(bs, n).pointer);
  }

  // ---------- When a request must succeed ----------

  /** Free blocks are separated by live ones. */
  lemma {:induction false} FreeCount(bs: seq<Block>)
    requires Coalesced(bs)
    ensures |Select(bs, false)| <= |Select(bs, true)| + 1
    ensures bs != [] && bs[0].live ==> |Select(bs, false)| <= |Select(bs, true)|
  {
    if bs != [] {
      FreeCount(bs[1..]);
      if |bs| > 1 {
        assert bs[0].live || bs[1].live;
        assert bs[1..][0] == bs[1];
      }
    }
  }

  lemma {:induction false} SmallBlocksSpan(bs: seq<Block>, s: int)
    requires forall b :: b in bs ==> b.size <= s
    ensures TotalSpan(bs) <= |bs| * (s + HEADER_SIZE)
  {
    if bs != [] {
      assert bs[0] in bs;
      SmallBlocksSpan(bs[1..], s);
    }
  }

  lemma {:induction false} SelectKeeps(bs: seq<Block>, live: bool, b: Block)
    ensures b in Select(bs, live) <==> b in bs && b.live == live
  {
    if bs != [] {
      SelectKeeps(bs[1..], live, b);
      assert bs == [bs[0]] + bs[1..];
    }
  }

  /**
   With k live blocks that span U bytes, headers included, any request whose aligned size s
   satisfies (k+1)(s-8+H) < MAX-U succeeds, however fragmented the arena is; so in particular if
   (k+1)(s+H) <= MAX-U.
   */
  lemma GuaranteedFit(bs: seq<Block>, n: nat)
    requires WellFormed(bs)
    ensures |Select(bs, false)| <= |Select(bs, true)| + 1
    ensures (|Select(bs, true)| + 1) * (Align8(n) - 8 + HEADER_SIZE) < MAX_MALLOC_SIZE - TotalSpan(Select(bs, true))
      ==> Malloc(bs, n).pointer != NULL
    ensures (|Select(bs, true)| + 1) * (Align8(n) + HEADER_SIZE) <= MAX_MALLOC_SIZE - TotalSpan(Select(bs, true))
      ==> Malloc(bs, n).pointer != NULL
  {
    FreeCount(bs);
    var k, s := |Select(bs, true)|, Align8(n);
    if Malloc(bs, n).pointer == NULL {
      MallocIsFirstFit(bs, n);
      var free := Select(bs, false);
      forall b | b in free ensures b.size <= s - 8 {
        SelectKeeps(bs, false, b);
        var i :| 0 <= i < |bs| && bs[i] == b;
        assert bs[i].Aligned();
      }
      SmallBlocksSpan(free, s - 8);
      Conservation(bs, 0, MAX_MALLOC_SIZE);
      ProductBound(|free|, k + 1, s - 8 + HEADER_SIZE);
      assert (k + 1) * (s + HEADER_SIZE) == (k + 1) * (s - 8 + HEADER_SIZE) + (k + 1) * 8;
    }
  }

  lemma ProductBound(a: nat, b: nat, c: nat)
    requires a <= b
    ensures a * c <= b * c
  {}

  lemma TwoGaps(bs: seq<Block>)
    requires bs == [Block(0, 8144, false), Block(8176, 0, true), Block(8208, 8144, false)]
    ensures Select(bs, true) == [bs[1]] && FirstFit(bs, 8152) == 3
  {
    assert bs == [bs[0]] + [bs[1]] + [bs[2]];
    SelectSplice([bs[0]], [bs[1]], [bs[2]], true);
    assert Select([bs[0]], true) == [] && Select([bs[1]], true) == [bs[1]] && Select([bs[2]], true) == [];
    assert !bs[0].Fits(8152) && !bs[1].Fits(8152) && !bs[2].Fits(8152);
  }

  /**
   At k = 1 the bound is tight: two gaps of 8144 bytes, reached by three calls, refuse 8145 bytes,
   which just misses it.
   */
  lemma GuaranteedFitIsTight(ops: seq<Op>)
    requires ops == [OpMalloc(8144), OpMalloc(0), OpFree(HEADER_SIZE)]
    ensures Legal(INIT, ops)
    ensures var bs := Run(INIT, ops);
      && |Select(bs, true)| == 1 && Malloc(bs, 8145).pointer == NULL
      && (1 + 1) * (Align8(8145) - 8 + HEADER_SIZE) == MAX_MALLOC_SIZE - TotalSpan(Select(bs, true))
  {
    var b1 := Step(INIT, ops[0]);
    assert b1 == [Block(0, 8144, true), Block(8176, 8176, false)];
    var b2 := Step(b1, ops[1]);
    assert b1[1..] == [b1[1]] && FirstFit(b1, 0) == 1;
    assert b2 == [Block(0, 8144, true), Block(8176, 0, true), Block(8208, 8144, false)];
    var b3 := Step(b2, ops[2]);
    assert b3 == [Block(0, 8144, false), Block(8176, 0, true), Block(8208, 8144, false)];
    assert ops[1..][0] == ops[1] && ops[1..][1..][0] == ops[2] && ops[1..][1..][1..] == [];
    var ops1, ops2 := ops[1..], ops[1..][1..];
    assert Legal(b3, ops2[1..]) && Run(b3, ops2[1..]) == b3;
    assert Legal(b2, ops2) && Run(b2, ops2) == b3;
    assert Legal(b1, ops1) && Run(b1, ops1) == b3;
    TwoGaps(b3);
  }
}

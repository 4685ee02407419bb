/**
 Runs of the literal MyMalloc and MyFree together, from InitMyMalloc on: how far memory and results
 stay what is intended, by the memory the run starts from and the calls alone.
 */
module LiteralMixedRuns {
  import opened CInts
  import opened BlockList
  import opened FreeList
  import opened Memories
  import opened ArenaModule
  import opened AllocatorProperties
  import opened LiteralArena

  // ---------- One call ----------

  /** The condition, on the blocks and memory before it, under which a literal call leaves what is intended. */
  predicate StepAgrees(words: seq<int>, bs: seq<Block>, op: Op)
    requires Allowed(bs, op)
  {
    match op
    case OpMalloc(n) => var k := FirstFit(bs, Align8(n)); k < |bs| && LooseAllocAgrees(bs, k, Align8(n))
    case OpFree(p) => p == NULL || LooseFreeAgrees(words, bs, LiveIndex(bs, p))
  }

  /** What a literal call returns. A free returns nothing, for which NULL stands. */
  function Result(bs: seq<Block>, op: Op): Outcome {
    match op
    case OpMalloc(n) =>
      var fl := Select(bs, false);
      if AllocFaults(bs, Align8(n)) then Fault
      else if FirstFit(bs, Align8(n)) < |bs| then Returned(Malloc(bs, n).pointer)
      else Returned(fl[|fl| - 1].Payload())
    case OpFree(_) => Returned(NULL)
  }

  /** What it leaves in memory. */
  ghost function After(m: Memory, bs: seq<Block>, op: Op): Memory
    requires Allowed(bs, op)
  {
    match op
    case OpMalloc(n) => if AllocFaults(bs, Align8(n)) then m else AfterAlloc(m, bs, Align8(n))
    case OpFree(p) => if p == NULL then m else AfterFree(m, bs, LiveIndex(bs, p))
  }

  /** A call that found m and left m', field by field, and what it returned. */
  ghost predicate Done(m: Memory, m': Memory, bs: seq<Block>, op: Op, out: Outcome)
    requires Allowed(bs, op)
  {
    |m.words| == |m'.words| == WORDS
    && match op
       case OpMalloc(n) =>
         var fl, s, k := Select(bs, false), Align8(n), FirstFit(bs, Align8(n));
         if fl == [] || (k == |bs| && fl[|fl| - 1].size - s - HEADER_SIZE < -0x8000_0000) then m' == m && out == Fault
         else
           && GivenOut(m, m', fl, Stop(fl, s), s)
           && out == Returned(if k < |bs| then bs[k].Payload() else fl[|fl| - 1].Payload())
       case OpFree(p) =>
         out == Returned(NULL)
         && if p == NULL then m' == m
            else
              var k := LiveIndex(bs, p);
              TakenBack(m, m', WithBlock(bs, k), |Select(bs[..k], false)|)
  }

  lemma AfterIsDone(m: Memory, bs: seq<Block>, op: Op)
    requires LooseIn(m, bs) && Allowed(bs, op)
    ensures Done(m, After(m, bs, op), bs, op, Result(bs, op))
  {
    var m' := After(m, bs, op);
    match op {
      case OpMalloc(n) =>
        if !AllocFaults(bs, Align8(n)) {
          AllocFields(m, m', bs, Align8(n));
        }
      case OpFree(p) =>
        if p != NULL {
          FreeFields(m, m', bs, LiveIndex(bs, p));
        }
    }
  }

  method LiteralMalloc(a: Arena, n: int, ghost bs: seq<Block>) returns (out: Outcome)
    requires Loose(a, bs) && 0 <= n <= INT_MAX - 7
    modifies a`head, a.buffer
    ensures out == Result(bs, OpMalloc(n)) && a.Mem() == After(old(a.Mem()), bs, OpMalloc(n))
    ensures out.Returned? && Loose(a, Step(bs, OpMalloc(n))) <==> StepAgrees(old(a.Mem()).words, bs, OpMalloc(n))
  {
    ghost var m := a.Mem();
    NoneFitsNowhere(bs, Align8(n));
    out := MyMalloc(a, n, bs);
    MallocMeets(m, a.Mem(), bs, n, out, Loose(a, Malloc(bs, n).blocks));
  }

  /** The contract of MyMalloc, said of a run. */
  lemma MallocMeets(m: Memory, m': Memory, bs: seq<Block>, n: int, out: Outcome, loose: bool)
    requires 0 <= n && (Select(bs, false) == [] ==> FirstFit(bs, Align8(n)) == |bs|)
    requires out.Fault? <==> AllocFaults(bs, Align8(n))
    requires m' == if out.Fault? then m else AfterAlloc(m, bs, Align8(n))
    requires var fl, k := Select(bs, false), FirstFit(bs, Align8(n));
      out.Returned? ==> out.p == if k < |bs| then Malloc(bs, n).pointer else fl[|fl| - 1].Payload()
    requires var k := FirstFit(bs, Align8(n));
      out.Returned? ==> (loose <==> k < |bs| && LooseAllocAgrees(bs, k, Align8(n)))
    ensures out == Result(bs, OpMalloc(n)) && m' == After(m, bs, OpMalloc(n))
    ensures out.Returned? && loose <==> StepAgrees(m.words, bs, OpMalloc(n))
  {}

  lemma NoneFitsNowhere(bs: seq<Block>, size: int)
    ensures Select(bs, false) == [] ==> FirstFit(bs, size) == |bs|
  {
    if Select(bs, false) == [] {
      WalkFindsFirstFit(bs, size, 0);
    }
  }

  /** One call of the literal code: its result, its memory, and when that is what is intended. */
  method LiteralStep(a: Arena, op: Op, ghost bs: seq<Block>) returns (out: Outcome)
    requires Loose(a, bs) && Allowed(bs, op) && (op.OpMalloc? ==> op.n <= INT_MAX - 7)
    modifies a`head, a.buffer
    ensures out == Result(bs, op) && a.Mem() == After(old(a.Mem()), bs, op)
    ensures Done(old(a.Mem()), a.Mem(), bs, op, out)
    ensures out.Returned? && Loose(a, Step(bs, op)) <==> StepAgrees(old(a.Mem()).words, bs, op)
  {
    LooseIsIn(a, bs);
    AfterIsDone(a.Mem(), bs, op);
    match op {
      case OpMalloc(n) => out := LiteralMalloc(a, n, bs);
      case OpFree(p) =>
        MyFree(a, p, bs);
        out := Returned(NULL);
    }
  }

  // ---------- Runs ----------

  /** Memory after the first n calls of a run that starts from the memory m. */
  ghost function MemAfter(m: Memory, ops: seq<Op>, n: nat): Memory
    requires Legal(INIT, ops) && n <= |ops|
  {
    if n == 0 then m
    else
      RunNext(INIT, ops, n - 1);
      After(MemAfter(m, ops, n - 1), Run(INIT, ops[..n - 1]), ops[n - 1])
  }

  /** The condition of call i holds of the memory before it. */
  ghost predicate AgreesAt(m: Memory, ops: seq<Op>, i: nat)
    requires Legal(INIT, ops) && i < |ops|
  {
    RunNext(INIT, ops, i);
    StepAgrees(MemAfter(m, ops, i).words, Run(INIT, ops[..i]), ops[i])
  }

  /** What call i returns. */
  ghost function ResultAt(ops: seq<Op>, i: nat): Outcome
    requires Legal(INIT, ops) && i < |ops|
  {
    RunNext(INIT, ops, i);
    Result(Run(INIT, ops[..i]), ops[i])
  }

  /** After n calls memory represents what is intended, and the last of them did not fault. */
  ghost predicate IntendedAfter(m: Memory, ops: seq<Op>, n: nat)
    requires Legal(INIT, ops) && n <= |ops|
  {
    RunPrefix(INIT, ops, n);
    LooseIn(MemAfter(m, ops, n), Run(INIT, ops[..n])) && (0 < n ==> ResultAt(ops, n - 1).Returned?)
  }

  lemma RunPrefix(bs: seq<Block>, ops: seq<Op>, n: nat)
    requires Legal(bs, ops) && n <= |ops|
    ensures Legal(bs, ops[..n])
  {
    if n < |ops| {
      RunNext(bs, ops, n);
    } else {
      assert ops[..n] == ops;
    }
  }

  /**
   Where a run from m is after n calls, all of them as intended: memory is mem, the blocks are bs,
   and the results were outs.
   */
  ghost predicate Reached(m: Memory, mem: Memory, ops: seq<Op>, n: nat, bs: seq<Block>, outs: seq<Outcome>)
    requires Legal(INIT, ops)
  {
    && n == |outs| <= |ops| && Legal(INIT, ops[..n]) && bs == Run(INIT, ops[..n]) && mem == MemAfter(m, ops, n)
    && AllAgree(m, ops, n) && AllIntended(m, ops, n)
    && (forall i :: 0 <= i < n ==> outs[i] == ResultAt(ops, i))
  }

  /** The conditions of the first n calls hold. */
  ghost predicate AllAgree(m: Memory, ops: seq<Op>, n: nat)
    requires Legal(INIT, ops) && n <= |ops|
  {
    forall i :: 0 <= i < n ==> AgreesAt(m, ops, i)
  }

  /** Memory is as intended at the start and after each of the first n calls. */
  ghost predicate AllIntended(m: Memory, ops: seq<Op>, n: nat)
    requires Legal(INIT, ops) && n <= |ops|
  {
    forall i :: 0 <= i <= n ==> IntendedAfter(m, ops, i)
  }

  lemma OneMore(m: Memory, ops: seq<Op>, n: nat)
    requires Legal(INIT, ops) && n < |ops| && AllAgree(m, ops, n) && AllIntended(m, ops, n)
    requires AgreesAt(m, ops, n) && IntendedAfter(m, ops, n + 1)
    ensures AllAgree(m, ops, n + 1) && AllIntended(m, ops, n + 1)
  {}

  /** Call i of a run from m, field by field. */
  ghost predicate DoneAt(m: Memory, ops: seq<Op>, i: nat)
    requires Legal(INIT, ops) && i < |ops|
  {
    RunNext(INIT, ops, i);
    Done(MemAfter(m, ops, i), MemAfter(m, ops, i + 1), Run(INIT, ops[..i]), ops[i], ResultAt(ops, i))
  }

  /** Every call up to and including the first that does not do what is intended. */
  lemma CallIsDone(m: Memory, ops: seq<Op>, i: nat)
    requires Legal(INIT, ops) && i < |ops| && IntendedAfter(m, ops, i)
    ensures DoneAt(m, ops, i)
  {
    RunNext(INIT, ops, i);
    AfterIsDone(MemAfter(m, ops, i), Run(INIT, ops[..i]), ops[i]);
  }

  lemma CallN(m: Memory, mem: Memory, ops: seq<Op>, n: nat, bs: seq<Block>)
    requires Legal(INIT, ops) && n < |ops| && Legal(INIT, ops[..n])
    requires bs == Run(INIT, ops[..n]) && mem == MemAfter(m, ops, n)
    ensures Allowed(bs, ops[n]) && ResultAt(ops, n) == Result(bs, ops[n])
    ensures AgreesAt(m, ops, n) <==> StepAgrees(mem.words, bs, ops[n])
    ensures MemAfter(m, ops, n + 1) == After(mem, bs, ops[n])
    ensures Legal(INIT, ops[..n + 1]) && Run(INIT, ops[..n + 1]) == Step(bs, ops[n])
    ensures IntendedAfter(m, ops, n + 1)
      <==> LooseIn(After(mem, bs, ops[n]), Step(bs, ops[n])) && Result(bs, ops[n]).Returned?
  {
    RunNext(INIT, ops, n);
  }

  /** What the next call is like, said of the memory it finds. */
  lemma NextCall(m: Memory, mem: Memory, ops: seq<Op>, n: nat, bs: seq<Block>, outs: seq<Outcome>)
    requires Legal(INIT, ops) && n < |ops| && Reached(m, mem, ops, n, bs, outs)
    ensures Allowed(bs, ops[n])
    ensures AgreesAt(m, ops, n) <==> StepAgrees(mem.words, bs, ops[n])
    ensures IntendedAfter(m, ops, n + 1)
      <==> LooseIn(After(mem, bs, ops[n]), Step(bs, ops[n])) && Result(bs, ops[n]).Returned?
  {
    CallN(m, mem, ops, n, bs);
  }

  /** One more call, as intended. */
  lemma Advance(m: Memory, mem: Memory, ops: seq<Op>, n: nat, bs: seq<Block>, outs: seq<Outcome>)
    requires Legal(INIT, ops) && n < |ops| && Reached(m, mem, ops, n, bs, outs) && Allowed(bs, ops[n])
    requires AgreesAt(m, ops, n) && IntendedAfter(m, ops, n + 1)
    ensures Reached(m, After(mem, bs, ops[n]), ops, n + 1, Step(bs, ops[n]), outs + [Result(bs, ops[n])])
  {
    CallN(m, mem, ops, n, bs);
    OneMore(m, ops, n);
    MoreResults(m, mem, ops, n, bs, outs);
  }

  lemma MoreResults(m: Memory, mem: Memory, ops: seq<Op>, n: nat, bs: seq<Block>, outs: seq<Outcome>)
    requires Legal(INIT, ops) && n < |ops| && Reached(m, mem, ops, n, bs, outs) && Allowed(bs, ops[n])
    ensures var outs' := outs + [Result(bs, ops[n])]; forall i :: 0 <= i < n + 1 ==> outs'[i] == ResultAt(ops, i)
    ensures After(mem, bs, ops[n]) == MemAfter(m, ops, n + 1)
  {
    CallN(m, mem, ops, n, bs);
    var outs' := outs + [Result(bs, ops[n])];
    forall i | 0 <= i < n + 1 ensures outs'[i] == ResultAt(ops, i) {
      assert i < n ==> outs'[i] == outs[i];
    }
  }

  /**
   The literal code on a run, up to the first call that does not do what is intended. That is the
   first whose condition does not hold of the memory before it; and that memory depends only on the
   memory m at the start and on the calls. So memory is as intended after each of the first i
   calls exactly when the condition of each of them holds before it.
   */
  method LiteralRun(a: Arena, ops: seq<Op>) returns (n: nat, outs: seq<Outcome>)
    requires Loose(a, INIT) && Legal(INIT, ops)
    requires forall i :: 0 <= i < |ops| && ops[i].OpMalloc? ==> ops[i].n <= INT_MAX - 7
    modifies a`head, a.buffer
    ensures n <= |ops| && |outs| == (if n < |ops| then n + 1 else n)
    ensures forall i :: 0 <= i < |outs| ==> outs[i] == ResultAt(ops, i)
    ensures a.Mem() == MemAfter(old(a.Mem()), ops, |outs|)
    ensures AllAgree(old(a.Mem()), ops, n) && AllIntended(old(a.Mem()), ops, n)
    ensures n < |ops| ==> !AgreesAt(old(a.Mem()), ops, n) && !IntendedAfter(old(a.Mem()), ops, n + 1)
  {
    ghost var m := a.Mem();
    var bs := INIT;
    n, outs := 0, [];
    LooseIsIn(a, INIT);
    assert ops[..0] == [];
    while n < |ops|
      invariant Reached(m, a.Mem(), ops, n, bs, outs) && Loose(a, bs)
    {
      ghost var mem, before := a.Mem(), outs;
      NextCall(m, mem, ops, n, bs, outs);
      var agrees := StepAgrees(a.buffer[..], bs, ops[n]);
      var out := LiteralStep(a, ops[n], bs);
      LooseIsIn(a, Step(bs, ops[n]));
      outs := outs + [out];
      MoreResults(m, mem, ops, n, bs, before);
      if !agrees {
        return;
      }
      Advance(m, mem, ops, n, bs, before);
      n, bs := n + 1, Step(bs, ops[n]);
    }
  }
}

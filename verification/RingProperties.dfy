/**
 What holds of the ring in every state of every schedule: one token, words printed in file order
 by successive threads, no lost wakeup; and how every schedule ends.
 */
module RingProperties {
  import opened RingSpec

  /** A thread that has printed its word, or one that has not. */
  predicate Through(pc: Pc) { pc == WaitEof || pc == WokenEof }

  predicate Pending(pc: Pc) { pc == Test || pc == WantLock || pc == WaitDone || pc == WokenDone }

  /** The output is the first words of the file, word k printed by thread k. */
  ghost predicate InOrder(st: State) {
    && |st.output| <= |Words(st.text)|
    && forall k :: 0 <= k < |st.output| ==> st.output[k] == Print(Words(st.text)[k], k)
  }

  /** A thread blocked on its condition variable has no reason to run: a wakeup it is owed has been sent. */
  ghost predicate NoLostWakeup(st: State)
    requires st.Shape()
  {
    forall j :: 0 <= j < st.N() ==>
      (st.pc[j] == WaitDone ==> !st.done[j]) && (st.pc[j] == WaitEof ==> !st.eofDone && !st.feof)
  }

  /** Who is to print word t: thread t mod N, since t is at most N. */
  function Holder(t: nat, n: nat): nat { if t < n then t else t - n }

  lemma HolderIsMod(t: nat, n: nat)
    requires t <= n && 0 < n
    ensures Holder(t, n) == t % n
  {}

  /**
   Before the end of the file: t words printed by threads 0..t, and, once main has posted, one
   token, at thread t mod N.
   */
  ghost predicate Passing(st: State)
    requires st.Shape()
  {
    var t := |st.output|;
    && t <= st.N() && t <= |Words(st.text)| && (!st.posted ==> t == 0)
    && WordsFrom(st.text, st.pos) == Words(st.text)[t..]
    && (forall j :: 0 <= j < st.N() ==> (st.done[j] <==> st.posted && j == Holder(t, st.N())))
    && (forall j :: 0 <= j < st.N() ==> if j < t then Through(st.pc[j]) else Pending(st.pc[j]))
  }

  /** From the end of the file on: all words printed, fewer than N, and nobody is blocked for good. */
  ghost predicate Ending(st: State)
    requires st.Shape()
  {
    && st.posted && |st.output| == |Words(st.text)| < st.N() && WordsFrom(st.text, st.pos) == []
    && forall j :: 0 <= j < st.N() ==>
      st.pc[j] != WaitDone && (st.pc[j] == WantLock || st.pc[j] == WokenDone ==> st.done[j])
  }

  ghost predicate Inv(st: State) {
    && st.Shape() && st.feof == st.eofDone && InOrder(st) && NoLostWakeup(st)
    && (if st.feof then Ending(st) else Passing(st))
  }

  lemma InitialInv(text: seq<char>, n: nat)
    requires 2 <= n
    ensures Inv(Initial(text, n))
  {}

  lemma PostInv(st: State)
    requires Inv(st) && Enabled(st, Post)
    ensures Inv(Next(st, Post))
  {}

  lemma TestInv(st: State, i: nat)
    requires Inv(st) && Enabled(st, TestEof(i))
    ensures Inv(Next(st, TestEof(i)))
  {}

  lemma WaitInv(st: State, i: nat)
    requires Inv(st) && Enabled(st, Enter(i)) && !st.done[i]
    ensures Inv(Next(st, Enter(i)))
  {}

  lemma LeaveInv(st: State, i: nat)
    requires Inv(st) && Enabled(st, Leave(i))
    ensures Inv(Next(st, Leave(i)))
  {}

  lemma SpuriousInv(st: State, i: nat)
    requires Inv(st) && Enabled(st, Spurious(i))
    ensures Inv(Next(st, Spurious(i)))
  {}

  /** The token is at the thread that has to print the next word. */
  lemma HolderIsNext(st: State, i: nat)
    requires Inv(st) && !st.feof && Enabled(st, Enter(i)) && st.done[i]
    ensures i == |st.output| < st.N()
  {
    assert st.done[i] <==> st.posted && i == Holder(|st.output|, st.N());
    assert Pending(st.pc[i]);
  }

  /** It prints that word, passes the token and waits. */
  lemma PrintStep(st: State, i: nat)
    requires Inv(st) && !st.feof && Enabled(st, Enter(i)) && st.done[i] && WordEnd(st.text, st.pos) < |st.text|
    ensures i == |st.output| < st.N() && st.posted
    ensures var e, next := WordEnd(st.text, st.pos), Holder(i + 1, st.N());
      Next(st, Enter(i)) == st.(pos := e + 1, output := st.output + [Print(st.text[st.pos..e], i)],
                                done := st.done[next := true][i := false],
                                pc := st.pc[next := Wake(st.pc[next])][i := WaitEof])
  {
    HolderIsNext(st, i);
    HolderIsMod(i + 1, st.N());
  }

  lemma PrintPassing(st: State, i: nat)
    requires Inv(st) && !st.feof && Enabled(st, Enter(i)) && st.done[i] && WordEnd(st.text, st.pos) < |st.text|
    ensures Passing(Next(st, Enter(i)))
  {
    PrintStep(st, i);
    NextWord(st);
    var next, pc := Holder(i + 1, st.N()), Next(st, Enter(i)).pc;
    forall j | 0 <= j < st.N() ensures if j < i + 1 then Through(pc[j]) else Pending(pc[j]) {
      assert if j < i then Through(st.pc[j]) else Pending(st.pc[j]);
    }
  }

  lemma PrintInv(st: State, i: nat)
    requires Inv(st) && !st.feof && Enabled(st, Enter(i)) && st.done[i] && WordEnd(st.text, st.pos) < |st.text|
    ensures Inv(Next(st, Enter(i)))
  {
    PrintStep(st, i);
    NextWord(st);
    PrintPassing(st, i);
  }

  lemma NextWord(st: State)
    requires st.Shape() && |st.output| <= |Words(st.text)|
    requires WordsFrom(st.text, st.pos) == Words(st.text)[|st.output|..]
    ensures var e, t := WordEnd(st.text, st.pos), |st.output|;
      if e == |st.text| then t == |Words(st.text)|
      else
        && t < |Words(st.text)| && Words(st.text)[t] == st.text[st.pos..e]
        && WordsFrom(st.text, e + 1) == Words(st.text)[t + 1..]
  {
    var e, t := WordEnd(st.text, st.pos), |st.output|;
    if e < |st.text| {
      var ws := [st.text[st.pos..e]] + WordsFrom(st.text, e + 1);
      assert WordsFrom(st.text, st.pos) == ws;
      assert Words(st.text)[t..] == ws;
      assert Words(st.text)[t] == ws[0] && Words(st.text)[t + 1..] == ws[1..];
    }
  }

  /** Or it finds the end of the file and tells everybody. */
  lemma EofInv(st: State, i: nat)
    requires Inv(st) && !st.feof && Enabled(st, Enter(i)) && st.done[i] && WordEnd(st.text, st.pos) == |st.text|
    ensures Inv(Next(st, Enter(i)))
  {
    HolderIsNext(st, i);
    NextWord(st);
  }

  /** Later threads find it again. */
  lemma AgainInv(st: State, i: nat)
    requires Inv(st) && st.feof && Enabled(st, Enter(i)) && st.done[i]
    ensures Inv(Next(st, Enter(i)))
  {}

  lemma StepInv(st: State, step: Step)
    requires Inv(st) && Enabled(st, step)
    ensures Inv(Next(st, step))
  {
    match step {
      case Post => PostInv(st);
      case TestEof(i) => TestInv(st, i);
      case Leave(i) => LeaveInv(st, i);
      case Spurious(i) => SpuriousInv(st, i);
      case Enter(i) =>
        if !st.done[i] {
          WaitInv(st, i);
        } else if st.feof {
          AgainInv(st, i);
        } else if WordEnd(st.text, st.pos) < |st.text| {
          PrintInv(st, i);
        } else {
          EofInv(st, i);
        }
    }
  }

  // ---------- Schedules ----------

  ghost predicate Legal(st: State, steps: seq<Step>)
    requires st.Shape()
    decreases |steps|
  {
    steps == [] || (Enabled(st, steps[0]) && Legal(Next(st, steps[0]), steps[1..]))
  }

  ghost function Run(st: State, steps: seq<Step>): (st': State)
    requires st.Shape() && Legal(st, steps)
    ensures st'.Shape() && st'.N() == st.N() && st'.text == st.text
    decreases |steps|
  {
    if steps == [] then st else Run(Next(st, steps[0]), steps[1..])
  }

  lemma {:induction false} RunInv(st: State, steps: seq<Step>)
    requires Inv(st) && Legal(st, steps)
    ensures Inv(Run(st, steps))
    decreases |steps|
  {
    if steps != [] {
      StepInv(st, steps[0]);
      RunInv(Next(st, steps[0]), steps[1..]);
    }
  }

  /**
   Safety over every schedule: the output is the first t words of the file, word k printed by
   thread k, and t is at most N; while the file has not ended, exactly thread t mod N holds a token
   once main has posted, and threads 0..t wait for the end; nobody's wakeup is ever lost.
   */
  lemma Safety(text: seq<char>, n: nat, steps: seq<Step>)
    requires 2 <= n && Legal(Initial(text, n), steps)
    ensures var st := Run(Initial(text, n), steps);
      var t := |st.output|;
      && t <= n && t <= |Words(text)| && (forall k :: 0 <= k < t ==> st.output[k] == Print(Words(text)[k], k))
      && (!st.feof ==> forall j :: 0 <= j < n ==> (st.done[j] <==> st.posted && j == t % n))
      && (!st.feof ==> forall j :: 0 <= j < t ==> Through(st.pc[j]))
      && NoLostWakeup(st)
  {
    InitialInv(text, n);
    RunInv(Initial(text, n), steps);
    var st := Run(Initial(text, n), steps);
    if !st.feof {
      HolderIsMod(|st.output|, n);
    }
  }

  // ---------- How schedules end ----------

  function Rank(pc: Pc, feof: bool, n: nat): nat {
    match pc
    case Exited => 0
    case Test => if feof then 1 else n + 5
    case WaitEof => 2
    case WokenEof => 3
    case WaitDone => n + 2
    case WokenDone => n + 3
    case WantLock => n + 4
  }

  function SumRanks(pc: seq<Pc>, feof: bool, n: nat): nat {
    if pc == [] then 0 else Rank(pc[0], feof, n) + SumRanks(pc[1..], feof, n)
  }

  function Measure(st: State): nat { SumRanks(st.pc, st.feof, st.N()) + if st.posted then 0 else 2 }

  /** Ranks that grow by at most one each, except that the i-th drops by d, change the sum accordingly. */
  lemma {:induction false} SumRanksDrop(pc: seq<Pc>, pc': seq<Pc>, feof: bool, feof': bool, n: nat, i: nat, d: int)
    requires |pc| == |pc'| && i < |pc| && Rank(pc'[i], feof', n) + d <= Rank(pc[i], feof, n)
    requires forall j :: 0 <= j < |pc| && j != i ==> Rank(pc'[j], feof', n) <= Rank(pc[j], feof, n) + 1
    ensures SumRanks(pc', feof', n) + d <= SumRanks(pc, feof, n) + |pc| - 1
  {
    if i == 0 {
      SumRanksGrow(pc[1..], pc'[1..], feof, feof', n);
    } else {
      assert Rank(pc'[0], feof', n) <= Rank(pc[0], feof, n) + 1;
      SumRanksDrop(pc[1..], pc'[1..], feof, feof', n, i - 1, d);
    }
  }

  lemma {:induction false} SumRanksGrow(pc: seq<Pc>, pc': seq<Pc>, feof: bool, feof': bool, n: nat)
    requires |pc| == |pc'|
    requires forall j :: 0 <= j < |pc| ==> Rank(pc'[j], feof', n) <= Rank(pc[j], feof, n) + 1
    ensures SumRanks(pc', feof', n) <= SumRanks(pc, feof, n) + |pc|
  {
    if pc != [] {
      SumRanksGrow(pc[1..], pc'[1..], feof, feof', n);
    }
  }

  /** One rank changes. */
  lemma {:induction false} SumRanksUpdate(pc: seq<Pc>, i: nat, p: Pc, feof: bool, n: nat)
    requires i < |pc|
    ensures SumRanks(pc[i := p], feof, n) == SumRanks(pc, feof, n) - Rank(pc[i], feof, n) + Rank(p, feof, n)
  {
    var pc' := pc[i := p];
    if i == 0 {
      assert pc'[1..] == pc[1..];
    } else {
      assert pc'[1..] == pc[1..][i - 1 := p];
      SumRanksUpdate(pc[1..], i - 1, p, feof, n);
    }
  }

  /** Every step but a spurious wakeup brings the end closer; a spurious wakeup takes one step back. */
  lemma MeasureDecreases(st: State, step: Step)
    requires Inv(st) && Enabled(st, step)
    ensures if step.Spurious? then Measure(Next(st, step)) == Measure(st) + 1 else Measure(Next(st, step)) < Measure(st)
  {
    match step {
      case Post => OneMoves(st, Next(st, Post), 0);
      case TestEof(i) => TestDecreases(st, i);
      case Leave(i) => LeaveDecreases(st, i);
      case Spurious(i) => OneMoves(st, Next(st, Spurious(i)), i);
      case Enter(i) => EnterDecreases(st, i);
    }
  }

  lemma TestDecreases(st: State, i: nat)
    requires Inv(st) && Enabled(st, TestEof(i))
    ensures Measure(Next(st, TestEof(i))) < Measure(st)
  {
    OneMoves(st, Next(st, TestEof(i)), i);
  }

  lemma LeaveDecreases(st: State, i: nat)
    requires Inv(st) && Enabled(st, Leave(i))
    ensures Measure(Next(st, Leave(i))) < Measure(st)
  {
    OneMoves(st, Next(st, Leave(i)), i);
  }

  lemma EnterDecreases(st: State, i: nat)
    requires Inv(st) && Enabled(st, Enter(i))
    ensures Measure(Next(st, Enter(i))) < Measure(st)
  {
    if st.done[i] {
      WorkDecreases(st, i);
    } else {
      OneMoves(st, Next(st, Enter(i)), i);
    }
  }

  lemma OneMoves(st: State, st': State, i: nat)
    requires i < st.N() == st'.N() && st'.pc == st.pc[i := st'.pc[i]] && st'.feof == st.feof
    ensures Measure(st') - Rank(st'.pc[i], st.feof, st.N()) - (if st'.posted then 0 else 2)
         == Measure(st) - Rank(st.pc[i], st.feof, st.N()) - (if st.posted then 0 else 2)
  {
    SumRanksUpdate(st.pc, i, st'.pc[i], st.feof, st.N());
  }

  lemma WorkDecreases(st: State, i: nat)
    requires Inv(st) && Enabled(st, Enter(i)) && st.done[i]
    ensures Measure(Next(st, Enter(i))) < Measure(st)
  {
    var st' := Next(st, Enter(i));
    WorkRanks(st, i);
    SumRanksDrop(st.pc, st'.pc, st.feof, st'.feof, st.N(), i, st.N() + 1);
    assert st'.posted == st.posted;
  }

  lemma WorkRanks(st: State, i: nat)
    requires Inv(st) && Enabled(st, Enter(i)) && st.done[i]
    ensures var st' := Next(st, Enter(i));
      && Rank(st'.pc[i], st'.feof, st.N()) + st.N() + 1 <= Rank(st.pc[i], st.feof, st.N())
      && forall j :: 0 <= j < st.N() && j != i ==>
        Rank(st'.pc[j], st'.feof, st.N()) <= Rank(st.pc[j], st.feof, st.N()) + 1
  {}

  function CountSpurious(steps: seq<Step>): nat {
    if steps == [] then 0 else (if steps[0].Spurious? then 1 else 0) + CountSpurious(steps[1..])
  }

  /** So no schedule has more ordinary steps than its start allows for, plus one for each spurious wakeup. */
  lemma {:induction false} SchedulesAreFinite(st: State, steps: seq<Step>)
    requires Inv(st) && Legal(st, steps)
    ensures |steps| - CountSpurious(steps) + Measure(Run(st, steps)) <= Measure(st) + CountSpurious(steps)
    decreases |steps|
  {
    if steps != [] {
      MeasureDecreases(st, steps[0]);
      StepInv(st, steps[0]);
      SchedulesAreFinite(Next(st, steps[0]), steps[1..]);
    }
  }

  lemma {:induction false} SumRanksOfTests(k: nat, n: nat)
    ensures SumRanks(seq(k, _ => Test), false, n) == k * (n + 5)
  {
    if k > 0 {
      assert seq(k, _ => Test)[1..] == seq(k - 1, _ => Test);
      SumRanksOfTests(k - 1, n);
      assert k * (n + 5) == (k - 1) * (n + 5) + (n + 5);
    }
  }

  /** For a run of the program: at most n(n+5)+2 steps, and two for each spurious wakeup. */
  lemma RunsAreShort(text: seq<char>, n: nat, steps: seq<Step>)
    requires 2 <= n && Legal(Initial(text, n), steps)
    ensures |steps| <= n * (n + 5) + 2 + 2 * CountSpurious(steps)
  {
    InitialInv(text, n);
    SchedulesAreFinite(Initial(text, n), steps);
    SumRanksOfTests(n, n);
  }

  /**
   Everybody is gone and every word was printed; or N words were printed and everybody waits for
   the end of the file.
   */
  ghost predicate Final(st: State)
    requires st.Shape()
  {
    if |Words(st.text)| < st.N()
    then |st.output| == |Words(st.text)| && forall j :: 0 <= j < st.N() ==> st.pc[j] == Exited
    else |st.output| == st.N() && !st.feof && forall j :: 0 <= j < st.N() ==> st.pc[j] == WaitEof
  }

  ghost predicate Stuck(st: State) {
    forall step :: Enabled(st, step) ==> step.Spurious?
  }

  /** In a stuck state every thread is blocked or gone. */
  lemma StuckThread(st: State, j: nat)
    requires st.Shape() && j < st.N() && Stuck(st)
    ensures st.posted && (st.pc[j] == WaitDone || st.pc[j] == WaitEof || st.pc[j] == Exited)
  {
    assert !Enabled(st, Post) && !Enabled(st, TestEof(j)) && !Enabled(st, Enter(j)) && !Enabled(st, Leave(j));
  }

  /** The thread with the token can always go on. */
  lemma HolderRuns(st: State)
    requires Inv(st) && !st.feof && |st.output| < st.N()
    ensures !Stuck(st)
  {
    var t := |st.output|;
    assert Pending(st.pc[t]) && (st.posted ==> st.done[t]);
    if Stuck(st) {
      StuckThread(st, t);
      assert false;
    }
  }

  /** A state where nothing but spurious wakeups can happen is final, and the other way round. */
  lemma StuckIsFinal(st: State)
    requires Inv(st)
    ensures Stuck(st) <==> Final(st)
  {
    if Final(st) {
      assert |Words(st.text)| < st.N() ==> st.pc[0] == Exited;
    }
    if Stuck(st) {
      forall j | 0 <= j < st.N() ensures st.pc[j] == WaitDone || st.pc[j] == WaitEof || st.pc[j] == Exited {
        StuckThread(st, j);
      }
      if !st.feof && |st.output| < st.N() {
        HolderRuns(st);
      }
    }
  }

  /** From every reachable state some schedule without spurious wakeups leads to the end. */
  lemma {:induction false} CanFinish(st: State) returns (steps: seq<Step>)
    requires Inv(st)
    ensures Legal(st, steps) && CountSpurious(steps) == 0 && Stuck(Run(st, steps))
    decreases Measure(st)
  {
    steps := [];
    if !Stuck(st) {
      var step :| Enabled(st, step) && !step.Spurious?;
      StepInv(st, step);
      MeasureDecreases(st, step);
      var rest := CanFinish(Next(st, step));
      steps := [step] + rest;
    }
  }

  lemma {:induction false} OutputGrows(st: State, steps: seq<Step>)
    requires st.Shape() && Legal(st, steps)
    ensures |st.output| <= |Run(st, steps).output| && Run(st, steps).output[..|st.output|] == st.output
    decreases |steps|
  {
    if steps != [] {
      var st' := Next(st, steps[0]);
      assert |st.output| <= |st'.output| && st'.output[..|st.output|] == st.output;
      OutputGrows(st', steps[1..]);
      assert Run(st', steps[1..]).output[..|st'.output|][..|st.output|] == st.output;
    }
  }

  /**
   The dichotomy. A schedule that cannot go on, spurious wakeups aside, has printed every word and
   ended every thread when the file has fewer than N words; else it has printed N words and all
   threads wait for an end of the file that never comes. Nothing is printed after that.
   */
  lemma Dichotomy(text: seq<char>, n: nat, steps: seq<Step>, more: seq<Step>)
    requires 2 <= n && Legal(Initial(text, n), steps)
    requires Stuck(Run(Initial(text, n), steps)) && Legal(Run(Initial(text, n), steps), more)
    ensures var st, m := Run(Initial(text, n), steps), |Words(text)|;
      && |st.output| == (if m < n then m else n)
      && (forall k :: 0 <= k < |st.output| ==> st.output[k] == Print(Words(text)[k], k))
      && (forall j :: 0 <= j < n ==> st.pc[j] == if m < n then Exited else WaitEof)
      && Run(st, more).output == st.output
  {
    InitialInv(text, n);
    RunInv(Initial(text, n), steps);
    var st := Run(Initial(text, n), steps);
    StuckIsFinal(st);
    RunInv(st, more);
    OutputGrows(st, more);
  }
}

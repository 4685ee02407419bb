/**
 The word-passing thread ring of read_word_thread.c as a transition system. A step is a region a
 thread runs while it holds the mutex, or the unlocked test of line 53, or a spurious wakeup.
 The source's ten threads are any number N of at least two.
 */
module RingSpec {

  // ---------- Words ----------

  predicate Delimiter(c: char) { c == '\n' || c == ' ' }

  /** First delimiter of text at or after pos; its length when there is none. */
  function WordEnd(text: seq<char>, pos: nat): (e: nat)
    requires pos <= |text|
    ensures pos <= e <= |text| && (e < |text| ==> text[e] == '\n' || text[e] == ' ')
    ensures forall k :: pos <= k < e ==> text[k] != '\n' && text[k] != ' '
    decreases |text| - pos
  {
    if pos == |text| || Delimiter(text[pos]) then pos else WordEnd(text, pos + 1)
  }

  /** The delimited words of text from pos on; what follows the last delimiter is not one. */
  function WordsFrom(text: seq<char>, pos: nat): seq<seq<char>>
    requires pos <= |text|
    decreases |text| - pos
  {
    var e := WordEnd(text, pos);
    if e == |text| then [] else [text[pos..e]] + WordsFrom(text, e + 1)
  }

  function Words(text: seq<char>): seq<seq<char>> { WordsFrom(text, 0) }

  // ---------- States and steps ----------

  /**
   Where a thread is between regions: before the test of line 53; past it but without the lock;
   blocked at line 61, or woken there; blocked at line 70, or woken there; gone.
   */
  datatype Pc = Test | WantLock | WaitDone | WokenDone | WaitEof | WokenEof | Exited

  datatype Print = Print(word: seq<char>, thread: nat)

  datatype State = State(
    text: seq<char>, pos: nat, feof: bool,
    done: seq<bool>, eofDone: bool,
    output: seq<Print>, pc: seq<Pc>, posted: bool)
  {
    function N(): nat { |pc| }

    predicate Shape() { 2 <= |pc| == |done| && pos <= |text| }
  }

  datatype Step = Post | TestEof(i: nat) | Enter(i: nat) | Leave(i: nat) | Spurious(i: nat)

  function Wake(pc: Pc): Pc {
    match pc
    case WaitDone => WokenDone
    case WaitEof => WokenEof
    case _ => pc
  }

  function Initial(text: seq<char>, n: nat): State {
    State(text, 0, false, seq(n, _ => false), false, [], seq(n, _ => Test), false)
  }

  predicate Enabled(st: State, step: Step) {
    match step
    case Post => !st.posted
    case TestEof(i) => i < |st.pc| && st.pc[i] == Test
    case Enter(i) => i < |st.pc| && (st.pc[i] == WantLock || st.pc[i] == WokenDone)
    case Leave(i) => i < |st.pc| && st.pc[i] == WokenEof
    case Spurious(i) => i < |st.pc| && (st.pc[i] == WaitDone || st.pc[i] == WaitEof)
  }

  function Next(st: State, step: Step): (st': State)
    requires st.Shape() && Enabled(st, step)
    ensures st'.Shape() && st'.N() == st.N() && st'.text == st.text
  {
    match step
    case Post => st.(posted := true, done := st.done[0 := true], pc := st.pc[0 := Wake(st.pc[0])])
    case TestEof(i) => st.(pc := st.pc[i := if st.feof then Exited else WantLock])
    case Enter(i) => if !st.done[i] then st.(pc := st.pc[i := WaitDone]) else Finish(Handed(Printed(st, i), i), i)
    case Leave(i) => Finish(st, i)
    case Spurious(i) => st.(pc := st.pc[i := Wake(st.pc[i])])
  }

  /** PrintWord: print the word read, or at the end of the file tell everybody. */
  function Printed(st: State, i: nat): (st': State)
    requires st.Shape() && i < st.N()
    ensures st'.Shape() && st'.N() == st.N() && st'.text == st.text
  {
    var e := WordEnd(st.text, st.pos);
    if e < |st.text| && !st.feof then
      st.(pos := e + 1, output := st.output + [Print(st.text[st.pos..e], i)])
    else
      st.(pos := if e < |st.text| then e + 1 else e, feof := true, eofDone := true,
          done := seq(st.N(), _ => true), pc := seq(st.N(), j requires 0 <= j < st.N() => Wake(st.pc[j])))
  }

  /** Lines 64-66: hand the token on. */
  function Handed(st: State, i: nat): (st': State)
    requires st.Shape() && i < st.N()
    ensures st'.Shape() && st'.N() == st.N() && st'.text == st.text
  {
    var next := (i + 1) % st.N();
    st.(done := st.done[next := true][i := false], pc := st.pc[next := Wake(st.pc[next])])
  }

  /** Lines 67-72: wait for the end of the file, or unlock. */
  function Finish(st: State, i: nat): (st': State)
    requires st.Shape() && i < st.N()
    ensures st'.Shape() && st'.N() == st.N() && st'.text == st.text
  {
    st.(pc := st.pc[i := if !st.eofDone && !st.feof then WaitEof else Test])
  }
}

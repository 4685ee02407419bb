/**
 The shared state of read_word_thread.c, changed in place by the regions its threads run. Each
 method is one region, and is proved to take the step of RingSpec that models it.
 */
module RingModule {
  import opened RingSpec
  import opened RingProperties

  const BUFFER_SIZE := 10

  class Ring {
    const text: seq<char>
    var pos: nat
    var feof: bool
    const done: array<bool>
    var eofDone: bool
    var output: seq<Print>
    const pc: array<Pc>
    var posted: bool

    ghost function View(): State
      reads this, done, pc
    {
      State(text, pos, feof, done[..], eofDone, output, pc[..], posted)
    }

    /** Every word fits the ten-byte buffer, and the file holds no NUL. */
    ghost predicate Valid()
      reads this, done, pc
    {
      && View().Shape()
      && (forall k :: 0 <= k <= |text| ==> WordEnd(text, k) - k < BUFFER_SIZE)
      && '\0' !in text
    }

    constructor (text: seq<char>, n: nat)
      requires 2 <= n && '\0' !in text
      requires forall k :: 0 <= k <= |text| ==> WordEnd(text, k) - k < BUFFER_SIZE
      ensures Valid() && View() == Initial(text, n) && fresh(done) && fresh(pc)
    {
      this.text := text;
      pos, feof, eofDone, output, posted := 0, false, false, [], false;
      done := new bool[n](_ => false);
      pc := new Pc[n](_ => Test);
      new;
      assert done[..] == seq(n, _ => false);
      assert pc[..] == seq(n, _ => Test);
    }

    /** pthread_cond_signal(&cv[j]): only thread j ever waits there. */
    method Signal(j: nat)
      requires j < pc.Length
      modifies pc
      ensures pc[..] == old(pc[..])[j := Wake(old(pc[j]))]
    {
      pc[j] := Wake(pc[j]);
    }

    /** None at the end of the file, where the sticky flag is set. */
    method GetChar() returns (eof: bool, c: char)
      requires pos <= |text|
      modifies `pos, `feof
      ensures eof == (old(pos) == |text|)
      ensures if eof then pos == old(pos) && feof else pos == old(pos) + 1 && feof == old(feof) && c == text[old(pos)]
    {
      c := '\0';
      if pos == |text| {
        feof := true;
        return true, c;
      }
      c := text[pos];
      pos := pos + 1;
      eof := false;
    }

    /** Lines 15-29. */
    method GetTheWord(str: array<char>) returns (i: nat)
      requires Valid() && str.Length == BUFFER_SIZE
      modifies `pos, `feof, str
      ensures var e := WordEnd(text, old(pos));
        && i == e - old(pos) < BUFFER_SIZE && str[..i] == text[old(pos)..e] && str[i] == '\0'
        && (if e < |text| then pos == e + 1 && feof == old(feof) else pos == e && feof)
      ensures forall k :: old(pos) <= k < old(pos) + i ==> text[k] != '\n' && text[k] != ' '
      ensures var e := old(pos) + i; e < |text| ==> text[e] == '\n' || text[e] == ' '
    {
      i := 0;
      ghost var start, e := pos, WordEnd(text, pos);
      while true
        invariant Valid() && pos == start + i <= e && feof == old(feof)
        invariant str[..i] == text[start..pos]
        decreases e - pos
      {
        ghost var read := str[..i];
        var eof, c := GetChar();
        str[i] := c;
        assert str[..i] == read;
        if !eof && !Delimiter(c) {
          assert str[..i + 1] == read + [c];
          assert text[start..pos] == text[start..pos - 1] + [c];
          i := i + 1;
        } else {
          break;
        }
      }
      str[i] := '\0';
    }

    /** Lines 31-46. */
    method PrintWord(i: nat)
      requires Valid() && i < pc.Length
      modifies `pos, `feof, `eofDone, `output, done, pc
      ensures Valid() && View() == Printed(old(View()), i)
    {
      var str := new char[BUFFER_SIZE];
      ghost var st := View();
      var len := GetTheWord(str);
      if !feof {
        output := output + [Print(str[..len], i)];
      } else {
        Broadcast();
      }
    }

    /** Lines 39-44. */
    method Broadcast()
      requires 2 <= pc.Length == done.Length
      modifies `eofDone, done, pc
      ensures eofDone && done[..] == seq(pc.Length, _ => true)
      ensures pc[..] == seq(pc.Length, j requires 0 <= j < pc.Length => Wake(old(pc[..])[j]))
    {
      var j := 0;
      while j < pc.Length
        invariant 0 <= j <= pc.Length && (0 < j ==> eofDone)
        invariant forall k :: 0 <= k < j ==> done[k] && pc[k] == Wake(old(pc[k]))
        invariant forall k :: j <= k < pc.Length ==> pc[k] == old(pc[k])
      {
        eofDone := true;
        done[j] := true;
        Signal(j);
        j := j + 1;
      }
    }

    /** Lines 94-98, in main. */
    method PostToken()
      requires Valid() && Enabled(View(), Post)
      modifies `posted, done, pc
      ensures Valid() && View() == Next(old(View()), Post)
    {
      done[0] := true;
      Signal(0);
      posted := true;
    }

    /** Line 53, without the lock. */
    method TestFeof(i: nat)
      requires Valid() && Enabled(View(), TestEof(i))
      modifies pc
      ensures Valid() && View() == Next(old(View()), TestEof(i))
    {
      pc[i] := if feof then Exited else WantLock;
    }

    /** From taking the lock, or waking at line 61, to the next wait or the unlock. */
    method EnterRegion(i: nat)
      requires Valid() && Enabled(View(), Enter(i))
      modifies `pos, `feof, `eofDone, `output, done, pc
      ensures Valid() && View() == Next(old(View()), Enter(i))
    {
      if !done[i] {
        pc[i] := WaitDone;
      } else {
        PrintWord(i);
        HandOn(i);
        FinishRegion(i);
      }
    }

    /** Lines 64-66. */
    method HandOn(i: nat)
      requires Valid() && i < pc.Length
      modifies done, pc
      ensures Valid() && View() == Handed(old(View()), i)
    {
      var next := (i + 1) % pc.Length;
      done[next] := true;
      done[i] := false;
      Signal(next);
    }

    /** Lines 67-72. */
    method FinishRegion(i: nat)
      requires Valid() && i < pc.Length
      modifies pc
      ensures Valid() && View() == Finish(old(View()), i)
    {
      pc[i] := if !eofDone && !feof then WaitEof else Test;
    }

    /** Waking at line 70. */
    method LeaveRegion(i: nat)
      requires Valid() && Enabled(View(), Leave(i))
      modifies pc
      ensures Valid() && View() == Next(old(View()), Leave(i))
    {
      FinishRegion(i);
    }

    method SpuriousWakeup(i: nat)
      requires Valid() && Enabled(View(), Spurious(i))
      modifies pc
      ensures Valid() && View() == Next(old(View()), Spurious(i))
    {
      pc[i] := Wake(pc[i]);
    }

    method Take(step: Step)
      requires Valid() && Enabled(View(), step)
      modifies this, done, pc
      ensures Valid() && View() == Next(old(View()), step)
    {
      match step {
        case Post => PostToken();
        case TestEof(i) => TestFeof(i);
        case Enter(i) => EnterRegion(i);
        case Leave(i) => LeaveRegion(i);
        case Spurious(i) => SpuriousWakeup(i);
      }
    }

    /** Any schedule, run on the shared state. */
    method RunSchedule(steps: seq<Step>)
      requires Valid() && Legal(View(), steps)
      modifies this, done, pc
      ensures Valid() && View() == Run(old(View()), steps)
      decreases |steps|
    {
      if steps != [] {
        Take(steps[0]);
        RunSchedule(steps[1..]);
      }
    }
  }
}

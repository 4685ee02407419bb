/**
 Whole runs of the Rio package: any mixture of buffered reads answers like a plain cursor over the
 stream, and what a sequence of writes puts into a pipe any sequence of reads takes out again.
 */
module RioRuns {
  import opened Bytes
  import opened CInts
  import opened RioSpec
  import opened KernelModule
  import opened RioModule

  function Remaining(s: seq<byte>, ops: seq<Op>): seq<byte> {
    if ops == [] then s else Remaining(s[|Ask(s, ops[0]).bytes|..], ops[1..])
  }

  /** Delivered bytes and remaining bytes are always the whole stream. */
  lemma {:induction false} CursorConserves(s: seq<byte>, ops: seq<Op>)
    ensures Delivered(AskAll(s, ops)) + Remaining(s, ops) == s
  {
    if ops != [] {
      var a := Ask(s, ops[0]);
      CursorConserves(s[|a.bytes|..], ops[1..]);
      assert s == a.bytes + s[|a.bytes|..];
    }
  }

  /** A buffer of the size asked for can exist, and the int counter of a line does not overflow. */
  predicate Sized(op: Op) { if op.ReadBytes? then op.n <= SIZE_LIMIT else op.maxlen <= INT_MAX }

  /** Any one call. A failed one returns -1, and has stored some of what it was to store. */
  method Attempt(rio: Rio, op: Op) returns (answer: Answer, ghost stored: seq<byte>)
    requires rio.Valid() && Sized(op)
    modifies rio, rio.fd, rio.buffer
    ensures rio.Valid() && old(rio.Unread()) == stored + rio.Unread()
    ensures HardErrors(rio.fd.script) == HardErrors(old(rio.fd.script)) - if answer.ret == -1 then 1 else 0
    ensures |stored| <= |Ask(old(rio.Unread()), op).bytes|
    ensures answer.ret != -1 ==> answer == Ask(old(rio.Unread()), op) && stored == answer.bytes
  {
    match op {
      case ReadBytes(n) =>
        var buf := new byte[n];
        var r, m := rio.ReadNB(buf, n);
        stored := buf[..m];
        answer := Answer(r, if r == -1 then [] else buf[..r]);
      case ReadLine(maxlen) =>
        var buf := new byte[if maxlen == 0 then 1 else maxlen];
        var r, m := rio.ReadLineB(buf, maxlen);
        stored := buf[..m];
        var len := if r <= 0 then 0 else if buf[r - 1] == NEWLINE then r else r - 1;
        assert 0 < m ==> buf[..m][m - 1] == buf[m - 1];
        answer := Answer(r, buf[..len]);
    }
  }

  method Perform(rio: Rio, op: Op) returns (answer: Answer)
    requires rio.Valid() && HardErrors(rio.fd.script) == 0
    requires Sized(op)
    modifies rio, rio.fd, rio.buffer
    ensures rio.Valid() && HardErrors(rio.fd.script) == 0
    ensures answer == Ask(old(rio.Unread()), op)
    ensures rio.Unread() == old(rio.Unread())[|answer.bytes|..]
  {
    ghost var stored;
    answer, stored := Attempt(rio, op);
  }

  lemma AskNext(s: seq<byte>, ops: seq<Op>, i: nat)
    requires i < |ops|
    ensures var a := Ask(s, ops[i]);
      var rest := s[|a.bytes|..];
      && AskAll(s, ops[i..]) == [a] + AskAll(rest, ops[i + 1..])
      && Remaining(s, ops[i..]) == Remaining(rest, ops[i + 1..])
  {
    assert ops[i..][0] == ops[i] && ops[i..][1..] == ops[i + 1..];
  }

  /** The answers so far, to the first i calls, are the first of what the cursor answers. */
  ghost predicate OnTrack(answers: seq<Answer>, s: seq<byte>, all: seq<byte>, ops: seq<Op>, i: nat)
    requires i <= |ops|
  {
    && answers + AskAll(s, ops[i..]) == AskAll(all, ops)
    && Remaining(s, ops[i..]) == Remaining(all, ops)
  }

  lemma OnTrackStep(answers: seq<Answer>, s: seq<byte>, all: seq<byte>, ops: seq<Op>, i: nat)
    requires i < |ops| && OnTrack(answers, s, all, ops, i)
    ensures var a := Ask(s, ops[i]);
      OnTrack(answers + [a], s[|a.bytes|..], all, ops, i + 1)
  {
    var a := Ask(s, ops[i]);
    var later := AskAll(s[|a.bytes|..], ops[i + 1..]);
    AskNext(s, ops, i);
    assert answers + ([a] + later) == (answers + [a]) + later;
  }

  lemma OnTrackEnd(answers: seq<Answer>, s: seq<byte>, all: seq<byte>, ops: seq<Op>)
    requires OnTrack(answers, s, all, ops, |ops|)
    ensures answers == AskAll(all, ops) && s == Remaining(all, ops)
  {
    assert ops[|ops|..] == [];
  }

  /** However the kernel chops the stream up and interrupts it, the answers are the cursor's. */
  method PerformAll(rio: Rio, ops: seq<Op>) returns (answers: seq<Answer>)
    requires rio.Valid() && HardErrors(rio.fd.script) == 0
    requires forall i :: 0 <= i < |ops| ==> Sized(ops[i])
    modifies rio, rio.fd, rio.buffer
    ensures rio.Valid() && answers == AskAll(old(rio.Unread()), ops)
    ensures rio.Unread() == Remaining(old(rio.Unread()), ops)
  {
    answers := [];
    ghost var all := rio.Unread();
    var i := 0;
    assert ops[0..] == ops;
    while i < |ops|
      invariant 0 <= i <= |ops| && rio.Valid() && HardErrors(rio.fd.script) == 0
      invariant OnTrack(answers, rio.Unread(), all, ops, i)
    {
      OnTrackStep(answers, rio.Unread(), all, ops, i);
      var answer := Perform(rio, ops[i]);
      answers := answers + [answer];
      i := i + 1;
    }
    OnTrackEnd(answers, rio.Unread(), all, ops);
  }

  // ---------- Runs with hard errors ----------

  /** Call i stored piece i: what the cursor answers at that point of the stream, or on a -1 some first part of that. */
  ghost predicate Served(s: seq<byte>, ops: seq<Op>, rets: seq<int>, pieces: seq<seq<byte>>, rest: seq<byte>)
    requires |rets| == |pieces| == |ops|
    decreases |ops|
  {
    if ops == [] then s == rest
    else
      var a, p := Ask(s, ops[0]), pieces[0];
      && p <= a.bytes && (rets[0] == -1 || a == Answer(rets[0], p))
      && Served(s[|p|..], ops[1..], rets[1..], pieces[1..], rest)
  }

  function Failures(rets: seq<int>): nat {
    if rets == [] then 0 else (if rets[0] == -1 then 1 else 0) + Failures(rets[1..])
  }

  /** No byte is lost or stored twice, whatever fails. */
  lemma {:induction false} ServedConserves(s: seq<byte>, ops: seq<Op>, rets: seq<int>, pieces: seq<seq<byte>>,
                                           rest: seq<byte>)
    requires |rets| == |pieces| == |ops| && Served(s, ops, rets, pieces, rest)
    ensures Flatten(pieces) + rest == s
    decreases |ops|
  {
    if ops != [] {
      var p := pieces[0];
      ServedConserves(s[|p|..], ops[1..], rets[1..], pieces[1..], rest);
      AppendAssociates(p, Flatten(pieces[1..]), rest);
      assert s == p + s[|p|..];
    }
  }

  /** A run over any script: as many calls fail as hard errors were met, and the others answer like the cursor. */
  method AttemptAll(rio: Rio, ops: seq<Op>) returns (rets: seq<int>, ghost pieces: seq<seq<byte>>)
    requires rio.Valid() && forall i :: 0 <= i < |ops| ==> Sized(ops[i])
    modifies rio, rio.fd, rio.buffer
    ensures rio.Valid() && |rets| == |pieces| == |ops|
    ensures Served(old(rio.Unread()), ops, rets, pieces, rio.Unread())
    ensures old(rio.Unread()) == Flatten(pieces) + rio.Unread()
    ensures Failures(rets) == HardErrors(old(rio.fd.script)) - HardErrors(rio.fd.script)
    decreases |ops|
  {
    rets, pieces := [], [];
    if ops != [] {
      ghost var s := rio.Unread();
      var answer, stored := Attempt(rio, ops[0]);
      assert s[|stored|..] == rio.Unread() && stored <= Ask(s, ops[0]).bytes;
      var later, laterPieces := AttemptAll(rio, ops[1..]);
      rets, pieces := [answer.ret] + later, [stored] + laterPieces;
      assert rets[1..] == later && pieces[1..] == laterPieces;
    }
    ServedConserves(old(rio.Unread()), ops, rets, pieces, rio.Unread());
  }

  // ---------- Lines ----------

  /** One more line: its return value, and the piece it stored. */
  method NextLine(rio: Rio, maxlen: nat) returns (ret: int, piece: seq<byte>)
    requires rio.Valid() && HardErrors(rio.fd.script) == 0 && 1 < maxlen <= INT_MAX
    modifies rio, rio.fd, rio.buffer
    ensures rio.Valid() && HardErrors(rio.fd.script) == 0
    ensures ret == 0 <==> old(rio.Unread()) == []
    ensures ret == 0 ==> rio.Unread() == []
    ensures ret != 0 ==> |rio.Unread()| < |old(rio.Unread())|
    ensures ret != 0 ==> Pieces(old(rio.Unread()), maxlen) == [piece] + Pieces(rio.Unread(), maxlen)
  {
    LineReturnSpec(rio.Unread(), maxlen);
    var answer := Perform(rio, ReadLine(maxlen));
    ret, piece := answer.ret, answer.bytes;
  }

  /** Reading lines until a call returns 0 takes the stream apart into its longest allowed pieces. */
  method ReadLines(rio: Rio, maxlen: nat) returns (pieces: seq<seq<byte>>)
    requires rio.Valid() && HardErrors(rio.fd.script) == 0 && 1 < maxlen <= INT_MAX
    modifies rio, rio.fd, rio.buffer
    ensures rio.Valid() && rio.Unread() == []
    ensures Flatten(pieces) == old(rio.Unread()) && Maximal(pieces, maxlen)
  {
    ghost var all := rio.Unread();
    pieces := [];
    var ret, piece := NextLine(rio, maxlen);
    while ret != 0
      invariant rio.Valid() && HardErrors(rio.fd.script) == 0
      invariant ret == 0 ==> rio.Unread() == [] && Pieces(all, maxlen) == pieces
      invariant ret != 0 ==> Pieces(all, maxlen) == pieces + [piece] + Pieces(rio.Unread(), maxlen)
      decreases |rio.Unread()|, ret != 0
    {
      pieces := pieces + [piece];
      ret, piece := NextLine(rio, maxlen);
    }
    PiecesAreMaximal(all, maxlen);
  }

  // ---------- Writes and reads through one pipe ----------

  function Sum(sizes: seq<nat>): nat {
    if sizes == [] then 0 else sizes[0] + Sum(sizes[1..])
  }

  ghost predicate ErrorFree(script: seq<Event>) { HardErrors(script) == 0 == ZeroWrites(script) }

  method WriteAll(fd: Kernel, writes: seq<seq<byte>>)
    requires ErrorFree(fd.script) && forall i :: 0 <= i < |writes| ==> |writes[i]| <= SIZE_LIMIT
    modifies fd
    ensures fd.stream == old(fd.stream) + Flatten(writes) && ErrorFree(fd.script)
    decreases |writes|
  {
    if writes != [] {
      var n := |writes[0]|;
      var buf := new byte[n](i requires 0 <= i < |writes[0]| => writes[0][i]);
      assert buf[..n] == writes[0];
      var r, m, c := WriteN(fd, buf, n);
      WriteAll(fd, writes[1..]);
    }
  }

  method ReadAll(fd: Kernel, sizes: seq<nat>) returns (pieces: seq<seq<byte>>)
    requires HardErrors(fd.script) == 0 && Sum(sizes) <= |fd.stream|
    requires forall i :: 0 <= i < |sizes| ==> sizes[i] <= SIZE_LIMIT
    modifies fd
    ensures |pieces| == |sizes| && forall i :: 0 <= i < |sizes| ==> |pieces[i]| == sizes[i]
    ensures Flatten(pieces) == old(fd.stream)[..Sum(sizes)] && fd.stream == old(fd.stream)[Sum(sizes)..]
    decreases |sizes|
  {
    pieces := [];
    if sizes != [] {
      ghost var all := fd.stream;
      var buf := new byte[sizes[0]];
      var r, m, c := ReadN(fd, buf, sizes[0]);
      var piece := buf[..sizes[0]];
      var rest := ReadAll(fd, sizes[1..]);
      pieces := [piece] + rest;
      assert all[sizes[0]..][..Sum(sizes[1..])] == all[sizes[0]..Sum(sizes)];
      assert piece + all[sizes[0]..Sum(sizes)] == all[..Sum(sizes)];
    }
  }

  /** Bytes written in any portions come out in order, in any other portions of the same total size. */
  method RoundTrip(fd: Kernel, writes: seq<seq<byte>>, sizes: seq<nat>) returns (pieces: seq<seq<byte>>)
    requires ErrorFree(fd.script) && fd.stream == []
    requires forall i :: 0 <= i < |writes| ==> |writes[i]| <= SIZE_LIMIT
    requires forall i :: 0 <= i < |sizes| ==> sizes[i] <= SIZE_LIMIT
    requires Sum(sizes) == |Flatten(writes)|
    modifies fd
    ensures Flatten(pieces) == Flatten(writes) && fd.stream == []
    ensures |pieces| == |sizes| && forall i :: 0 <= i < |sizes| ==> |pieces[i]| == sizes[i]
  {
    WriteAll(fd, writes);
    pieces := ReadAll(fd, sizes);
  }
}

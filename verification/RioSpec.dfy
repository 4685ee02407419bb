/**
 What the Rio readers are meant to be: a plain cursor over a stream of bytes, however the kernel
 chops the stream up. Lines, pieces of lines, and how a stream falls apart into them.
 */
module RioSpec {
  import opened Bytes

  const NEWLINE: byte := 10
  const RETURN: byte := 13
  const CRLF: seq<byte> := [RETURN, NEWLINE]

  /** Length of the longest prefix of at most `room` bytes that holds no newline except as its last byte. */
  function LineLen(s: seq<byte>, room: int): (n: nat)
    ensures n <= |s| && (0 < room ==> n <= room) && (room <= 0 ==> n == 0)
    ensures 0 < n <==> s != [] && 0 < room
  {
    if room <= 0 || s == [] then 0
    else if s[0] == NEWLINE then 1
    else 1 + LineLen(s[1..], room - 1)
  }

  /** The piece a call with this maxlen stores: at most maxlen - 1 bytes. */
  function Piece(s: seq<byte>, maxlen: int): seq<byte> { s[..LineLen(s, maxlen - 1)] }

  /** What ReadLineB returns: one more than it stored, unless the piece ends in a newline. */
  function LineReturn(s: seq<byte>, maxlen: int): int {
    var p := Piece(s, maxlen);
    if s == [] && 1 < maxlen then 0
    else if p != [] && p[|p| - 1] == NEWLINE then |p|
    else |p| + 1
  }

  lemma {:induction false} LineLenSpec(s: seq<byte>, room: int)
    ensures forall i :: 0 <= i < LineLen(s, room) - 1 ==> s[i] != NEWLINE
    ensures var n := LineLen(s, room); 0 < room ==> n == |s| || n == room || (0 < n && s[n - 1] == NEWLINE)
  {
    if 0 < room && s != [] && s[0] != NEWLINE {
      LineLenSpec(s[1..], room - 1);
      var n := LineLen(s[1..], room - 1);
      assert forall i :: 0 < i <= n ==> s[i] == s[1..][i - 1] || i == |s|;
    }
  }

  /** Bytes without a newline that have room belong to the first piece. */
  lemma {:induction false} LineLenAtLeast(taken: seq<byte>, rest: seq<byte>, room: int)
    requires NEWLINE !in taken && |taken| <= room
    ensures |taken| <= LineLen(taken + rest, room)
  {
    if taken != [] {
      assert taken[0] in taken && (taken + rest)[1..] == taken[1..] + rest;
      LineLenAtLeast(taken[1..], rest, room - 1);
    }
  }

  // ---------- A stream as a list of pieces ----------

  function Flatten(ps: seq<seq<byte>>): seq<byte> {
    if ps == [] then [] else ps[0] + Flatten(ps[1..])
  }

  lemma FlattenCons(p: seq<byte>, ps: seq<seq<byte>>)
    ensures Flatten([p] + ps) == p + Flatten(ps)
  {
    assert ([p] + ps)[1..] == ps;
  }

  function Pieces(s: seq<byte>, maxlen: int): seq<seq<byte>>
    requires 1 < maxlen
    decreases |s|
  {
    if s == [] then [] else [Piece(s, maxlen)] + Pieces(s[|Piece(s, maxlen)|..], maxlen)
  }

  /** Not empty, no longer than allowed, and no newline before its last byte. */
  ghost predicate Unbroken(p: seq<byte>, maxlen: int) {
    0 < |p| < maxlen && forall i :: 0 <= i < |p| - 1 ==> p[i] != NEWLINE
  }

  /** As long as allowed: it is full, or it ends its line. */
  ghost predicate Full(p: seq<byte>, maxlen: int) {
    |p| == maxlen - 1 || (p != [] && p[|p| - 1] == NEWLINE)
  }

  ghost predicate Maximal(ps: seq<seq<byte>>, maxlen: int) {
    && (forall i :: 0 <= i < |ps| ==> Unbroken(ps[i], maxlen))
    && (forall i :: 0 <= i < |ps| - 1 ==> Full(ps[i], maxlen))
  }

  /** The first piece of a stream. */
  lemma PieceSpec(s: seq<byte>, maxlen: int)
    requires 1 < maxlen && s != []
    ensures var p := Piece(s, maxlen);
      Unbroken(p, maxlen) && s == p + s[|p|..] && (s[|p|..] != [] ==> Full(p, maxlen))
  {
    LineLenSpec(s, maxlen - 1);
  }

  /** The pieces make up the stream, and each is the longest allowed. */
  lemma {:induction false} PiecesAreMaximal(s: seq<byte>, maxlen: int)
    requires 1 < maxlen
    ensures Flatten(Pieces(s, maxlen)) == s && Maximal(Pieces(s, maxlen), maxlen)
    decreases |s|
  {
    if s != [] {
      var p := Piece(s, maxlen);
      var rest := s[|p|..];
      var ps := Pieces(rest, maxlen);
      PieceSpec(s, maxlen);
      PiecesAreMaximal(rest, maxlen);
      FlattenCons(p, ps);
      assert rest == [] ==> ps == [];
      MaximalCons(p, ps, maxlen);
    }
  }

  lemma MaximalCons(p: seq<byte>, ps: seq<seq<byte>>, maxlen: int)
    requires Unbroken(p, maxlen) && Maximal(ps, maxlen) && (ps != [] ==> Full(p, maxlen))
    ensures Maximal([p] + ps, maxlen)
  {}

  lemma MaximalTail(ps: seq<seq<byte>>, maxlen: int)
    requires ps != [] && Maximal(ps, maxlen)
    ensures Unbroken(ps[0], maxlen) && Maximal(ps[1..], maxlen) && (|ps| > 1 ==> Full(ps[0], maxlen))
  {
    var rest := ps[1..];
    assert forall i :: 0 <= i < |rest| ==> rest[i] == ps[i + 1];
  }

  /** And no other way to take the stream apart does that. */
  lemma {:induction false} PiecesAreUnique(s: seq<byte>, maxlen: int, ps: seq<seq<byte>>)
    requires 1 < maxlen && Flatten(ps) == s && Maximal(ps, maxlen)
    ensures ps == Pieces(s, maxlen)
    decreases |ps|
  {
    if ps != [] {
      var p, later := ps[0], ps[1..];
      var rest := Flatten(later);
      MaximalTail(ps, maxlen);
      FirstPieceIs(s, maxlen, p, rest);
      assert |ps| == 1 ==> rest == [];
      PiecesAreUnique(rest, maxlen, later);
      assert ps == [p] + later;
    }
  }

  lemma FirstPieceIs(s: seq<byte>, maxlen: int, p: seq<byte>, rest: seq<byte>)
    requires s == p + rest && Unbroken(p, maxlen) && (rest == [] || Full(p, maxlen))
    ensures Piece(s, maxlen) == p && s[|p|..] == rest
  {
    assert forall i :: 0 <= i < |p| ==> s[i] == p[i];
    LineLenUnique(s, maxlen - 1, |p|);
  }

  lemma {:induction false} LineLenUnique(s: seq<byte>, room: int, n: nat)
    requires 0 < n <= |s| && n <= room && forall i :: 0 <= i < n - 1 ==> s[i] != NEWLINE
    requires n == |s| || n == room || s[n - 1] == NEWLINE
    ensures LineLen(s, room) == n
  {
    if n > 1 {
      assert s[0] != NEWLINE;
      assert forall i :: 0 <= i < n - 2 ==> s[1..][i] == s[i + 1];
      LineLenUnique(s[1..], room - 1, n - 1);
    } else if s[0] != NEWLINE {
      assert s[1..] == [] || room == 1;
    }
  }

  /** Bytes stored up to and including a newline are a piece. */
  lemma LineEnds(taken: seq<byte>, rest: seq<byte>, maxlen: int)
    requires NEWLINE !in taken && |taken| + 1 < maxlen
    ensures var s := taken + ([NEWLINE] + rest);
      |Piece(s, maxlen)| == LineReturn(s, maxlen) == |taken| + 1
  {
    var s := taken + ([NEWLINE] + rest);
    assert s[|taken|] == NEWLINE && forall i :: 0 <= i < |taken| ==> s[i] == taken[i];
    LineLenUnique(s, maxlen - 1, |taken| + 1);
  }

  /** Bytes without a newline that leave no room, or are all there are, are a piece; one more is returned. */
  lemma LineCut(taken: seq<byte>, rest: seq<byte>, maxlen: int)
    requires NEWLINE !in taken
    requires |taken| + 1 == maxlen || (maxlen <= 1 && taken == []) || (rest == [] && 0 < |taken| < maxlen)
    ensures var s := taken + rest; |Piece(s, maxlen)| == |taken| && LineReturn(s, maxlen) == |taken| + 1
  {
    var s := taken + rest;
    assert forall i :: 0 <= i < |taken| ==> s[i] == taken[i];
    if taken != [] {
      LineLenUnique(s, maxlen - 1, |taken|);
      assert Piece(s, maxlen) == taken;
    }
  }

  /** What the caller can tell from the return value. */
  lemma LineReturnSpec(s: seq<byte>, maxlen: int)
    ensures var p, r := Piece(s, maxlen), LineReturn(s, maxlen);
      && (maxlen <= 1 ==> p == [] && r == 1)
      && (1 < maxlen ==>
            && (r == 0 <==> s == [])
            && (s != [] ==> r == if p[|p| - 1] == 10 then |p| else |p| + 1)
            && |p| <= r <= maxlen)
  {}

  // ---------- The cursor ----------

  datatype Op = ReadBytes(n: nat) | ReadLine(maxlen: nat)

  /** The return value and the bytes stored. */
  datatype Answer = Answer(ret: int, bytes: seq<byte>)

  function Ask(s: seq<byte>, op: Op): Answer {
    match op
    case ReadBytes(n) => Answer(Min(n, |s|), s[..Min(n, |s|)])
    case ReadLine(m) => Answer(LineReturn(s, m), Piece(s, m))
  }

  function AskAll(s: seq<byte>, ops: seq<Op>): seq<Answer> {
    if ops == [] then [] else [Ask(s, ops[0])] + AskAll(s[|Ask(s, ops[0]).bytes|..], ops[1..])
  }

  function Delivered(answers: seq<Answer>): seq<byte> {
    if answers == [] then [] else answers[0].bytes + Delivered(answers[1..])
  }
}

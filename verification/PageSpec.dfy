/**
 What grab_page is meant to fetch: everything after the first blank line of a response. And what
 it does fetch: everything after the first piece that is a blank line, with bytes after a NUL lost.
 */
module PageSpec {
  import opened Bytes
  import opened RioSpec

  const MAXBUF := 8192

  /** The C string at the start of p. */
  function CString(p: seq<byte>): seq<byte> {
    if p == [] || p[0] == 0 then [] else [p[0]] + CString(p[1..])
  }

  function CStrings(ps: seq<seq<byte>>): seq<byte> {
    if ps == [] then [] else CString(ps[0]) + CStrings(ps[1..])
  }

  /** The stream after the first piece that is a blank line. */
  function BodyByPieces(s: seq<byte>): seq<byte>
    decreases |s|
  {
    var p := Piece(s, MAXBUF);
    if s == [] then [] else if p == CRLF then s[2..] else BodyByPieces(s[|p|..])
  }

  /** The page grab_page builds. */
  function Page(s: seq<byte>): seq<byte> { CStrings(Pieces(BodyByPieces(s), MAXBUF)) }

  // ---------- NUL bytes ----------

  lemma {:induction false} CStringShorter(p: seq<byte>)
    ensures |CString(p)| <= |p| && (0 !in p <==> |CString(p)| == |p|) && (0 !in p ==> CString(p) == p)
  {
    if p != [] {
      CStringShorter(p[1..]);
      assert p == [p[0]] + p[1..];
    }
  }

  /** The page keeps every byte of the body exactly when there is no NUL among them. */
  lemma {:induction false} CStringsKeepAll(ps: seq<seq<byte>>)
    ensures |CStrings(ps)| <= |Flatten(ps)|
    ensures CStrings(ps) == Flatten(ps) <==> 0 !in Flatten(ps)
  {
    if ps != [] {
      CStringShorter(ps[0]);
      CStringsKeepAll(ps[1..]);
      var a, b := CStrings(ps[1..]), Flatten(ps[1..]);
      if CStrings(ps) == Flatten(ps) {
        assert |CString(ps[0])| == |ps[0]|;
        assert a == (ps[0] + a)[|ps[0]|..] == (ps[0] + b)[|ps[0]|..] == b;
      }
    }
  }

  lemma PageKeepsAll(s: seq<byte>)
    ensures Page(s) == BodyByPieces(s) <==> 0 !in BodyByPieces(s)
  {
    PiecesAreMaximal(BodyByPieces(s), MAXBUF);
    CStringsKeepAll(Pieces(BodyByPieces(s), MAXBUF));
  }

  // ---------- Lines ----------

  /** The first line, newline included, or all that is left. */
  function Line(s: seq<byte>): seq<byte> { s[..LineLen(s, |s|)] }

  /** The stream after the first blank line. */
  function Body(s: seq<byte>): seq<byte>
    decreases |s|
  {
    if s == [] then [] else if Line(s) == CRLF then s[2..] else Body(s[|Line(s)|..])
  }

  /** Bytes that end in their only newline, and are not a carriage return and a newline alone. */
  ghost predicate HeaderLine(t: seq<byte>) {
    t != [] && t[|t| - 1] == 10 && (forall i :: 0 <= i < |t| - 1 ==> t[i] != 10) && t != [13, 10]
  }

  /** The first line of a stream, if it ends in a newline or is all there is. */
  lemma LineIs(t: seq<byte>, more: seq<byte>)
    requires t != [] && (forall i :: 0 <= i < |t| - 1 ==> t[i] != 10) && (t[|t| - 1] == 10 || more == [])
    ensures Line(t + more) == t && (t + more)[|t|..] == more
  {
    var s := t + more;
    assert forall i :: 0 <= i < |t| ==> s[i] == t[i];
    LineLenUnique(s, |s|, |t|);
  }

  /** The body is what comes after the first line that is "\r\n", */
  lemma {:induction false} BodyAfter(lines: seq<seq<byte>>, rest: seq<byte>)
    requires forall i :: 0 <= i < |lines| ==> HeaderLine(lines[i])
    ensures Body(Flatten(lines) + ([13, 10] + rest)) == rest
  {
    var end: seq<byte> := [13, 10];
    if lines == [] {
      assert Flatten(lines) + (end + rest) == end + rest;
      LineIs(end, rest);
    } else {
      var t, more := lines[0], Flatten(lines[1..]) + (end + rest);
      BodyAfter(lines[1..], rest);
      AppendAssociates(t, Flatten(lines[1..]), end + rest);
      LineIs(t, more);
    }
  }

  /** and without such a line there is none. */
  lemma {:induction false} NoBody(lines: seq<seq<byte>>, tail: seq<byte>)
    requires (forall i :: 0 <= i < |lines| ==> HeaderLine(lines[i])) && 10 !in tail
    ensures Body(Flatten(lines) + tail) == []
  {
    if lines == [] {
      assert Flatten(lines) + tail == tail == tail + [];
      if tail != [] {
        LineIs(tail, []);
      }
    } else {
      var t, more := lines[0], Flatten(lines[1..]) + tail;
      NoBody(lines[1..], tail);
      AppendAssociates(t, Flatten(lines[1..]), tail);
      LineIs(t, more);
    }
  }

  /** A line whose last piece is a blank line although the line is not. */
  predicate Aliased(line: seq<byte>) {
    2 < |line| && (|line| - 2) % (MAXBUF - 1) == 0 && line[|line| - 2..] == CRLF
  }

  /** No header line is aliased, except perhaps one that ends the stream. */
  predicate PlainHeader(s: seq<byte>)
    decreases |s|
  {
    s == [] || Line(s) == CRLF
    || ((Aliased(Line(s)) ==> |Line(s)| == |s|) && PlainHeader(s[|Line(s)|..]))
  }

  lemma LineSpec(s: seq<byte>)
    requires s != []
    ensures var t := Line(s);
      && 0 < |t| <= |s| && (forall i :: 0 <= i < |t| - 1 ==> s[i] != NEWLINE)
      && (|t| == |s| || s[|t| - 1] == NEWLINE)
  {
    LineLenSpec(s, |s|);
  }

  /** A short line is one piece; a long one starts with a full piece and goes on as the rest of the line. */
  lemma LineToPiece(s: seq<byte>)
    requires s != []
    ensures var t := Line(s);
      if |t| < MAXBUF then Piece(s, MAXBUF) == t
      else Piece(s, MAXBUF) == s[..MAXBUF - 1] && s[MAXBUF - 1..] != [] && Line(s[MAXBUF - 1..]) == t[MAXBUF - 1..]
  {
    LineSpec(s);
    var t := Line(s);
    if |t| < MAXBUF {
      LineLenUnique(s, MAXBUF - 1, |t|);
    } else {
      LineLenUnique(s, MAXBUF - 1, MAXBUF - 1);
      var r := s[MAXBUF - 1..];
      LineLenUnique(r, |r|, |t| - (MAXBUF - 1));
    }
  }

  /** The blank line is found at the end of a line exactly when the line is one or is aliased. */
  lemma {:induction false} SkipLine(s: seq<byte>)
    requires s != []
    ensures var t := Line(s);
      BodyByPieces(s) == if t == CRLF || Aliased(t) then s[|t|..] else BodyByPieces(s[|t|..])
    decreases |s|
  {
    var t := Line(s);
    LineSpec(s);
    LineToPiece(s);
    if |t| >= MAXBUF {
      var r := s[MAXBUF - 1..];
      SkipLine(r);
      Further(s, MAXBUF - 1, |t|);
      AliasedTail(t);
    }
  }

  lemma Further(s: seq<byte>, lo: nat, hi: nat)
    requires lo <= hi <= |s|
    ensures s[lo..][hi - lo..] == s[hi..]
  {}

  lemma AliasedTail(t: seq<byte>)
    requires MAXBUF <= |t|
    ensures var u := t[MAXBUF - 1..]; (u == CRLF || Aliased(u)) == Aliased(t)
  {
    var u := t[MAXBUF - 1..];
    assert |u| >= 2 ==> u[|u| - 2..] == t[|t| - 2..];
    assert |u| == 2 ==> u == u[|u| - 2..];
  }

  lemma {:induction false} BodyShorter(s: seq<byte>)
    ensures s != [] ==> |Body(s)| < |s|
    decreases |s|
  {
    if s != [] {
      LineSpec(s);
      BodyShorter(s[|Line(s)|..]);
    }
  }

  /** The header ends where it should exactly when no line of it is aliased. */
  lemma {:induction false} BodyIsFound(s: seq<byte>)
    ensures BodyByPieces(s) == Body(s) <==> PlainHeader(s)
    decreases |s|
  {
    if s != [] {
      LineSpec(s);
      SkipLine(s);
      BodyIsFound(s[|Line(s)|..]);
      BodyShorter(s[|Line(s)|..]);
    }
  }

  /** Header lines that fit the buffer are never aliased. */
  ghost predicate ShortHeader(s: seq<byte>)
    decreases |s|
  {
    s == [] || Line(s) == CRLF || (|Line(s)| < MAXBUF && ShortHeader(s[|Line(s)|..]))
  }

  lemma {:induction false} ShortHeaderIsPlain(s: seq<byte>)
    requires ShortHeader(s)
    ensures PlainHeader(s)
    decreases |s|
  {
    if s != [] && Line(s) != CRLF {
      ShortHeaderIsPlain(s[|Line(s)|..]);
    }
  }

  // ---------- When the page is the body ----------

  /** Bytes of the page that the stream u, taken as a body, leaves. */
  function PageLen(u: seq<byte>): nat { |CStrings(Pieces(u, MAXBUF))| }

  lemma PageLenStep(u: seq<byte>)
    requires u != []
    ensures var p := Piece(u, MAXBUF); PageLen(u) == |CString(p)| + PageLen(u[|p|..])
  {
    var p := Piece(u, MAXBUF);
    assert ([p] + Pieces(u[|p|..], MAXBUF))[1..] == Pieces(u[|p|..], MAXBUF);
  }

  /** Dropping the first line never makes the page longer. */
  lemma {:induction false} DropLine(u: seq<byte>)
    requires u != []
    ensures PageLen(u[|Line(u)|..]) <= PageLen(u)
    decreases |u|
  {
    var t := Line(u);
    LineSpec(u);
    LineToPiece(u);
    PageLenStep(u);
    if |t| >= MAXBUF {
      var r := u[MAXBUF - 1..];
      DropLine(r);
      assert r[|Line(r)|..] == u[|t|..];
    }
  }

  /** A stream with its header still on it makes a longer page than its body alone. */
  lemma {:induction false} HeaderLengthens(u: seq<byte>)
    requires Body(u) != [] && 0 !in Body(u)
    ensures |Body(u)| < PageLen(u)
    decreases |u|
  {
    var t := Line(u);
    LineSpec(u);
    if t == CRLF {
      LineToPiece(u);
      PageLenStep(u);
      PiecesAreMaximal(u[2..], MAXBUF);
      CStringsKeepAll(Pieces(u[2..], MAXBUF));
      CStringShorter(t);
    } else {
      HeaderLengthens(u[|t|..]);
      DropLine(u);
    }
  }

  /** A header that ends too early leaves the rest of it, and so the same body, behind. */
  lemma {:induction false} SameBody(s: seq<byte>)
    requires !PlainHeader(s)
    ensures Body(s) == Body(BodyByPieces(s))
    decreases |s|
  {
    var t := Line(s);
    LineSpec(s);
    SkipLine(s);
    if !Aliased(t) {
      SameBody(s[|t|..]);
    }
  }

  ghost predicate StartsWithNul(p: seq<byte>) { p != [] && p[0] == 0 }

  lemma {:induction false} NoNulKept(ps: seq<seq<byte>>)
    ensures 0 !in CStrings(ps)
  {
    if ps != [] {
      NoNulInCString(ps[0]);
      NoNulKept(ps[1..]);
    }
  }

  lemma {:induction false} NoNulInCString(p: seq<byte>)
    ensures 0 !in CString(p)
  {
    if p != [] {
      NoNulInCString(p[1..]);
    }
  }

  /** Nothing is left of pieces exactly when each of them starts with a NUL. */
  lemma {:induction false} NothingLeft(ps: seq<seq<byte>>)
    requires forall i :: 0 <= i < |ps| ==> ps[i] != []
    ensures CStrings(ps) == [] <==> forall i :: 0 <= i < |ps| ==> StartsWithNul(ps[i])
  {
    if ps != [] {
      var rest := ps[1..];
      NothingLeft(rest);
      assert forall i :: 0 <= i < |rest| ==> rest[i] == ps[i + 1];
      assert forall i :: 0 < i < |ps| ==> ps[i] == rest[i - 1];
      assert CString(ps[0]) == [] <==> StartsWithNul(ps[0]);
    }
  }

  /** The page of a stream with an early end of header: it is the body only when there is nothing in either. */
  lemma PageOfEarlyEnd(s: seq<byte>)
    requires !PlainHeader(s)
    ensures Page(s) == Body(s) <==> Page(s) == [] && Body(s) == []
  {
    SameBody(s);
    NoNulKept(Pieces(BodyByPieces(s), MAXBUF));
    if Page(s) == Body(s) && Body(s) != [] {
      HeaderLengthens(BodyByPieces(s));
    }
  }

  /**
   Nothing follows the first blank line, and each piece after the place where the header seems to
   end starts with a NUL.
   */
  ghost predicate LeavesNothing(s: seq<byte>) {
    Body(s) == [] && forall p :: p in Pieces(BodyByPieces(s), MAXBUF) ==> StartsWithNul(p)
  }

  /**
   The page is everything after the first blank line exactly when there is no NUL in that and the
   header is plain; or when, by coincidence, neither has anything in it.
   */
  lemma PageIsBody(s: seq<byte>)
    ensures Page(s) == Body(s) <==> 0 !in Body(s) && (PlainHeader(s) || LeavesNothing(s))
  {
    var ps := Pieces(BodyByPieces(s), MAXBUF);
    PageKeepsAll(s);
    BodyIsFound(s);
    PiecesAreMaximal(BodyByPieces(s), MAXBUF);
    assert forall i :: 0 <= i < |ps| ==> Unbroken(ps[i], MAXBUF);
    NothingLeft(ps);
    if !PlainHeader(s) {
      PageOfEarlyEnd(s);
    }
  }

  /** So short header lines and a body without a NUL are enough. */
  lemma ShortHeaderSuffices(s: seq<byte>)
    requires ShortHeader(s)
    ensures Page(s) == Body(s) <==> 0 !in Body(s)
  {
    ShortHeaderIsPlain(s);
    PageIsBody(s);
  }

  // ---------- Streams on which the page is not the body, or is by coincidence ----------

  /** A NUL in a line of the body: the rest of that line is lost. */
  lemma NulInBody(s: seq<byte>)
    requires s == CRLF + [97, 0, 98, NEWLINE, 99]
    ensures Body(s) == [97, 0, 98, NEWLINE, 99] && Page(s) == [97, 99]
  {
    var body: seq<byte> := [97, 0, 98, NEWLINE, 99];
    LineLenUnique(s, |s|, 2);
    LineLenUnique(s, MAXBUF - 1, 2);
    assert Line(s) == CRLF == Piece(s, MAXBUF) && s[2..] == body;
    LineLenUnique(body, MAXBUF - 1, 4);
    assert body[4..] == [99];
    OnePiece([99]);
    var p: seq<byte> := [97, 0, 98, NEWLINE];
    assert Piece(body, MAXBUF) == p;
    assert Pieces(body, MAXBUF) == [p] + [[99]];
    assert ([p] + [[99]])[1..] == [[99]];
    assert CString(p) == [97] + CString(p[1..]) == [97];
    assert CStrings([[99]]) == CString([99]) + CStrings([]) == [99];
  }

  lemma OnePiece(s: seq<byte>)
    requires |s| == 1
    ensures Pieces(s, MAXBUF) == [s]
  {
    LineLenUnique(s, MAXBUF - 1, 1);
    assert Piece(s, MAXBUF) == s && s[|s|..] == [];
    assert Pieces(s, MAXBUF) == [s] + Pieces([], MAXBUF);
  }

  /** The header of the next stream ends too early, but all that follows is a NUL, which leaves no trace. */
  lemma EarlyEndByCoincidence(s: seq<byte>)
    requires s == seq(MAXBUF - 1, _ => 97) + CRLF + [0]
    ensures !PlainHeader(s) && Page(s) == [] == Body(s)
  {
    LineLenUnique(s, |s|, MAXBUF + 1);
    SkipLine(s);
    assert s[MAXBUF + 1..] == [0];
    assert Line(s)[|Line(s)| - 2..] == CRLF;
    assert Line([0]) == [0] && [0][1..] == [];
    OnePiece([0]);
    assert BodyByPieces(s) == [0] && CStrings([[0]]) == CString([0]) + CStrings([]) == [];
  }

  lemma OneBytePage(b: byte)
    requires b != 0
    ensures CStrings(Pieces([b], MAXBUF)) == [b]
  {
    OnePiece([b]);
    assert [b][1..] == [] && CString([b]) == [b];
    assert CStrings([[b]]) == CString([b]) + CStrings([]);
  }

  /** One header line of 8193 bytes and no blank line: the intended page is empty, the page is what follows. */
  lemma LongHeaderLine(s: seq<byte>)
    requires s == seq(8191, _ => 97) + [13, 10, 120]
    ensures Body(s) == [] && Page(s) == [120] == BodyByPieces(s)
  {
    assert s == seq(MAXBUF - 1, _ => 97) + CRLF + [120];
    LineLenUnique(s, |s|, MAXBUF + 1);
    SkipLine(s);
    assert s[MAXBUF + 1..] == [120];
    assert Line(s)[|Line(s)| - 2..] == CRLF;
    assert Line([120]) == [120] && [120][1..] == [];
    OneBytePage(120);
  }
}

/**
 grab_page of proj3_web_crawler/web_tester.c, lines 40-76: skip the header of a response, then
 collect its body, piece by piece, in a page that grows.
 */
module GrabPage {
  import opened Bytes
  import opened CInts
  import opened RioSpec
  import opened KernelModule
  import opened RioModule
  import opened PageSpec

  /** buf holds the piece p and its terminator. */
  ghost predicate Holds(buf: array<byte>, p: seq<byte>)
    reads buf
  {
    0 < |p| < buf.Length && buf[..|p|] == p && buf[|p|] == 0
  }

  /** strcmp(buf, "\r\n") == 0 */
  method IsBlank(buf: array<byte>, ghost p: seq<byte>) returns (blank: bool)
    requires buf.Length == MAXBUF
    requires forall i :: 0 <= i < |p| - 1 ==> p[i] != NEWLINE
    ensures Holds(buf, p) ==> (blank <==> p == [13, 10])
  {
    blank := buf[0] == RETURN && buf[1] == NEWLINE && buf[2] == 0;
    if Holds(buf, p) {
      assert forall i :: 0 <= i < |p| ==> buf[i] == buf[..|p|][i] == p[i];
    }
  }

  /** Rio_readlineb, which exits on an error. What it stores, and the piece that is. */
  method ReadLine(rio: Rio, buf: array<byte>) returns (n: int, ghost p: seq<byte>)
    requires rio.Valid() && buf.Length == MAXBUF && buf != rio.buffer
    modifies rio, rio.fd, rio.buffer, buf
    ensures rio.Valid() && -1 <= n && |rio.Unread()| <= |old(rio.Unread())|
    ensures n == 0 ==> old(rio.Unread()) == [] && rio.Unread() == []
    ensures 0 < n ==> p == Piece(old(rio.Unread()), MAXBUF) && old(rio.Unread()) == p + rio.Unread()
    ensures 0 < n ==> Holds(buf, p) && |p| <= n <= |p| + 1
    ensures forall i :: 0 <= i < |p| - 1 ==> p[i] != NEWLINE
    ensures HardErrors(rio.fd.script) == HardErrors(old(rio.fd.script)) - if n == -1 then 1 else 0
  {
    ghost var all := rio.Unread();
    var r, m := rio.ReadLineB(buf, MAXBUF);
    n := r;
    p := Piece(all, MAXBUF);
    LineReturnSpec(all, MAXBUF);
    LineLenSpec(all, MAXBUF - 1);
  }

  /** sprintf(&page[pos], "%s", buf) */
  method Append(page: array<byte>, pos: nat, buf: array<byte>, ghost p: seq<byte>) returns (len: nat)
    requires Holds(buf, p) && page != buf && pos + |p| + 1 <= page.Length
    modifies page
    ensures len == |CString(p)| <= |p|
    ensures page[..pos + len] == old(page[..pos]) + CString(p) && page[pos + len] == 0
  {
    len := 0;
    assert forall i :: 0 <= i < |p| ==> buf[i] == buf[..|p|][i] == p[i];
    while buf[len] != 0
      invariant len <= |p| && 0 !in p[..len]
      invariant page[..pos + len] == old(page[..pos]) + p[..len]
      invariant buf[..] == old(buf[..])
      decreases |p| - len
    {
      page[pos + len] := buf[len];
      len := len + 1;
    }
    CStringIs(p, len);
    page[pos + len] := 0;
  }

  lemma {:induction false} CStringIs(p: seq<byte>, n: nat)
    requires n <= |p| && 0 !in p[..n] && (n < |p| ==> p[n] == 0)
    ensures CString(p) == p[..n]
  {
    if 0 < n {
      assert p[0] == p[..n][0];
      assert p[1..][..n - 1] == p[..n][1..];
      CStringIs(p[1..], n - 1);
    }
  }

  lemma BodyStep(s: seq<byte>, p: seq<byte>, rest: seq<byte>)
    requires p != [] && p == Piece(s, MAXBUF) && s == p + rest
    ensures BodyByPieces(s) == if p == CRLF then rest else BodyByPieces(rest)
  {
    assert s[|p|..] == rest;
  }

  /** Read a line and compare it with the blank one. */
  method NextHeaderLine(rio: Rio, buf: array<byte>) returns (n: int, blank: bool)
    requires rio.Valid() && buf.Length == MAXBUF && buf != rio.buffer
    modifies rio, rio.fd, rio.buffer, buf
    ensures rio.Valid() && -1 <= n && |rio.Unread()| <= |old(rio.Unread())|
    ensures n == 0 ==> rio.Unread() == [] == BodyByPieces(old(rio.Unread()))
    ensures 0 < n ==> |rio.Unread()| < |old(rio.Unread())|
    ensures 0 < n ==> BodyByPieces(old(rio.Unread())) == if blank then rio.Unread() else BodyByPieces(rio.Unread())
    ensures HardErrors(rio.fd.script) == HardErrors(old(rio.fd.script)) - if n == -1 then 1 else 0
  {
    ghost var left := rio.Unread();
    ghost var p;
    n, p := ReadLine(rio, buf);
    blank := IsBlank(buf, p);
    if n > 0 {
      BodyStep(left, p, rio.Unread());
    }
  }

  /** Lines 50-58: read up to and including the first blank line. */
  method SkipHeader(rio: Rio, buf: array<byte>) returns (ok: bool)
    requires rio.Valid() && buf.Length == MAXBUF && buf != rio.buffer
    modifies rio, rio.fd, rio.buffer, buf
    ensures rio.Valid()
    ensures ok ==> rio.Unread() == BodyByPieces(old(rio.Unread()))
    ensures HardErrors(rio.fd.script) == HardErrors(old(rio.fd.script)) - if ok then 0 else 1
  {
    ghost var all := rio.Unread();
    var n, blank := NextHeaderLine(rio, buf);
    while !blank && n > 0
      invariant rio.Valid() && -1 <= n
      invariant n == 0 ==> rio.Unread() == [] == BodyByPieces(all)
      invariant 0 < n ==> BodyByPieces(all) == if blank then rio.Unread() else BodyByPieces(rio.Unread())
      invariant HardErrors(rio.fd.script) == HardErrors(old(rio.fd.script)) - if n == -1 then 1 else 0
      decreases |rio.Unread()|, n
    {
      n, blank := NextHeaderLine(rio, buf);
    }
    ok := n >= 0;
  }

  lemma PieceStep(s: seq<byte>, p: seq<byte>, rest: seq<byte>)
    requires p != [] && p == Piece(s, MAXBUF) && s == p + rest
    ensures CStrings(Pieces(s, MAXBUF)) == CString(p) + CStrings(Pieces(rest, MAXBUF))
  {
    assert s[|p|..] == rest;
    assert ([p] + Pieces(rest, MAXBUF))[1..] == Pieces(rest, MAXBUF);
  }

  /** realloc: a larger block that starts with the old contents. */
  method Realloc(page: array<byte>, size: nat) returns (page': array<byte>)
    requires page.Length <= size
    ensures page'.Length == size && fresh(page') && page'[..page.Length] == page[..]
  {
    page' := new byte[size];
    forall i | 0 <= i < page.Length {
      page'[i] := page[i];
    }
  }

  /** Lines 66-69: make room for n more bytes and a terminator. */
  method Grow(page: array<byte>, pos: nat, n: nat) returns (page': array<byte>)
    requires pos < page.Length && 0 < n
    ensures page' == page || fresh(page')
    ensures pos + n + 1 <= page'.Length && page'[..pos] == page[..pos]
    ensures page'.Length == if pos + n + 1 > page.Length then page.Length + n else page.Length
  {
    page' := page;
    if pos + n + 1 > page.Length {
      page' := Realloc(page, page.Length + n);
      assert page'[..page.Length][..pos] == page'[..pos];
    }
  }

  /** The page so far, with room left for a terminator, and the terminator once anything was appended. */
  ghost predicate Built(page: array<byte>, pos: nat, content: seq<byte>, terminated: bool)
    reads page
  {
    pos < page.Length && page[..pos] == content && (terminated ==> page[pos] == 0)
  }

  /** Lines 66-71 */
  method AppendPiece(page: array<byte>, pos: nat, n: nat, buf: array<byte>, ghost p: seq<byte>, ghost done: seq<byte>)
    returns (page': array<byte>, pos': nat)
    requires pos < page.Length && page[..pos] == done && Holds(buf, p) && page != buf && |p| <= n <= |p| + 1
    modifies page
    ensures page' == page || fresh(page')
    ensures Built(page', pos', done + CString(p), true) && page'.Length <= page.Length + 2 * |p|
  {
    page' := Grow(page, pos, n);
    var len := Append(page', pos, buf, p);
    pos' := pos + len;
  }

  /**
   What a call that returned n has read off the stream s: the piece p, which buf holds; nothing,
   for s was empty; or it failed.
   */
  ghost predicate Read(rio: Rio, buf: array<byte>, s: seq<byte>, n: int, p: seq<byte>)
    reads rio, rio.fd, rio.buffer, buf
  {
    && rio.Valid() && -1 <= n && |p| + |rio.Unread()| <= |s|
    && (n == 0 ==> s == [] == CStrings(Pieces(s, MAXBUF)))
    && (0 < n ==> Holds(buf, p) && |p| <= n <= |p| + 1)
    && (0 < n ==> CStrings(Pieces(s, MAXBUF)) == CString(p) + CStrings(Pieces(rio.Unread(), MAXBUF)))
  }

  method NextPiece(rio: Rio, buf: array<byte>) returns (n: int, ghost p: seq<byte>)
    requires rio.Valid() && buf.Length == MAXBUF && buf != rio.buffer
    modifies rio, rio.fd, rio.buffer, buf
    ensures Read(rio, buf, old(rio.Unread()), n, p)
    ensures HardErrors(rio.fd.script) == HardErrors(old(rio.fd.script)) - if n == -1 then 1 else 0
  {
    ghost var left := rio.Unread();
    n, p := ReadLine(rio, buf);
    p := if n <= 0 then [] else p;
    if n > 0 {
      PieceStep(left, p, rio.Unread());
    }
  }

  /** Lines 66-72: append the piece p, and read the next one. */
  method AppendAndRead(rio: Rio, page: array<byte>, pos: nat, n: nat, buf: array<byte>,
                       ghost p: seq<byte>, ghost done: seq<byte>)
    returns (page': array<byte>, pos': nat, n': int, ghost p': seq<byte>)
    requires rio.Valid() && buf.Length == MAXBUF && buf != rio.buffer && page != buf && page != rio.buffer
    requires pos < page.Length && page[..pos] == done && Holds(buf, p) && |p| <= n <= |p| + 1
    modifies rio, rio.fd, rio.buffer, buf, page
    ensures page' == page || fresh(page')
    ensures Built(page', pos', done + CString(p), true) && page'.Length <= page.Length + 2 * |p|
    ensures Read(rio, buf, old(rio.Unread()), n', p')
    ensures HardErrors(rio.fd.script) == HardErrors(old(rio.fd.script)) - if n' == -1 then 1 else 0
  {
    ghost var left := rio.Unread();
    page', pos' := AppendPiece(page, pos, n, buf, p, done);
    assert rio.Unread() == left;
    n', p' := NextPiece(rio, buf);
  }

  /**
   Lines 60-75. There is always room for what is appended, since ReadLineB returns no less
   than it stored. The ints are unbounded here. No int of the source overflows if the page ends up
   no longer than INT_MAX, since page_len only grows and pos stays below it; a body of less than
   2^30 bytes is enough for that.
   */
  method CollectBody(rio: Rio, buf: array<byte>) returns (ok: bool, page: array<byte>, pos: nat)
    requires rio.Valid() && buf.Length == MAXBUF && buf != rio.buffer
    modifies rio, rio.fd, rio.buffer, buf
    ensures ok ==> pos < page.Length && page[..pos] == CStrings(Pieces(old(rio.Unread()), MAXBUF))
    ensures ok ==> page.Length <= 1 + 2 * |old(rio.Unread())|
    ensures ok && old(rio.Unread()) != [] ==> page[pos] == 0
    ensures HardErrors(rio.fd.script) == HardErrors(old(rio.fd.script)) - if ok then 0 else 1
  {
    ghost var all, done := rio.Unread(), [];
    ghost var terminated := false;
    page := new byte[1];
    pos := 0;
    var n, p := NextPiece(rio, buf);
    while n > 0
      invariant rio.Valid() && fresh(page) && -1 <= n
      invariant 0 < n ==> Holds(buf, p) && |p| <= n <= |p| + 1
      invariant Built(page, pos, done, terminated)
      invariant page.Length + 2 * (|p| + |rio.Unread()|) <= 1 + 2 * |all|
      invariant n == 0 ==> CStrings(Pieces(all, MAXBUF)) == done
      invariant 0 < n ==> CStrings(Pieces(all, MAXBUF)) == done + (CString(p) + CStrings(Pieces(rio.Unread(), MAXBUF)))
      invariant 0 <= n ==> all == [] || terminated || 0 < n
      invariant HardErrors(rio.fd.script) == HardErrors(old(rio.fd.script)) - if n == -1 then 1 else 0
      decreases |rio.Unread()|, n
    {
      ghost var piece := CString(p);
      AppendAssociates(done, piece, CStrings(Pieces(rio.Unread(), MAXBUF)));
      page, pos, n, p := AppendAndRead(rio, page, pos, n, buf, p, done);
      done, terminated := done + piece, true;
    }
    ok := n == 0;
  }

  /**
   grab_page. exited: an error made a wrapper end the program. Otherwise page[..pos] is the page;
   it has a terminator unless the body is empty.
   */
  method Grab(fd: Kernel) returns (exited: bool, page: array<byte>, pos: nat)
    modifies fd
    ensures !exited ==> pos < page.Length && page[..pos] == Page(old(fd.stream))
    ensures !exited && BodyByPieces(old(fd.stream)) != [] ==> page[pos] == 0
    ensures !exited && |old(fd.stream)| < 0x4000_0000 ==> page.Length <= INT_MAX
    ensures HardErrors(fd.script) == HardErrors(old(fd.script)) - if exited then 1 else 0
  {
    var rio := new Rio(fd);
    var buf := new byte[MAXBUF];
    BodyIsShorter(fd.stream);
    var ok := SkipHeader(rio, buf);
    if !ok {
      page := new byte[0];
      return true, page, 0;
    }
    ok, page, pos := CollectBody(rio, buf);
    exited := !ok;
  }

  lemma {:induction false} BodyIsShorter(s: seq<byte>)
    ensures |BodyByPieces(s)| <= |s|
    decreases |s|
  {
    if s != [] {
      BodyIsShorter(s[|Piece(s, MAXBUF)|..]);
    }
  }
}

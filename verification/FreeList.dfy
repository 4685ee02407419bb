/**
 The doubly-linked free list as pure data: the nodes in address order, the headers that link
 them, and what unlinking, splitting, inserting and merging do to those headers.
 */
module FreeList {
  import opened BlockList

  ghost predicate IsNode(a: int) {
    0 <= a && a % 8 == 0 && a + HEADER_SIZE <= MAX_MALLOC_SIZE
  }

  /** Address of the i-th node of a list, NULL beyond either end. */
  function Addr(fl: seq<Block>, i: int): int {
    if 0 <= i < |fl| then fl[i].addr else NULL
  }

  /** Word w is part of b: of its header or of its payload. */
  ghost predicate InSpan(b: Block, w: int) { b.addr <= 8 * w < b.End() }

  ghost predicate InSome(bs: seq<Block>, w: int) {
    exists i :: 0 <= i < |bs| && InSpan(bs[i], w)
  }

  ghost predicate InHeader(bs: seq<Block>, w: int) {
    exists i :: 0 <= i < |bs| && bs[i].addr <= 8 * w < bs[i].Payload()
  }

  lemma {:induction false} HeaderOfSome(bs: seq<Block>, live: bool, w: int)
    requires InHeader(Select(bs, live), w)
    ensures InHeader(bs, w)
  {
    var fl := Select(bs, live);
    var i :| 0 <= i < |fl| && fl[i].addr <= 8 * w < fl[i].Payload();
    if bs != [] && !(bs[0].live == live && i == 0) {
      var rest := Select(bs[1..], live);
      var j := if bs[0].live == live then i - 1 else i;
      assert rest[j] == fl[i];
      HeaderOfSome(bs[1..], live, w);
      var k :| 0 <= k < |bs[1..]| && bs[1..][k].addr <= 8 * w < bs[1..][k].Payload();
      assert bs[k + 1] == bs[1..][k];
    }
  }

  lemma HeadersOfSome(bs: seq<Block>, live: bool)
    ensures forall w :: InHeader(Select(bs, live), w) ==> InHeader(bs, w)
  {
    forall w | InHeader(Select(bs, live), w) ensures InHeader(bs, w) {
      HeaderOfSome(bs, live, w);
    }
  }

  ghost predicate InArena(b: Block) {
    IsNode(b.addr) && 0 <= b.size && b.End() <= MAX_MALLOC_SIZE
  }

  lemma InHeaderIsInside(fl: seq<Block>, w: int)
    requires Apart(fl) && InHeader(fl, w)
    ensures InSome(fl, w)
  {
    var i :| 0 <= i < |fl| && fl[i].addr <= 8 * w < fl[i].Payload();
    assert InArena(fl[i]) && InSpan(fl[i], w);
  }

  ghost predicate Before(b: Block, c: Block) { b.End() <= c.addr }

  /** Aligned blocks inside the arena, in address order and disjoint. */
  ghost predicate Apart(fl: seq<Block>) {
    && (forall i {:trigger InArena(fl[i])} :: 0 <= i < |fl| ==> InArena(fl[i]))
    && (forall i, j {:trigger Before(fl[i], fl[j])} :: 0 <= i < j < |fl| ==> Before(fl[i], fl[j]))
  }

  /** Blocks i..j of a list replaced by others that lie within the same region. */
  lemma ApartSplice(fl: seq<Block>, i: nat, j: nat, m: seq<Block>)
    requires Apart(fl) && i < j <= |fl| && Apart(m)
    requires m != [] ==> fl[i].addr <= m[0].addr && m[|m| - 1].End() <= fl[j - 1].End()
    ensures Apart(fl[..i] + m + fl[j..])
  {
    var r := fl[..i] + m + fl[j..];
    forall x | 0 <= x < |r| ensures InArena(r[x]) {
      assert InArena(if x < i then fl[x] else if x < i + |m| then m[x - i] else fl[x - i - |m| + j]);
    }
    forall x, y | 0 <= x < y < |r| ensures Before(r[x], r[y]) {
      if y < i {
        assert Before(fl[x], fl[y]);
      } else if x < i <= y < i + |m| {
        assert m[y - i] == m[0] || (Before(m[0], m[y - i]) && InArena(m[0]));
        assert Before(fl[x], fl[i]);
      } else if x < i && i + |m| <= y {
        assert Before(fl[x], fl[y - i - |m| + j]);
      } else if i <= x && y < i + |m| {
        assert Before(m[x - i], m[y - i]);
      } else if i <= x < i + |m| <= y {
        assert m[x - i] == m[|m| - 1] || (Before(m[x - i], m[|m| - 1]) && InArena(m[|m| - 1]));
        assert Before(fl[j - 1], fl[y - i - |m| + j]);
      } else {
        assert Before(fl[x - i - |m| + j], fl[y - i - |m| + j]);
      }
    }
  }

  /** A word of the new blocks is a word of the old ones. */
  lemma InSomeSplice(fl: seq<Block>, i: nat, j: nat, m: seq<Block>, w: int)
    requires i < j <= |fl| && InSome(fl[..i] + m + fl[j..], w)
    requires InSome(m, w) ==> InSome(fl, w)
    ensures InSome(fl, w)
  {
    var r := fl[..i] + m + fl[j..];
    var x :| 0 <= x < |r| && InSpan(r[x], w);
    if x < i {
      assert InSpan(fl[x], w);
    } else if x < i + |m| {
      assert InSpan(m[x - i], w);
    } else {
      assert InSpan(fl[x - i - |m| + j], w);
    }
  }

  datatype Header = Header(left: int, right: int, size: int, buffer: int)

  /** The headers of a well-formed list: each node linked to its neighbours, NULL at both ends. */
  ghost function Links(fl: seq<Block>): seq<Header> {
    seq(|fl|, i requires 0 <= i < |fl| => Header(Addr(fl, i - 1), Addr(fl, i + 1), fl[i].size, fl[i].Payload()))
  }

  /** Node i against every other node of the list. */
  lemma Neighbours(fl: seq<Block>, i: nat)
    requires Apart(fl) && i < |fl|
    ensures forall j :: 0 <= j < |fl| ==> InArena(fl[j])
    ensures forall j :: 0 <= j < i ==> Before(fl[j], fl[i])
    ensures forall j :: i < j < |fl| ==> Before(fl[i], fl[j])
  {}

  /** Headers of allocated blocks: no neighbours, and the size and buffer of the block. */
  ghost function Unlinked(bs: seq<Block>): seq<Header> {
    seq(|bs|, i requires 0 <= i < |bs| => Header(NULL, NULL, bs[i].size, bs[i].Payload()))
  }

  // ---------- The list and the blocks ----------

  lemma {:induction false} SelectApart(bs: seq<Block>, lo: int, hi: int, live: bool)
    requires Tiles(bs, lo, hi) && AllAligned(bs) && 0 <= lo && hi <= MAX_MALLOC_SIZE
    ensures Apart(Select(bs, live))
    ensures Select(bs, live) != [] ==> lo <= Select(bs, live)[0].addr
  {
    if bs != [] {
      var rest := Select(bs[1..], live);
      assert bs[0].Aligned();
      assert forall i {:trigger bs[1..][i].Aligned()} :: 0 <= i < |bs[1..]| ==>
        bs[1..][i] == bs[i + 1] && bs[i + 1].Aligned();
      Inside(bs, lo, hi, 0);
      SelectApart(bs[1..], bs[0].End(), hi, live);
      if bs[0].live == live {
        ApartCons(bs[0], rest);
      }
    }
  }

  lemma ApartCons(b: Block, bs: seq<Block>)
    requires InArena(b) && Apart(bs) && (bs != [] ==> b.End() <= bs[0].addr)
    ensures Apart([b] + bs)
  {
    var r := [b] + bs;
    forall i | 0 <= i < |r| ensures InArena(r[i]) {
      if i > 0 { assert InArena(bs[i - 1]); }
    }
    forall i, j | 0 <= i < j < |r| ensures Before(r[i], r[j]) {
      if i > 0 {
        assert Before(bs[i - 1], bs[j - 1]);
      } else if j > 1 {
        assert Before(bs[0], bs[j - 1]) && InArena(bs[0]);
      }
    }
  }

  /** No word belongs to both a live and a free block. */
  lemma LiveIsNotFree(bs: seq<Block>, w: int)
    requires Tiles(bs, 0, MAX_MALLOC_SIZE)
    ensures !(InSome(Select(bs, true), w) && InSome(Select(bs, false), w))
  {
    if InSome(Select(bs, true), w) && InSome(Select(bs, false), w) {
      var i := InSelect(bs, true, w);
      var j := InSelect(bs, false, w);
      if i < j {
        Ordered(bs, 0, MAX_MALLOC_SIZE, i, j);
      } else {
        Ordered(bs, 0, MAX_MALLOC_SIZE, j, i);
      }
    }
  }

  lemma {:induction false} InSelect(bs: seq<Block>, live: bool, w: int) returns (i: nat)
    requires InSome(Select(bs, live), w)
    ensures i < |bs| && bs[i].live == live && InSpan(bs[i], w)
  {
    var x :| 0 <= x < |Select(bs, live)| && InSpan(Select(bs, live)[x], w);
    if bs[0].live == live && x == 0 {
      i := 0;
    } else {
      assert InSpan(Select(bs[1..], live)[if bs[0].live == live then x - 1 else x], w);
      var j := InSelect(bs[1..], live, w);
      i := j + 1;
    }
  }

  /** First fit on the free list finds the block that first fit on the block list finds. */
  lemma {:induction false} FirstFitInList(bs: seq<Block>, s: int)
    ensures var fl, k := Select(bs, false), FirstFit(bs, s);
      if k == |bs| then FirstFit(fl, s) == |fl|
      else FirstFit(fl, s) == |Select(bs[..k], false)| < |fl| && fl[FirstFit(fl, s)] == bs[k]
  {
    var k := FirstFit(bs, s);
    if bs != [] && !bs[0].Fits(s) {
      FirstFitInList(bs[1..], s);
      if k < |bs| {
        assert bs[..k][1..] == bs[1..][..k - 1];
      }
    }
  }

  /** A walk of the free list that stops at the first large enough node, or at the end, finds what FirstFit finds. */
  lemma WalkFindsFirstFit(bs: seq<Block>, s: int, i: nat)
    requires var fl := Select(bs, false);
      i <= |fl| && (forall j :: 0 <= j < i ==> fl[j].size < s) && (i < |fl| ==> s <= fl[i].size)
    ensures var fl, k := Select(bs, false), FirstFit(bs, s);
      if i == |fl| then k == |bs| else k < |bs| && fl[i] == bs[k] && i == |Select(bs[..k], false)|
  {
    SelectLive(bs, false);
    FirstFitInList(bs, s);
    var f := FirstFit(Select(bs, false), s);
    assert f == i;
  }

  lemma AllocAtInList(bs: seq<Block>, k: nat, s: int)
    requires k < |bs| && bs[k].Fits(s)
    ensures var fl, i := Select(bs, false), |Select(bs[..k], false)|;
      i < |fl| && fl[i] == bs[k] && Select(AllocAt(bs, k, s), false) == Rest(fl, i, s)
    ensures Select(AllocAt(bs, k, s), true) == Select(bs[..k], true) + [Carve(bs[k], s)[0]] + Select(bs[k + 1..], true)
    ensures Select(bs, true) == Select(bs[..k], true) + Select(bs[k + 1..], true)
  {
    var m := Carve(bs[k], s);
    SelectAt(bs, k, false);
    SelectAt(bs, k, true);
    SelectSplice(bs[..k], m, bs[k + 1..], false);
    SelectSplice(bs[..k], m, bs[k + 1..], true);
    CarveSelect(bs[k], s);
    RestOfMiddle(Select(bs[..k], false), bs[k], Select(bs[k + 1..], false), s);
  }

  lemma RestOfMiddle(a: seq<Block>, b: Block, c: seq<Block>, s: int)
    ensures Rest(a + [b] + c, |a|, s) == a + Carve(b, s)[1..] + c
  {
    var fl := a + [b] + c;
    assert fl[..|a|] == a && fl[|a| + 1..] == c;
    CutRest(fl, |a|, s);
  }

  lemma CarveSelect(b: Block, s: int)
    requires !b.live
    ensures var m := Carve(b, s); Select(m, false) == m[1..] && Select(m, true) == [m[0]]
  {
    var m := Carve(b, s);
    if |m| == 2 {
      assert m == [m[0]] + [m[1]];
      assert Select([m[1]], false) == [m[1]] && Select([m[1]], true) == [];
    }
  }

  ghost function Processed(hs: seq<Header>, i: nat, size: int, a: int, split: bool): seq<Header>
    requires if split then i + 1 < |hs| else i < |hs|
  {
    if split then Handover(hs[i := hs[i].(size := size)], i, a + HEADER_SIZE + size, hs[i].size - size - HEADER_SIZE)
    else Bypass(hs, i)
  }

  ghost function Detached(hs: seq<Header>, i: nat, a: int): seq<Header>
    requires i < |hs|
  {
    hs[i := Header(NULL, NULL, hs[i].size, a + HEADER_SIZE)]
  }

  /** cut has the nodes of fl at the same addresses, with n - 1 more after the i-th. */
  ghost predicate OpenedAddrs(cut: seq<Block>, fl: seq<Block>, i: nat, n: nat)
    requires i < |fl| && 0 < n
  {
    && |cut| == |fl| + n - 1
    && (forall j :: 0 <= j <= i ==> cut[j].addr == fl[j].addr)
    && (forall j :: i + n <= j < |cut| ==> cut[j].addr == fl[j - n + 1].addr)
  }

  /** The list with node i cut in two as Carve cuts it. */
  function Cut(fl: seq<Block>, i: nat, size: int): seq<Block>
    requires i < |fl|
  {
    fl[..i] + Carve(fl[i], size) + fl[i + 1..]
  }

  /** Node j of fl once node i was cut. */
  lemma CutIndex(fl: seq<Block>, i: nat, size: int, j: nat)
    requires i < |fl| && j < |fl| && j != i
    ensures var j' := if j < i then j else j + |Carve(fl[i], size)| - 1;
      j' < |Cut(fl, i, size)| && Cut(fl, i, size)[j'] == fl[j]
  {}

  lemma CutHeaderWord(fl: seq<Block>, i: nat, size: int, w: int)
    requires i < |fl| && InHeader(Cut(fl, i, size), w)
    ensures InHeader(fl, w)
      || var newNode := fl[i].addr + HEADER_SIZE + size;
         fl[i].size >= size + HEADER_SIZE && newNode <= 8 * w < newNode + HEADER_SIZE
  {
    var cut, n := Cut(fl, i, size), |Carve(fl[i], size)|;
    var j :| 0 <= j < |cut| && cut[j].addr <= 8 * w < cut[j].Payload();
    if j <= i {
      assert cut[j].addr == fl[j].addr;
    } else if n <= j - i {
      assert cut[j] == fl[j - n + 1];
    }
  }

  /** A header word of the list with node i cut is one of the list, or of what is left of it. */
  lemma CutHeaders(fl: seq<Block>, i: nat, size: int)
    requires i < |fl|
    ensures forall w :: InHeader(Cut(fl, i, size), w) ==> InHeader(fl, w) || InHeader(Rest(fl, i, size), w)
  {
    forall w | InHeader(Cut(fl, i, size), w) && !InHeader(fl, w) ensures InHeader(Rest(fl, i, size), w) {
      CutHeaderWord(fl, i, size, w);
      assert Rest(fl, i, size)[i] == Carve(fl[i], size)[1];
    }
  }

  lemma CutNode(fl: seq<Block>, i: nat, size: int) returns (cut: seq<Block>)
    requires Apart(fl) && i < |fl| && 0 <= size && size % 8 == 0
    ensures cut == Cut(fl, i, size)
    ensures Apart(cut) && forall w :: InSome(cut, w) ==> InSome(fl, w)
    ensures var m := Carve(fl[i], size);
      && OpenedAddrs(cut, fl, i, |m|) && cut[i] == m[0]
      && (|m| == 2 ==> cut[i + 1] == m[1]) && Removed(cut, i) == Rest(fl, i, size) && Apart(Removed(cut, i))
  {
    var m := Carve(fl[i], size);
    cut := Cut(fl, i, size);
    assert InArena(fl[i]);
    ApartSplice(fl, i, i + 1, m);
    ApartSplice(fl, i, i + 1, m[1..]);
    CutRest(fl, i, size);
    forall w | InSome(cut, w) ensures InSome(fl, w) {
      assert InSome(m, w) ==> InSpan(fl[i], w);
      InSomeSplice(fl, i, i + 1, m, w);
    }
  }

  lemma CutRest(fl: seq<Block>, i: nat, size: int)
    requires i < |fl|
    ensures var m := Carve(fl[i], size);
      Removed(Cut(fl, i, size), i) == fl[..i] + m[1..] + fl[i + 1..] == Rest(fl, i, size)
  {
    var m, r := Carve(fl[i], size), Rest(fl, i, size);
    var cut, rest := Cut(fl, i, size), fl[..i] + m[1..] + fl[i + 1..];
    forall j | 0 <= j < |rest| ensures Removed(cut, i)[j] == rest[j] == r[j] {
      if j < i {
        assert cut[j] == fl[j] == rest[j];
      } else if |m| == 2 && j == i {
        assert cut[j + 1] == m[1] == rest[j];
      } else {
        assert cut[j + 1] == fl[j + 2 - |m|] == rest[j];
      }
    }
  }

  /** The neighbours of header i linked to each other. */
  ghost function Bypass(hs: seq<Header>, i: nat): seq<Header>
    requires i < |hs|
  {
    var hs1 := if 0 < i then hs[i - 1 := hs[i - 1].(right := hs[i].right)] else hs;
    if i + 1 < |hs| then hs1[i + 1 := hs1[i + 1].(left := hs[i].left)] else hs1
  }

  /** Header i + 1, of the node at address a, takes over the links of header i. */
  ghost function Handover(hs: seq<Header>, i: nat, a: int, size: int): seq<Header>
    requires i + 1 < |hs|
  {
    var hs1 := hs[i + 1 := Header(hs[i].left, hs[i].right, size, a + HEADER_SIZE)];
    var hs2 := if 0 < i then hs1[i - 1 := hs1[i - 1].(right := a)] else hs1;
    if i + 2 < |hs| then hs2[i + 2 := hs2[i + 2].(left := a)] else hs2
  }

  lemma BypassLinks(fl: seq<Block>, i: nat)
    requires i < |fl|
    ensures Removed(Bypass(Links(fl), i), i) == Links(Removed(fl, i))
  {}

  /** hs is ls with n - 1 more headers after the i-th. */
  ghost predicate Opened(hs: seq<Header>, ls: seq<Header>, i: nat, n: nat)
    requires i < |ls| && 0 < n
  {
    && |hs| == |ls| + n - 1
    && (forall j :: 0 <= j <= i ==> hs[j] == ls[j])
    && (forall j :: i + n <= j < |hs| ==> hs[j] == ls[j - n + 1])
  }

  /** With the front of node i given out and the rest handed its links, the list is linked up again. */
  lemma HandoverLinks(fl: seq<Block>, i: nat, rest: Block, size: int, hs: seq<Header>)
    requires i < |fl| && Opened(hs, Links(fl), i, 2)
    ensures Removed(Handover(hs[i := hs[i].(size := size)], i, rest.addr, rest.size), i) == Links(fl[i := rest])
  {
    var hs' := Handover(hs[i := hs[i].(size := size)], i, rest.addr, rest.size);
    forall j | 0 <= j < |fl| ensures Removed(hs', i)[j] == Links(fl[i := rest])[j] {
      if j < i {
        assert hs[j] == Links(fl)[j];
        assert Removed(hs', i)[j] == hs'[j];
      } else {
        assert j > i ==> hs[j + 1] == Links(fl)[j];
        assert Removed(hs', i)[j] == hs'[j + 1];
      }
    }
  }

  /** With node i taken whole its neighbours are linked to each other. */
  lemma BypassedLinks(fl: seq<Block>, i: nat, hs: seq<Header>)
    requires i < |fl| && Opened(hs, Links(fl), i, 1)
    ensures Removed(Bypass(hs, i), i) == Links(Removed(fl, i))
  {
    assert hs == Links(fl);
    BypassLinks(fl, i);
  }

  lemma DetachedRest(hs: seq<Header>, i: nat, a: int)
    requires i < |hs|
    ensures Removed(Detached(hs, i, a), i) == Removed(hs, i)
  {}

  lemma ProcessedSize(hs: seq<Header>, i: nat, size: int, a: int, split: bool)
    requires if split then i + 1 < |hs| else i < |hs|
    ensures |Processed(hs, i, size, a, split)| == |hs|
    ensures Processed(hs, i, size, a, split)[i].size == if split then size else hs[i].size
  {}

  /** What giving out node i does to the headers is what Carve does to the list. */
  lemma ProcessedLinks(fl: seq<Block>, i: nat, size: int, cut: seq<Block>, hs: seq<Header>)
    requires i < |fl| && fl[i].Fits(size) && Opened(hs, Links(fl), i, |Carve(fl[i], size)|)
    requires |cut| == |hs| && Removed(cut, i) == Rest(fl, i, size)
    ensures Removed(Processed(hs, i, size, fl[i].addr, |Carve(fl[i], size)| == 2), i) == Links(Removed(cut, i))
  {
    var m := Carve(fl[i], size);
    if |m| == 2 {
      assert hs[i].size == Links(fl)[i].size == fl[i].size;
      assert m[1].addr == fl[i].addr + HEADER_SIZE + size && m[1].size == hs[i].size - size - HEADER_SIZE;
      var p := Handover(hs[i := hs[i].(size := size)], i, m[1].addr, m[1].size);
      assert p == Processed(hs, i, size, fl[i].addr, true);
      HandoverLinks(fl, i, m[1], size, hs);
    } else {
      BypassedLinks(fl, i, hs);
    }
  }

  lemma RemovedAddr(fl: seq<Block>, i: nat)
    requires i < |fl|
    ensures Addr(Removed(fl, i), 0) == Addr(fl, if i == 0 then 1 else 0)
  {}

  ghost function Removed<T>(s: seq<T>, i: nat): seq<T>
    requires i < |s|
  {
    seq(|s| - 1, j requires 0 <= j < |s| - 1 => if j < i then s[j] else s[j + 1])
  }

  /** The list once `size` bytes of node i have been given out. */
  ghost function Rest(fl: seq<Block>, i: nat, size: int): seq<Block>
    requires i < |fl|
  {
    var m := Carve(fl[i], size);
    if |m| == 2 then fl[i := m[1]] else Removed(fl, i)
  }

  // ---------- Inserting and merging ----------

  /** Header i linked between its neighbours, which are at the addresses of fl. */
  ghost function Inserted(hs: seq<Header>, fl: seq<Block>, i: nat): seq<Header>
    requires i < |fl| == |hs|
  {
    var hs1 := hs[i := hs[i].(left := Addr(fl, i - 1), right := Addr(fl, i + 1))];
    var hs2 := if 0 < i then hs1[i - 1 := hs1[i - 1].(right := fl[i].addr)] else hs1;
    if i + 1 < |hs| then hs2[i + 1 := hs2[i + 1].(left := fl[i].addr)] else hs2
  }

  lemma InsertedLinks(fl: seq<Block>, i: nat, hs: seq<Header>)
    requires i < |fl| == |hs| && Removed(hs, i) == Links(Removed(fl, i))
    requires hs[i].size == fl[i].size && hs[i].buffer == fl[i].Payload()
    ensures Inserted(hs, fl, i) == Links(fl)
  {
    forall j | 0 <= j < |fl| ensures Inserted(hs, fl, i)[j] == Links(fl)[j] {
      if j < i {
        assert hs[j] == Removed(hs, i)[j] == Links(Removed(fl, i))[j];
      } else if j > i {
        assert hs[j] == Removed(hs, i)[j - 1] == Links(Removed(fl, i))[j - 1];
      }
    }
  }

  /** Header i, of the node at address a, with the size and the right link of a merged node. */
  ghost function Absorbed(hs: seq<Header>, i: nat, a: int): seq<Header>
    requires i + 1 < |hs|
  {
    var hs1 := hs[i := hs[i].(size := hs[i].size + hs[i + 1].size + HEADER_SIZE, right := hs[i + 1].right)];
    if i + 2 < |hs| then hs1[i + 2 := hs1[i + 2].(left := a)] else hs1
  }

  ghost predicate Adjacent(fl: seq<Block>, i: int) {
    0 <= i < |fl| - 1 && fl[i].End() == fl[i + 1].addr
  }

  lemma AbsorbedLinks(fl: seq<Block>, i: nat)
    requires Adjacent(fl, i)
    ensures Removed(Absorbed(Links(fl), i, fl[i].addr), i + 1) == Links(MergeAt(fl, i))
  {
    var hs, merged := Absorbed(Links(fl), i, fl[i].addr), MergeAt(fl, i);
    assert forall j :: 0 <= j < |merged| ==> merged[j].addr == fl[if j <= i then j else j + 1].addr;
    forall j | 0 <= j < |merged| ensures Removed(hs, i + 1)[j] == Links(merged)[j] {
      if j <= i {
        assert Removed(hs, i + 1)[j] == hs[j];
        assert Addr(merged, j - 1) == Addr(fl, j - 1);
      } else {
        assert Removed(hs, i + 1)[j] == hs[j + 1];
        assert Addr(merged, j + 1) == Addr(fl, j + 2);
      }
    }
  }

  lemma MergeNodes(fl: seq<Block>, i: nat) returns (merged: seq<Block>)
    requires Apart(fl) && Adjacent(fl, i)
    ensures merged == MergeAt(fl, i)
    ensures Apart(merged) && forall w :: InHeader(merged, w) ==> InHeader(fl, w)
    ensures Links(merged) == Removed(Absorbed(Links(fl), i, fl[i].addr), i + 1)
    ensures |merged| == |fl| - 1 && Addr(merged, 0) == Addr(fl, 0)
    ensures forall j :: 0 <= j < |merged| ==> merged[j].addr == fl[if j <= i then j else j + 1].addr
  {
    var m := [Join(fl[i], fl[i + 1])];
    merged := MergeAt(fl, i);
    assert InArena(fl[i]) && InArena(fl[i + 1]);
    ApartSplice(fl, i, i + 2, m);
    AbsorbedLinks(fl, i);
    forall w | InHeader(merged, w) ensures InHeader(fl, w) {
      var j :| 0 <= j < |merged| && merged[j].addr <= 8 * w < merged[j].Payload();
      assert merged[j].addr == fl[if j <= i then j else j + 1].addr;
    }
  }

  function MergeAt(fl: seq<Block>, i: nat): seq<Block>
    requires i + 1 < |fl|
  {
    fl[..i] + [Join(fl[i], fl[i + 1])] + fl[i + 2..]
  }

  /** Node i merged with its left and then its right neighbour, where they touch. */
  ghost function Coalesce(fl: seq<Block>, i: nat): seq<Block>
    requires i < |fl|
  {
    if Adjacent(fl, i - 1) then
      var fl1 := MergeAt(fl, i - 1);
      if Adjacent(fl1, i - 1) then MergeAt(fl1, i - 1) else fl1
    else if Adjacent(fl, i) then MergeAt(fl, i) else fl
  }

  lemma {:induction false} SelectBounds(bs: seq<Block>, lo: int, hi: int, live: bool)
    requires Tiles(bs, lo, hi)
    ensures forall i :: 0 <= i < |Select(bs, live)| ==>
      lo <= Select(bs, live)[i].addr && Select(bs, live)[i].End() <= hi
  {
    if bs != [] {
      Inside(bs, lo, hi, 0);
      SelectBounds(bs[1..], bs[0].End(), hi, live);
    }
  }

  /** The free blocks left of block k end at it only when its left neighbour is free. */
  lemma FreeLeft(bs: seq<Block>, k: nat)
    requires WellFormed(bs) && k < |bs|
    ensures var a, lo := Select(bs[..k], false), MergeLo(bs, k);
      if lo < k then a == Select(bs[..lo], false) + [bs[lo]] && bs[lo].End() == bs[k].addr
      else forall i :: 0 <= i < |a| ==> a[i].End() < bs[k].addr
  {
    if 0 < k {
      assert bs[..k] == bs[..k - 1] + [bs[k - 1]];
      SelectConcat(bs[..k - 1], [bs[k - 1]], false);
      assert bs[k - 1].End() == bs[k].addr;
      TilesCut(bs, 0, MAX_MALLOC_SIZE, k - 1, k);
      SelectBounds(bs[..k - 1], 0, bs[k - 1].addr, false);
    }
  }

  lemma FreeRight(bs: seq<Block>, k: nat)
    requires WellFormed(bs) && k < |bs|
    ensures var c, hi := Select(bs[k + 1..], false), MergeHi(bs, k);
      if k + 1 < hi then c == [bs[k + 1]] + Select(bs[hi..], false) && bs[k].End() == bs[k + 1].addr
      else forall i :: 0 <= i < |c| ==> bs[k].End() < c[i].addr
  {
    if k + 1 < |bs| {
      assert bs[k + 1..] == [bs[k + 1]] + bs[k + 2..];
      SelectConcat([bs[k + 1]], bs[k + 2..], false);
      assert bs[k].End() == bs[k + 1].addr;
      TilesCut(bs, 0, MAX_MALLOC_SIZE, k + 1, k + 2);
      SelectBounds(bs[k + 2..], bs[k + 1].End(), MAX_MALLOC_SIZE, false);
    }
  }

  /** Putting block k on the list and coalescing it gives the list of FreeAt. */
  lemma CoalesceIsFreeAt(bs: seq<Block>, k: nat)
    requires WellFormed(bs) && k < |bs| && bs[k].live
    ensures var a, c := Select(bs[..k], false), Select(bs[k + 1..], false);
      Coalesce(a + [bs[k].(live := false)] + c, |a|) == Select(FreeAt(bs, k), false)
  {
    var a, c := Select(bs[..k], false), Select(bs[k + 1..], false);
    var b := bs[k].(live := false);
    var lo, hi := MergeLo(bs, k), MergeHi(bs, k);
    FreeLeft(bs, k);
    FreeRight(bs, k);
    var m := [Join(bs[lo], bs[hi - 1])];
    SelectSplice(bs[..lo], m, bs[hi..], false);
    assert Select(m, false) == m;
    CoalesceMiddle(a, b, c, Select(bs[..lo], false), bs[lo], bs[hi - 1], Select(bs[hi..], false), lo < k, k + 1 < hi);
  }

  /** Coalescing b between a and c, by whether it touches the last of a and the first of c. */
  lemma CoalesceMiddle(a: seq<Block>, b: Block, c: seq<Block>, a': seq<Block>, l: Block, r: Block, c': seq<Block>,
                       left: bool, right: bool)
    requires !b.live
    requires if left then a == a' + [l] && l.End() == b.addr
             else a == a' && l.addr == b.addr && forall i :: 0 <= i < |a| ==> a[i].End() < b.addr
    requires if right then c == [r] + c' && b.End() == r.addr
             else c == c' && r.End() == b.End() && forall i :: 0 <= i < |c| ==> b.End() < c[i].addr
    ensures Coalesce(a + [b] + c, |a|) == a' + [Join(l, r)] + c'
  {
    if left {
      CoalesceBoth(a', l, b, c);
    } else {
      CoalesceRight(a, b, c);
      assert !right ==> Join(l, r) == b;
    }
  }

  lemma MergeMiddle(a: seq<Block>, x: Block, y: Block, c: seq<Block>)
    ensures MergeAt(a + [x] + ([y] + c), |a|) == a + [Join(x, y)] + c
    ensures Adjacent(a + [x] + ([y] + c), |a|) <==> x.End() == y.addr
  {
    var fl := a + [x] + ([y] + c);
    assert fl[|a|] == x && fl[|a| + 1] == y && fl[..|a|] == a && fl[|a| + 2..] == c;
  }

  /** A node that does not touch its left neighbour. */
  lemma CoalesceRight(a: seq<Block>, b: Block, c: seq<Block>)
    requires forall i :: 0 <= i < |a| ==> a[i].End() < b.addr
    ensures Coalesce(a + [b] + c, |a|)
      == if c != [] && b.End() == c[0].addr then a + [Join(b, c[0])] + c[1..] else a + [b] + c
  {
    var fl := a + [b] + c;
    assert |a| > 0 ==> fl[|a| - 1] == a[|a| - 1];
    if c != [] {
      assert c == [c[0]] + c[1..];
      MergeMiddle(a, b, c[0], c[1..]);
    }
  }

  /** A node that touches its left neighbour l. */
  lemma CoalesceBoth(a: seq<Block>, l: Block, b: Block, c: seq<Block>)
    requires l.End() == b.addr
    ensures Coalesce(a + [l] + [b] + c, |a| + 1)
      == if c != [] && b.End() == c[0].addr then a + [Join(l, c[0])] + c[1..] else a + [Join(l, b)] + c
  {
    assert a + [l] + [b] + c == a + [l] + ([b] + c);
    MergeMiddle(a, l, b, c);
    if c != [] {
      assert c == [c[0]] + c[1..];
      MergeMiddle(a, Join(l, b), c[0], c[1..]);
    }
  }

  /** Block k marked free but not yet merged. */
  ghost function Marked(bs: seq<Block>, k: nat): seq<Block>
    requires k < |bs|
  {
    bs[k := bs[k].(live := false)]
  }

  lemma MarkedHeaders(bs: seq<Block>, k: nat)
    requires k < |bs|
    ensures forall w :: InHeader(Select(Marked(bs, k), false), w) ==> InHeader(bs, w)
  {
    var marked := Marked(bs, k);
    forall w | InHeader(Select(marked, false), w) ensures InHeader(bs, w) {
      HeaderOfSome(marked, false, w);
      var i :| 0 <= i < |bs| && marked[i].addr <= 8 * w < marked[i].Payload();
      assert bs[i].addr == marked[i].addr;
    }
  }

  lemma MarkedTiles(bs: seq<Block>, k: nat)
    requires WellFormed(bs) && k < |bs|
    ensures Tiles(Marked(bs, k), 0, MAX_MALLOC_SIZE)
    ensures Apart(Select(Marked(bs, k), false)) && Apart(Select(Marked(bs, k), true))
  {
    var marked := Marked(bs, k);
    assert forall i {:trigger marked[i].Aligned()} :: 0 <= i < |marked| ==> marked[i].Aligned() == bs[i].Aligned();
    SelectApart(marked, 0, MAX_MALLOC_SIZE, false);
    SelectApart(marked, 0, MAX_MALLOC_SIZE, true);
  }

  lemma SelectMarked(bs: seq<Block>, k: nat)
    requires k < |bs| && bs[k].live
    ensures Select(Marked(bs, k), false)
      == Select(bs[..k], false) + [bs[k].(live := false)] + Select(bs[k + 1..], false)
    ensures Select(Marked(bs, k), true) == Select(bs[..k], true) + Select(bs[k + 1..], true)
  {
    var marked := Marked(bs, k);
    SelectAt(marked, k, false);
    SelectAt(marked, k, true);
    assert marked[..k] == bs[..k] && marked[k + 1..] == bs[k + 1..];
  }
}

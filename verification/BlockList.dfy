/**
 The allocator's arena seen as an address-ordered list of blocks, each a header of
 HEADER_SIZE bytes followed by its payload, and each either live or free.

 This is the meaning that the in-band linked list of module Arena is proved to represent.
 Addresses are byte offsets into the arena.
 */
module BlockList {

  // sizeof(ListNode_t) on LP64: two pointers, a padded int and a pointer
  const HEADER_SIZE := 32
  const MAX_MALLOC_SIZE := 1024 * 16
  const NULL := -1

  datatype Block = Block(addr: int, size: int, live: bool) {
    function End(): int { addr + HEADER_SIZE + size }

    function Payload(): int { addr + HEADER_SIZE }

    predicate Aligned() { addr % 8 == 0 && size % 8 == 0 }

    predicate Fits(s: int) { !live && s <= size }
  }

  // ---------- Tiling ----------

  /** The blocks partition [lo, hi): each starts where the one before it ends. */
  ghost predicate Tiles(bs: seq<Block>, lo: int, hi: int) {
    && (if bs == [] then lo == hi else bs[0].addr == lo && bs[|bs| - 1].End() == hi)
    && (forall i :: 0 <= i < |bs| ==> 0 <= bs[i].size)
    && (forall i, j :: 0 <= i && j == i + 1 && j < |bs| ==> bs[i].End() == bs[j].addr)
  }

  /** No two neighbours are both free. */
  ghost predicate Coalesced(bs: seq<Block>) {
    forall i, j :: 0 <= i && j == i + 1 && j < |bs| ==> bs[i].live || bs[j].live
  }

  ghost predicate AllAligned(bs: seq<Block>) {
    forall i {:trigger bs[i].Aligned()} :: 0 <= i < |bs| ==> bs[i].Aligned()
  }

  ghost predicate WellFormed(bs: seq<Block>) {
    Tiles(bs, 0, MAX_MALLOC_SIZE) && Coalesced(bs) && AllAligned(bs)
  }

  /** Blocks further right in the list lie wholly to the right in the arena. */
  lemma {:induction false} Ordered(bs: seq<Block>, lo: int, hi: int, i: nat, j: nat)
    requires Tiles(bs, lo, hi) && i < j < |bs|
    ensures bs[i].End() <= bs[j].addr
    decreases j - i
  {
    if i + 1 < j {
      Ordered(bs, lo, hi, i + 1, j);
      assert bs[i].End() == bs[i + 1].addr;
    }
  }

  lemma Inside(bs: seq<Block>, lo: int, hi: int, i: nat)
    requires Tiles(bs, lo, hi) && i < |bs|
    ensures lo <= bs[i].addr && bs[i].End() <= hi
  {
    if 0 < i {
      Ordered(bs, lo, hi, 0, i);
    }
    if i + 1 < |bs| {
      Ordered(bs, lo, hi, i, |bs| - 1);
    }
  }

  /** Total bytes of the blocks, headers included. */
  function TotalSpan(bs: seq<Block>): int {
    if bs == [] then 0 else HEADER_SIZE + bs[0].size + TotalSpan(bs[1..])
  }

  /** Headers and payloads, live and free, account for every byte of the region. */
  lemma {:induction false} Conservation(bs: seq<Block>, lo: int, hi: int)
    requires Tiles(bs, lo, hi)
    ensures TotalSpan(bs) == hi - lo
    ensures TotalSpan(Select(bs, true)) + TotalSpan(Select(bs, false)) == hi - lo
  {
    if bs != [] {
      Conservation(bs[1..], bs[0].End(), hi);
      TotalSpanCons(bs[0], Select(bs[1..], bs[0].live));
      assert Select(bs, !bs[0].live) == Select(bs[1..], !bs[0].live);
    }
  }

  lemma TotalSpanCons(b: Block, bs: seq<Block>)
    ensures TotalSpan([b] + bs) == HEADER_SIZE + b.size + TotalSpan(bs)
  {
    assert ([b] + bs)[1..] == bs;
  }

  // ---------- Selecting the live or the free blocks ----------

  function Select(bs: seq<Block>, live: bool): seq<Block> {
    if bs == [] then [] else if bs[0].live == live then [bs[0]] + Select(bs[1..], live) else Select(bs[1..], live)
  }

  lemma {:induction false} SelectConcat(a: seq<Block>, b: seq<Block>, live: bool)
    ensures Select(a + b, live) == Select(a, live) + Select(b, live)
  {
    if a == [] {
      assert a + b == b;
    } else {
      SelectConcat(a[1..], b, live);
      assert (a + b)[1..] == a[1..] + b && (a + b)[0] == a[0];
      assert ([a[0]] + Select(a[1..], live)) + Select(b, live) == [a[0]] + (Select(a[1..], live) + Select(b, live));
    }
  }

  /** Replacing the middle of a list replaces the middle of its selection. */
  lemma SelectSplice(a: seq<Block>, m: seq<Block>, c: seq<Block>, live: bool)
    ensures Select(a + m + c, live) == Select(a, live) + Select(m, live) + Select(c, live)
  {
    SelectConcat(a + m, c, live);
    SelectConcat(a, m, live);
  }

  lemma {:induction false} SelectLive(bs: seq<Block>, live: bool)
    ensures forall i :: 0 <= i < |Select(bs, live)| ==> Select(bs, live)[i].live == live
  {
    if bs != [] {
      SelectLive(bs[1..], live);
    }
  }

  lemma SelectAt(bs: seq<Block>, k: nat, live: bool)
    requires k < |bs|
    ensures Select(bs, live)
      == Select(bs[..k], live) + (if bs[k].live == live then [bs[k]] else []) + Select(bs[k + 1..], live)
  {
    assert bs == bs[..k] + [bs[k]] + bs[k + 1..];
    SelectSplice(bs[..k], [bs[k]], bs[k + 1..], live);
  }

  // ---------- Malloc and free ----------

  const INIT: seq<Block> := [Block(0, MAX_MALLOC_SIZE - HEADER_SIZE, false)]

  function Align8(n: int): int { (n + 7) / 8 * 8 }

  lemma Align8IsLeastMultiple(n: nat, m: int)
    ensures Align8(n) % 8 == 0 && n <= Align8(n)
    ensures n <= m && m % 8 == 0 ==> Align8(n) <= m
  {}

  /** Index of the first free block of at least s bytes; |bs| when there is none. */
  function FirstFit(bs: seq<Block>, s: int): (k: nat)
    ensures k <= |bs|
    ensures k < |bs| ==> bs[k].Fits(s)
    ensures forall i :: 0 <= i < k ==> !bs[i].Fits(s)
  {
    if bs == [] || bs[0].Fits(s) then 0 else 1 + FirstFit(bs[1..], s)
  }

  /** Take s bytes from the front of a free block, or all of it when no header fits in the rest. */
  function Carve(b: Block, s: int): seq<Block> {
    if b.size - s - HEADER_SIZE < 0 then [b.(live := true)]
    else [Block(b.addr, s, true), Block(b.addr + HEADER_SIZE + s, b.size - s - HEADER_SIZE, false)]
  }

  function AllocAt(bs: seq<Block>, k: nat, s: int): seq<Block>
    requires k < |bs|
  {
    bs[..k] + Carve(bs[k], s) + bs[k + 1..]
  }

  /** The free block that covers two blocks and everything between them. */
  function Join(first: Block, last: Block): Block {
    Block(first.addr, last.End() - first.addr - HEADER_SIZE, false)
  }

  /** Free block k together with whichever of its neighbours are free. */
  function FreeAt(bs: seq<Block>, k: nat): seq<Block>
    requires k < |bs|
  {
    var lo, hi := MergeLo(bs, k), MergeHi(bs, k);
    bs[..lo] + [Join(bs[lo], bs[hi - 1])] + bs[hi..]
  }

  function MergeLo(bs: seq<Block>, k: nat): (lo: nat)
    requires k < |bs|
    ensures lo <= k
  {
    if 0 < k && !bs[k - 1].live then k - 1 else k
  }

  function MergeHi(bs: seq<Block>, k: nat): (hi: nat)
    requires k < |bs|
    ensures k < hi <= |bs|
  {
    if k + 1 < |bs| && !bs[k + 1].live then k + 2 else k + 1
  }

  datatype Allocation = Allocation(blocks: seq<Block>, pointer: int)

  function Malloc(bs: seq<Block>, n: int): Allocation {
    var s := Align8(n);
    var k := FirstFit(bs, s);
    if k == |bs| then Allocation(bs, NULL) else Allocation(AllocAt(bs, k, s), bs[k].Payload())
  }

  /** Index of the live block whose payload starts at p; |bs| when there is none. */
  function LiveIndex(bs: seq<Block>, p: int): (k: nat)
    ensures k <= |bs|
    ensures k < |bs| ==> bs[k].live && bs[k].Payload() == p
    ensures forall i :: 0 <= i < k ==> !(bs[i].live && bs[i].Payload() == p)
  {
    if bs == [] || (bs[0].live && bs[0].Payload() == p) then 0 else 1 + LiveIndex(bs[1..], p)
  }

  predicate IsLive(bs: seq<Block>, p: int) { LiveIndex(bs, p) < |bs| }

  function Free(bs: seq<Block>, p: int): seq<Block>
    requires p == NULL || IsLive(bs, p)
  {
    if p == NULL then bs else FreeAt(bs, LiveIndex(bs, p))
  }

  lemma InitWellFormed()
    ensures WellFormed(INIT) && Select(INIT, true) == [] && Select(INIT, false) == INIT
  {}

  /** Splicing a well-formed middle between two well-formed ends. */
  lemma TilesSplice(a: seq<Block>, m: seq<Block>, c: seq<Block>, lo: int, x: int, y: int, hi: int)
    requires Tiles(a, lo, x) && Tiles(m, x, y) && Tiles(c, y, hi)
    ensures Tiles(a + m + c, lo, hi)
  {
    TilesConcat(a, m, lo, x, y);
    TilesConcat(a + m, c, lo, y, hi);
  }

  lemma TilesConcat(a: seq<Block>, b: seq<Block>, lo: int, x: int, hi: int)
    requires Tiles(a, lo, x) && Tiles(b, x, hi)
    ensures Tiles(a + b, lo, hi)
  {
    var bs := a + b;
    forall i, j | 0 <= i && j == i + 1 && j < |bs| ensures bs[i].End() == bs[j].addr {
      if i < |a| - 1 {
        assert bs[i] == a[i] && bs[j] == a[j];
      } else if i >= |a| {
        assert bs[i] == b[i - |a|] && bs[j] == b[j - |a|];
      }
    }
  }

  lemma TilesCut(bs: seq<Block>, lo: int, hi: int, i: nat, j: nat)
    requires Tiles(bs, lo, hi) && i < j <= |bs|
    ensures Tiles(bs[..i], lo, bs[i].addr) && Tiles(bs[j..], bs[j - 1].End(), hi)
  {
    if 0 < i {
      assert bs[i - 1].End() == bs[i].addr;
    }
    if j < |bs| {
      assert bs[j - 1].End() == bs[j].addr;
    }
  }

  /** A middle without adjacent free blocks, whose ends do not touch free blocks, keeps the list coalesced. */
  lemma CoalescedSplice(a: seq<Block>, m: seq<Block>, c: seq<Block>)
    requires Coalesced(a) && Coalesced(m) && Coalesced(c) && m != []
    requires a == [] || a[|a| - 1].live || m[0].live
    requires c == [] || c[0].live || m[|m| - 1].live
    ensures Coalesced(a + m + c)
  {
    var bs := a + m + c;
    forall i, j | 0 <= i && j == i + 1 && j < |bs| ensures bs[i].live || bs[j].live {
      if i < |a| - 1 {
        assert bs[i] == a[i] && bs[j] == a[j];
      } else if i == |a| - 1 {
        assert bs[j] == m[0];
      } else if i < |a| + |m| - 1 {
        assert bs[i] == m[i - |a|] && bs[j] == m[j - |a|];
      } else if i == |a| + |m| - 1 {
        assert bs[i] == m[|m| - 1] && bs[j] == c[0];
      } else {
        assert bs[i] == c[i - |a| - |m|] && bs[j] == c[j - |a| - |m|];
      }
    }
  }

  /** Replacing blocks i..j by m, which covers the same region, keeps the list well-formed. */
  lemma SpliceWellFormed(bs: seq<Block>, i: nat, j: nat, m: seq<Block>)
    requires WellFormed(bs) && i < j <= |bs| && m != []
    requires Tiles(m, bs[i].addr, bs[j - 1].End()) && Coalesced(m) && AllAligned(m)
    requires i == 0 || bs[i - 1].live || m[0].live
    requires j == |bs| || bs[j].live || m[|m| - 1].live
    ensures WellFormed(bs[..i] + m + bs[j..])
  {
    TilesCut(bs, 0, MAX_MALLOC_SIZE, i, j);
    TilesSplice(bs[..i], m, bs[j..], 0, bs[i].addr, bs[j - 1].End(), MAX_MALLOC_SIZE);
    CoalescedSplice(bs[..i], m, bs[j..]);
  }

  lemma CarveTiles(b: Block, s: int)
    requires b.Fits(s) && b.Aligned() && 0 <= s && s % 8 == 0
    ensures Tiles(Carve(b, s), b.addr, b.End()) && Coalesced(Carve(b, s)) && AllAligned(Carve(b, s))
    ensures Carve(b, s)[0].live
  {}

  lemma AllocAtWellFormed(bs: seq<Block>, k: nat, s: int)
    requires WellFormed(bs) && k < |bs| && bs[k].Fits(s) && 0 <= s && s % 8 == 0
    ensures WellFormed(AllocAt(bs, k, s))
  {
    assert bs[k].Aligned();
    CarveTiles(bs[k], s);
    assert k + 1 < |bs| ==> bs[k].live || bs[k + 1].live;
    SpliceWellFormed(bs, k, k + 1, Carve(bs[k], s));
  }

  lemma JoinTiles(bs: seq<Block>, lo: nat, hi: nat)
    requires WellFormed(bs) && lo < hi <= |bs|
    ensures var b := Join(bs[lo], bs[hi - 1]); 0 <= b.size && b.Aligned() && b.End() == bs[hi - 1].End()
  {
    if lo < hi - 1 {
      Ordered(bs, 0, MAX_MALLOC_SIZE, lo, hi - 1);
    }
    assert bs[lo].Aligned() && bs[hi - 1].Aligned();
  }

  lemma FreeAtWellFormed(bs: seq<Block>, k: nat)
    requires WellFormed(bs) && k < |bs| && bs[k].live
    ensures WellFormed(FreeAt(bs, k))
  {
    var lo, hi := MergeLo(bs, k), MergeHi(bs, k);
    assert 1 < k ==> bs[k - 2].live || bs[k - 1].live;
    assert k + 2 < |bs| ==> bs[k + 1].live || bs[k + 2].live;
    JoinTiles(bs, lo, hi);
    SpliceWellFormed(bs, lo, hi, [Join(bs[lo], bs[hi - 1])]);
  }

  lemma SelectLiveAfterFreeAt(bs: seq<Block>, k: nat)
    requires k < |bs|
    ensures Select(FreeAt(bs, k), true) == Select(bs[..k], true) + Select(bs[k + 1..], true)
  {
    var lo, hi := MergeLo(bs, k), MergeHi(bs, k);
    var m := [Join(bs[lo], bs[hi - 1])];
    SelectSplice(bs[..lo], m, bs[hi..], true);
    assert Select(m, true) == [];
    if lo < k {
      SelectConcat(bs[..lo], [bs[lo]], true);
      assert bs[..k] == bs[..lo] + [bs[lo]];
      assert Select([bs[lo]], true) == [];
    }
    if k + 1 < hi {
      assert bs[k + 1..][1..] == bs[hi..];
    }
  }
}

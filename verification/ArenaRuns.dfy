/**
 Whole runs of the repaired allocator together with the program that uses it: calls to MyMalloc
 and MyFree interleaved with stores into live payloads. The allocator never disturbs a payload.
 */
module ArenaRuns {
  import opened CInts
  import opened BlockList
  import opened FreeList
  import opened Memories
  import opened ArenaModule
  import opened AllocatorProperties

  /** Word w belongs to the payload of a live block. */
  ghost predicate InPayload(bs: seq<Block>, w: int) {
    exists i :: 0 <= i < |bs| && bs[i].live && bs[i].Payload() <= 8 * w < bs[i].End()
  }

  datatype Call = CallMalloc(n: int) | CallFree(p: int) | CallStore(w: int, v: int)

  /** The blocks, and what the program last stored in each live payload word it has written. */
  datatype Heap = Heap(blocks: seq<Block>, user: map<int, int>)

  ghost predicate Allowed(h: Heap, c: Call) {
    match c
    case CallMalloc(n) => 0 <= n <= INT_MAX - 7
    case CallFree(p) => p == NULL || IsLive(h.blocks, p)
    case CallStore(w, _) => InPayload(h.blocks, w)
  }

  /** A malloc and a store lose nothing; a free loses the words of the block it frees. */
  ghost function Do(h: Heap, c: Call): Heap
    requires Allowed(h, c)
  {
    match c
    case CallMalloc(n) => Heap(Malloc(h.blocks, n).blocks, h.user)
    case CallFree(p) =>
      var bs := Free(h.blocks, p);
      Heap(bs, map w | w in h.user && InPayload(bs, w) :: h.user[w])
    case CallStore(w, v) => Heap(h.blocks, h.user[w := v])
  }

  ghost predicate AllAllowed(h: Heap, cs: seq<Call>)
    decreases |cs|
  {
    cs == [] || (Allowed(h, cs[0]) && AllAllowed(Do(h, cs[0]), cs[1..]))
  }

  ghost function DoAll(h: Heap, cs: seq<Call>): Heap
    requires AllAllowed(h, cs)
    decreases |cs|
  {
    if cs == [] then h else DoAll(Do(h, cs[0]), cs[1..])
  }

  /** What each call returns: the intended pointer for a malloc, NULL for the others. */
  ghost function Results(h: Heap, cs: seq<Call>): seq<int>
    requires AllAllowed(h, cs)
    decreases |cs|
  {
    if cs == [] then []
    else [if cs[0].CallMalloc? then Malloc(h.blocks, cs[0].n).pointer else NULL] + Results(Do(h, cs[0]), cs[1..])
  }

  /** Memory agrees with h: the same blocks, and each word the program wrote still there. */
  ghost predicate Agrees(a: Arena, h: Heap)
    requires a.Shape()
    reads a, a.buffer
  {
    && a.blocks == h.blocks
    && forall w :: w in h.user ==> 0 <= w < WORDS && InPayload(h.blocks, w) && a.buffer[w] == h.user[w]
  }

  lemma InPayloadIsLive(bs: seq<Block>, w: int)
    requires WellFormed(bs) && InPayload(bs, w)
    ensures InSome(Select(bs, true), w) && 0 <= w < WORDS
  {
    var i :| 0 <= i < |bs| && bs[i].live && bs[i].Payload() <= 8 * w < bs[i].End();
    Inside(bs, 0, MAX_MALLOC_SIZE, i);
    SelectKeeps(bs, true, bs[i]);
    var x :| 0 <= x < |Select(bs, true)| && Select(bs, true)[x] == bs[i];
    assert InSpan(Select(bs, true)[x], w);
  }

  /** The live payloads before a malloc are live payloads after it. */
  lemma MallocKeepsPayloads(bs: seq<Block>, n: nat, w: int)
    requires WellFormed(bs) && InPayload(bs, w)
    ensures InPayload(Malloc(bs, n).blocks, w)
  {
    var k := FirstFit(bs, Align8(n));
    if k < |bs| {
      var bs' := AllocAt(bs, k, Align8(n));
      var i :| 0 <= i < |bs| && bs[i].live && bs[i].Payload() <= 8 * w < bs[i].End();
      assert bs'[if i < k then i else i + |bs'| - |bs|] == bs[i];
    }
  }

  /** A payload word is in no header. */
  lemma {:induction false} PayloadNotHeader(bs: seq<Block>, lo: int, hi: int, j: nat, w: int, live: bool)
    requires Tiles(bs, lo, hi) && j < |bs| && bs[j].Payload() <= 8 * w < bs[j].End()
    ensures !InHeader(Select(bs, live), w)
  {
    if j == 0 {
      SelectBounds(bs[1..], bs[0].End(), hi, live);
    } else {
      Ordered(bs, lo, hi, 0, j);
      PayloadNotHeader(bs[1..], bs[0].End(), hi, j - 1, w, live);
      var sel, rest := Select(bs, live), Select(bs[1..], live);
      forall x | 0 <= x < |sel| ensures !(sel[x].addr <= 8 * w < sel[x].Payload()) {
        if bs[0].live != live || x > 0 {
          assert sel[x] == rest[if bs[0].live == live then x - 1 else x];
        }
      }
    }
  }

  /** The program's own store. */
  method Store(a: Arena, w: int, v: int)
    requires a.Valid() && InPayload(a.blocks, w)
    modifies a.buffer
    ensures a.Valid()
    ensures 0 <= w < WORDS && a.buffer[..] == old(a.buffer[..])[w := v]
  {
    InPayloadIsLive(a.blocks, w);
    ghost var bs := a.blocks;
    ghost var j :| 0 <= j < |bs| && bs[j].live && bs[j].Payload() <= 8 * w < bs[j].End();
    PayloadNotHeader(bs, 0, MAX_MALLOC_SIZE, j, w, true);
    PayloadNotHeader(bs, 0, MAX_MALLOC_SIZE, j, w, false);
    a.buffer[w] := v;
    a.SameHeaders(Select(bs, true));
    a.SameHeaders(Select(bs, false));
  }

  /** Run the calls; every word the program stored in a payload that is still live reads back unchanged. */
  method Execute(a: Arena, cs: seq<Call>, ghost h: Heap) returns (ps: seq<int>)
    requires a.Valid() && Agrees(a, h) && AllAllowed(h, cs)
    modifies a, a.buffer
    ensures a.Valid() && Agrees(a, DoAll(h, cs)) && ps == Results(h, cs)
    decreases |cs|
  {
    ps := [];
    if cs != [] {
      var p := NULL;
      match cs[0] {
        case CallMalloc(n) =>
          p := a.MyMalloc(n);
          forall w | w in h.user ensures InPayload(a.blocks, w) && a.buffer[w] == h.user[w] {
            InPayloadIsLive(h.blocks, w);
            MallocKeepsPayloads(h.blocks, n, w);
          }
        case CallFree(q) =>
          a.MyFree(q);
          forall w | w in h.user && InPayload(a.blocks, w) ensures a.buffer[w] == h.user[w] {
            InPayloadIsLive(a.blocks, w);
          }
        case CallStore(w, v) =>
          Store(a, w, v);
      }
      ps := Execute(a, cs[1..], Do(h, cs[0]));
      ps := [p] + ps;
    }
  }
}

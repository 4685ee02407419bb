/**
 Memory as a value: the head of the free list and the words of the arena, with the headers that
 are threaded through them.
 */
module Memories {
  import opened BlockList
  import opened FreeList

  const WORDS := MAX_MALLOC_SIZE / 8

  // word offsets of the fields of a header
  const LEFT := 0
  const RIGHT := 1
  const SIZE := 2
  const BUFFER := 3

  datatype Memory = Memory(head: int, words: seq<int>)

  /** Field o of the header at address a. */
  function Word(words: seq<int>, a: int, o: nat): int {
    if 0 <= a && a / 8 + o < |words| then words[a / 8 + o] else NULL
  }

  function HeaderIn(words: seq<int>, a: int): Header {
    Header(Word(words, a, LEFT), Word(words, a, RIGHT), Word(words, a, SIZE), Word(words, a, BUFFER))
  }

  ghost function HeadersIn(words: seq<int>, fl: seq<Block>): seq<Header> {
    seq(|fl|, i requires 0 <= i < |fl| => HeaderIn(words, fl[i].addr))
  }

  function Field(h: Header, o: int): int {
    if o == LEFT then h.left else if o == RIGHT then h.right else if o == SIZE then h.size else h.buffer
  }

  /** The words with the headers of the blocks of fl replaced by hs. */
  ghost function Write(words: seq<int>, fl: seq<Block>, hs: seq<Header>): seq<int>
    requires |fl| == |hs|
  {
    seq(|words|, w requires 0 <= w < |words| => WriteWord(words[w], fl, hs, w))
  }

  ghost function WriteWord(word: int, fl: seq<Block>, hs: seq<Header>, w: int): int
    requires |fl| == |hs|
  {
    if InHeader(fl, w) then var i := HeaderIndex(fl, w); Field(hs[i], w - fl[i].addr / 8) else word
  }

  ghost function HeaderIndex(fl: seq<Block>, w: int): (i: nat)
    requires InHeader(fl, w)
    ensures i < |fl| && fl[i].addr <= 8 * w < fl[i].Payload()
  {
    var i :| 0 <= i < |fl| && fl[i].addr <= 8 * w < fl[i].Payload();
    i
  }

  lemma HeaderWord(words: seq<int>, a: int, w: int)
    requires |words| == WORDS && IsNode(a) && a <= 8 * w < a + HEADER_SIZE
    ensures 0 <= w < WORDS && words[w] == Field(HeaderIn(words, a), w - a / 8)
  {
    var o := w - a / 8;
    assert 8 * (a / 8) == a;
    assert o == LEFT || o == RIGHT || o == SIZE || o == BUFFER;
  }

  lemma WriteWordIs(before: int, after: seq<int>, fl: seq<Block>, w: int)
    requires |after| == WORDS && Apart(fl) && 0 <= w < WORDS && (!InHeader(fl, w) ==> after[w] == before)
    ensures after[w] == WriteWord(before, fl, HeadersIn(after, fl), w)
  {
    if InHeader(fl, w) {
      var i := HeaderIndex(fl, w);
      assert InArena(fl[i]);
      HeaderWord(after, fl[i].addr, w);
    }
  }

  /** Words that hold the headers hs, and elsewhere what they held, are determined by that. */
  lemma WriteIs(before: seq<int>, after: seq<int>, fl: seq<Block>, hs: seq<Header>)
    requires |before| == |after| == WORDS && Apart(fl) && HeadersIn(after, fl) == hs
    requires forall w :: 0 <= w < WORDS && !InHeader(fl, w) ==> after[w] == before[w]
    ensures after == Write(before, fl, hs)
  {
    forall w | 0 <= w < WORDS ensures after[w] == WriteWord(before[w], fl, hs, w) {
      WriteWordIs(before[w], after, fl, w);
    }
  }

  /** A word is in the header of one block only. */
  lemma OneHeader(fl: seq<Block>, i: nat, w: int)
    requires Apart(fl) && i < |fl| && fl[i].addr <= 8 * w < fl[i].Payload()
    ensures InHeader(fl, w) && HeaderIndex(fl, w) == i
  {
    var j := HeaderIndex(fl, w);
    assert InArena(fl[i]) && InArena(fl[j]);
    assert j < i ==> Before(fl[j], fl[i]);
    assert i < j ==> Before(fl[i], fl[j]);
  }

  /** The headers written are there. */
  lemma Written(words: seq<int>, fl: seq<Block>, hs: seq<Header>, i: nat)
    requires |words| == WORDS && Apart(fl) && |hs| == |fl| && i < |fl|
    ensures HeaderIn(Write(words, fl, hs), fl[i].addr) == hs[i]
  {
    var a := fl[i].addr;
    assert InArena(fl[i]);
    forall o | 0 <= o < 4 ensures Word(Write(words, fl, hs), a, o) == Field(hs[i], o) {
      OneHeader(fl, i, a / 8 + o);
    }
  }
}

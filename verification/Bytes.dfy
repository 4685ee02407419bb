/** Bytes, and what sequences of them are made of. */
module Bytes {
  type byte = x: int | 0 <= x < 256

  function Min(a: int, b: int): int { if a <= b then a else b }

  function Max(a: int, b: int): int { if a <= b then b else a }

  lemma AppendAssociates(a: seq<byte>, b: seq<byte>, c: seq<byte>)
    ensures (a + b) + c == a + (b + c)
  {}

  lemma SliceSplits(s: seq<byte>, lo: nat, mid: nat, hi: nat)
    requires lo <= mid <= hi <= |s|
    ensures s[lo..hi] == s[lo..mid] + s[mid..hi]
  {}

  lemma PrefixSplits(s: seq<byte>, mid: nat, hi: nat)
    requires mid <= hi <= |s|
    ensures s[..hi] == s[..mid] + s[mid..hi]
  {}
}

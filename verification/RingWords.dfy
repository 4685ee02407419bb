/**
 What the words of a file are, in terms of its blanks and newlines alone: taken with the characters
 that end them they make up the file, and no other list of words does.
 */
module RingWords {
  import opened RingSpec

  /** Each word and the character after it, one after the other. */
  function Joined(ws: seq<seq<char>>, ends: seq<char>): seq<char>
    requires |ws| == |ends|
  {
    if ws == [] then [] else ws[0] + [ends[0]] + Joined(ws[1..], ends[1..])
  }

  ghost predicate Plain(w: seq<char>) { ' ' !in w && '\n' !in w }

  /** text is the words ws, without a blank or newline in them, each ended by one, and a tail without any. */
  ghost predicate Splits(text: seq<char>, ws: seq<seq<char>>, ends: seq<char>, tail: seq<char>) {
    && |ws| == |ends| && text == Joined(ws, ends) + tail
    && (forall i :: 0 <= i < |ends| ==> ends[i] == ' ' || ends[i] == '\n')
    && (forall i :: 0 <= i < |ws| ==> Plain(ws[i])) && Plain(tail)
  }

  /** One more word in front. */
  lemma SplitsCons(w: seq<char>, c: char, text: seq<char>, ws: seq<seq<char>>, ends: seq<char>, tail: seq<char>)
    requires Splits(text, ws, ends, tail) && (c == ' ' || c == '\n') && Plain(w)
    ensures Splits(w + [c] + text, [w] + ws, [c] + ends, tail)
  {
    assert ([w] + ws)[1..] == ws && ([c] + ends)[1..] == ends;
    assert w + [c] + (Joined(ws, ends) + tail) == (w + [c] + Joined(ws, ends)) + tail;
  }

  /** The first word off. */
  lemma SplitsTail(text: seq<char>, ws: seq<seq<char>>, ends: seq<char>, tail: seq<char>)
    requires Splits(text, ws, ends, tail) && ws != []
    ensures var later := Joined(ws[1..], ends[1..]) + tail;
      Splits(later, ws[1..], ends[1..], tail) && text == ws[0] + [ends[0]] + later
  {
    var ws', ends' := ws[1..], ends[1..];
    assert forall i :: 0 <= i < |ws'| ==> ws'[i] == ws[i + 1] && ends'[i] == ends[i + 1];
    assert (ws[0] + [ends[0]] + Joined(ws', ends')) + tail == ws[0] + [ends[0]] + (Joined(ws', ends') + tail);
  }

  lemma FirstIsPlain(text: seq<char>, ws: seq<seq<char>>, ends: seq<char>, tail: seq<char>)
    requires Splits(text, ws, ends, tail) && ws != []
    ensures Plain(ws[0]) && (ends[0] == ' ' || ends[0] == '\n')
  {}

  lemma SplitsNone(text: seq<char>, ends: seq<char>, tail: seq<char>)
    requires Splits(text, [], ends, tail)
    ensures Plain(text)
  {
    assert Joined([], ends) == [];
  }

  /** What is left from pos on: the next word, its end, and the rest; or only a tail. */
  lemma NextWord(text: seq<char>, pos: nat)
    requires pos <= |text|
    ensures var e := WordEnd(text, pos);
      && Plain(text[pos..e])
      && (if e < |text| then text[pos..] == text[pos..e] + [text[e]] + text[e + 1..] else text[pos..] == text[pos..e])
  {
    var e := WordEnd(text, pos);
    assert forall k :: 0 <= k < e - pos ==> text[pos..e][k] == text[pos + k];
  }

  lemma {:induction false} WordsFromSplit(text: seq<char>, pos: nat)
    returns (ends: seq<char>, tail: seq<char>)
    requires pos <= |text|
    ensures Splits(text[pos..], WordsFrom(text, pos), ends, tail)
    decreases |text| - pos
  {
    var e := WordEnd(text, pos);
    var w := text[pos..e];
    NextWord(text, pos);
    if e == |text| {
      ends, tail := [], w;
    } else {
      ends, tail := WordsFromSplit(text, e + 1);
      SplitsCons(w, text[e], text[e + 1..], WordsFrom(text, e + 1), ends, tail);
      ends := [text[e]] + ends;
    }
  }

  /** The words of a file take it apart at its blanks and newlines. */
  lemma WordsSplit(text: seq<char>)
    ensures exists ends, tail :: Splits(text, Words(text), ends, tail)
  {
    var ends, tail := WordsFromSplit(text, 0);
    assert text[0..] == text;
    assert Splits(text, Words(text), ends, tail);
  }

  /** Where nothing ends a word there is none. */
  lemma NoneLeft(text: seq<char>, pos: nat)
    requires pos <= |text| && Plain(text[pos..])
    ensures WordsFrom(text, pos) == []
  {
    assert forall k :: pos <= k < |text| ==> text[k] == text[pos..][k - pos] && text[k] in text[pos..];
  }

  /** A plain word and what ends it are the next ones. */
  lemma WordIsNext(text: seq<char>, pos: nat, w: seq<char>, c: char, later: seq<char>)
    requires pos <= |text| && text[pos..] == w + [c] + later && Plain(w) && (c == ' ' || c == '\n')
    ensures var e := WordEnd(text, pos);
      e < |text| && text[pos..e] == w && text[e + 1..] == later
  {
    var rest := text[pos..];
    assert rest[|w|] == c == text[pos + |w|];
    assert forall k :: 0 <= k < |w| ==> text[pos + k] == rest[k] == w[k] && w[k] in w;
    assert WordEnd(text, pos) == pos + |w|;
    assert text[pos + |w| + 1..] == rest[|w| + 1..] == later;
    assert text[pos..pos + |w|] == rest[..|w|] == w;
  }

  lemma WordsStep(text: seq<char>, pos: nat, ws: seq<seq<char>>)
    requires pos <= |text| && WordEnd(text, pos) < |text| && ws != []
    requires text[pos..WordEnd(text, pos)] == ws[0] && ws[1..] == WordsFrom(text, WordEnd(text, pos) + 1)
    ensures ws == WordsFrom(text, pos)
  {
    assert ws == [ws[0]] + ws[1..];
  }

  /** The same of what is left from pos on. */
  ghost predicate SplitsFrom(text: seq<char>, pos: nat, ws: seq<seq<char>>, ends: seq<char>, tail: seq<char>) {
    pos <= |text| && Splits(text[pos..], ws, ends, tail)
  }

  /** If the words after the first are those of the text after its end, all are those of the text. */
  lemma SplitsNext(text: seq<char>, pos: nat, ws: seq<seq<char>>, ends: seq<char>, tail: seq<char>)
    returns (next: nat)
    requires SplitsFrom(text, pos, ws, ends, tail) && ws != []
    ensures |ends| == |ws| && next <= |text| && SplitsFrom(text, next, ws[1..], ends[1..], tail)
    ensures ws[1..] == WordsFrom(text, next) ==> ws == WordsFrom(text, pos)
  {
    var rest, later := text[pos..], Joined(ws[1..], ends[1..]) + tail;
    SplitsTail(rest, ws, ends, tail);
    FirstIsPlain(rest, ws, ends, tail);
    WordIsNext(text, pos, ws[0], ends[0], later);
    next := WordEnd(text, pos) + 1;
    if ws[1..] == WordsFrom(text, next) {
      WordsStep(text, pos, ws);
    }
  }

  lemma SplitsLast(text: seq<char>, pos: nat, ends: seq<char>, tail: seq<char>)
    requires SplitsFrom(text, pos, [], ends, tail)
    ensures WordsFrom(text, pos) == []
  {
    SplitsNone(text[pos..], ends, tail);
    NoneLeft(text, pos);
  }

  lemma {:induction false} SplitIsWordsFrom(text: seq<char>, pos: nat,
                                            ws: seq<seq<char>>, ends: seq<char>, tail: seq<char>)
    requires pos <= |text| && SplitsFrom(text, pos, ws, ends, tail)
    ensures ws == WordsFrom(text, pos)
    decreases |ws|
  {
    if ws == [] {
      SplitsLast(text, pos, ends, tail);
    } else {
      var next := SplitsNext(text, pos, ws, ends, tail);
      SplitIsWordsFrom(text, next, ws[1..], ends[1..], tail);
    }
  }

  /** And no other words do. */
  lemma SplitIsWords(text: seq<char>, ws: seq<seq<char>>, ends: seq<char>, tail: seq<char>)
    requires Splits(text, ws, ends, tail)
    ensures ws == Words(text)
  {
    assert text[0..] == text;
    SplitIsWordsFrom(text, 0, ws, ends, tail);
  }
}

/** The vocabulary (class Vocabulary): words get dense indices from 3 in the
    order they are first seen, every occurrence is counted, and trim rebuilds
    the vocabulary from the words seen often enough. */
module Vocab {
  import opened Base
  import opened Text

  /** The reserved tokens and their indices (langproc.py:114-116). */
  const PadToken: nat := 0
  const StartToken: nat := 1
  const EndToken: nat := 2

  /** The index the first real word receives. */
  const FirstWordIndex: nat := 3

  /** The index-to-word map of a fresh or re-initialized vocabulary. */
  function Sentinels(): (m: map<nat, string>)
    ensures forall i :: i in m ==> i < FirstWordIndex
    ensures forall i :: 0 <= i < FirstWordIndex ==> i in m
  {
    map[PadToken := "PAD", StartToken := "SOS", EndToken := "EOS"]
  }

  predicate Distinct(words: seq<string>)
  {
    forall i, j :: 0 <= i < j < |words| ==> words[i] != words[j]
  }

  /** wordtoindex for words added in this order: the word at position k has
      index 3 + k. */
  function WordToIndex(words: seq<string>): (m: map<string, nat>)
    ensures m.Keys == set w | w in words
    decreases |words|
  {
    if words == [] then map[]
    else
      var n := |words| - 1;
      WordToIndex(words[..n])[words[n] := FirstWordIndex + n]
  }

  /** indextoword for words added in this order, on top of the sentinels. */
  function IndexToWord(words: seq<string>): (m: map<nat, string>)
    ensures forall i :: i in m ==> i < FirstWordIndex + |words|
    ensures forall i :: 0 <= i < FirstWordIndex + |words| ==> i in m
    decreases |words|
  {
    if words == [] then Sentinels()
    else
      var n := |words| - 1;
      IndexToWord(words[..n])[FirstWordIndex + n := words[n]]
  }

  // ---------------------------------------------------------------------
  // Counting words

  /** The words in the order they were first added, and their counts. */
  datatype Tally = Tally(words: seq<string>, counts: map<string, int>)

  /** The words are distinct, exactly they are counted, and each at least
      once. */
  ghost predicate TallyValid(t: Tally)
  {
    && Distinct(t.words)
    && (forall w :: w in t.counts <==> w in t.words)
    && (forall w :: w in t.counts ==> t.counts[w] >= 1)
  }

  function EmptyTally(): Tally
  {
    Tally([], map[])
  }

  /** addword on the tally: a new word is appended with count 1, a known one
      counted once more. */
  function CountWord(t: Tally, w: string): Tally
  {
    if w in t.counts then Tally(t.words, t.counts[w := t.counts[w] + 1])
    else Tally(t.words + [w], t.counts[w := 1])
  }

  /** The tally after adding the words one by one. */
  function CountWords(t: Tally, ws: seq<string>): Tally
    decreases |ws|
  {
    if ws == [] then t
    else
      var n := |ws| - 1;
      CountWord(CountWords(t, ws[..n]), ws[n])
  }

  /** How often w was counted in t, 0 when never. */
  function CountOf(t: Tally, w: string): int
  {
    if w in t.counts then t.counts[w] else 0
  }

  lemma CountWordValid(t: Tally, w: string)
    requires TallyValid(t)
    ensures TallyValid(CountWord(t, w))
  {
  }

  /** Adding words keeps the tally valid and the words seen before in
      front. */
  lemma {:induction false} CountWordsValid(t: Tally, ws: seq<string>)
    requires TallyValid(t)
    ensures TallyValid(CountWords(t, ws))
    ensures |t.words| <= |CountWords(t, ws).words| && CountWords(t, ws).words[..|t.words|] == t.words
    decreases |ws|
  {
    if ws != [] {
      var n := |ws| - 1;
      CountWordsValid(t, ws[..n]);
      var u := CountWords(t, ws[..n]);
      CountWordValid(u, ws[n]);
      if ws[n] !in u.counts {
        assert (u.words + [ws[n]])[..|t.words|] == u.words[..|t.words|];
      }
    }
  }

  /** After adding words the vocabulary knows exactly the words it knew and
      the added ones. */
  lemma {:induction false} CountWordsMembers(t: Tally, ws: seq<string>)
    requires TallyValid(t)
    ensures forall w :: w in CountWords(t, ws).words <==> w in t.words || w in ws
    decreases |ws|
  {
    if ws != [] {
      var n := |ws| - 1;
      CountWordsMembers(t, ws[..n]);
      CountWordsValid(t, ws[..n]);
      assert ws == ws[..n] + [ws[n]];
    }
  }

  /** The number of words grows by the number of distinct added words not
      seen before. */
  lemma {:induction false} CountWordsGrowth(t: Tally, ws: seq<string>)
    requires TallyValid(t)
    ensures |CountWords(t, ws).words| == |t.words| + |(set w | w in ws) - (set w | w in t.words)|
    decreases |ws|
  {
    if ws != [] {
      var n := |ws| - 1;
      var init := ws[..n];
      CountWordsGrowth(t, init);
      CountedBefore(t, init, ws[n]);
      GrowthStep((set w | w in t.words), init, ws[n]);
      assert ws == init + [ws[n]];
    }
  }

  /** Whether a word is counted after adding words: exactly when it was known
      or among the added ones. */
  lemma CountedBefore(t: Tally, ws: seq<string>, w: string)
    requires TallyValid(t)
    ensures w in CountWords(t, ws).counts <==> w in t.words || w in ws
  {
    CountWordsValid(t, ws);
    CountWordsMembers(t, ws);
  }

  /** The set of unseen added words grows by w exactly when w is new. */
  lemma GrowthStep(known: set<string>, ws: seq<string>, w: string)
    ensures |(set x | x in ws + [w]) - known| ==
              |(set x | x in ws) - known| + (if w in known || w in ws then 0 else 1)
  {
    var before := (set x | x in ws) - known;
    var after := (set x | x in ws + [w]) - known;
    if w in known || w in ws {
      assert after == before;
    } else {
      assert after == before + {w};
    }
  }

  /** The added words not known yet, each once, in the order of their first
      occurrence. */
  function NewWords(known: set<string>, ws: seq<string>): seq<string>
    decreases |ws|
  {
    if ws == [] then []
    else if ws[0] in known then NewWords(known, ws[1..])
    else [ws[0]] + NewWords(known + {ws[0]}, ws[1..])
  }

  /** Appending a word to the added ones appends it to the new words exactly
      when it is neither known nor added before. */
  lemma {:induction false} NewWordsAppend(known: set<string>, ws: seq<string>, w: string)
    ensures NewWords(known, ws + [w]) ==
              NewWords(known, ws) + (if w in known || w in ws then [] else [w])
    decreases |ws|
  {
    if ws == [] {
      assert ws + [w] == [w];
      assert [w][1..] == [];
    } else {
      assert (ws + [w])[1..] == ws[1..] + [w];
      if ws[0] in known {
        NewWordsAppend(known, ws[1..], w);
      } else {
        NewWordsAppend(known + {ws[0]}, ws[1..], w);
      }
    }
  }

  /** Adding words appends the new ones to the words, in the order they first
      occur among the added words. */
  lemma {:induction false} CountWordsOrder(t: Tally, ws: seq<string>)
    requires TallyValid(t)
    ensures CountWords(t, ws).words == t.words + NewWords((set w | w in t.words), ws)
    decreases |ws|
  {
    if ws != [] {
      var n := |ws| - 1;
      var init := ws[..n];
      var known := set w | w in t.words;
      CountWordsOrder(t, init);
      CountedBefore(t, init, ws[n]);
      NewWordsAppend(known, init, ws[n]);
      assert ws == init + [ws[n]];
    }
  }

  /** Every word is counted once more per occurrence among the added
      words. */
  lemma {:induction false} CountWordsCounts(t: Tally, ws: seq<string>)
    ensures forall w :: CountOf(CountWords(t, ws), w) == CountOf(t, w) + multiset(ws)[w]
    decreases |ws|
  {
    if ws != [] {
      var n := |ws| - 1;
      CountWordsCounts(t, ws[..n]);
      assert ws == ws[..n] + [ws[n]];
      assert multiset(ws) == multiset(ws[..n]) + multiset{ws[n]};
    }
  }

  // ---------------------------------------------------------------------
  // Trimming

  /** The words counted at least threshold times, in the order they were
      first added (the for loop over wordtocount.items() in trim). */
  function Kept(words: seq<string>, counts: map<string, int>, threshold: int): seq<string>
    requires forall w :: w in words ==> w in counts
    decreases |words|
  {
    if words == [] then []
    else
      var n := |words| - 1;
      Kept(words[..n], counts, threshold) + (if counts[words[n]] >= threshold then [words[n]] else [])
  }

  /** The tally trim rebuilds: the kept words added once each to an empty
      vocabulary. */
  function Trimmed(t: Tally, threshold: int): Tally
    requires TallyValid(t)
  {
    CountWords(EmptyTally(), Kept(t.words, t.counts, threshold))
  }

  /** A word is kept exactly when it was seen at least threshold times. */
  lemma {:induction false} KeptMembers(words: seq<string>, counts: map<string, int>, threshold: int)
    requires forall w :: w in words ==> w in counts
    ensures forall w :: w in Kept(words, counts, threshold) <==> w in words && counts[w] >= threshold
    decreases |words|
  {
    if words != [] {
      var n := |words| - 1;
      KeptMembers(words[..n], counts, threshold);
      assert words == words[..n] + [words[n]];
    }
  }

  /** The positions of the kept words among all words, strictly increasing:
      trimming keeps the first-seen order. */
  ghost function KeptPositions(words: seq<string>, counts: map<string, int>, threshold: int): (ps: seq<nat>)
    requires forall w :: w in words ==> w in counts
    ensures |ps| == |Kept(words, counts, threshold)|
    ensures forall j :: 0 <= j < |ps| ==> ps[j] < |words| && Kept(words, counts, threshold)[j] == words[ps[j]]
    ensures forall j, l :: 0 <= j < l < |ps| ==> ps[j] < ps[l]
    decreases |words|
  {
    if words == [] then []
    else
      var n := |words| - 1;
      assert forall w :: w in words[..n] ==> w in words;
      var prev := KeptPositions(words[..n], counts, threshold);
      if counts[words[n]] >= threshold then prev + [n] else prev
  }

  /** Kept words of distinct words are distinct. */
  lemma KeptDistinct(words: seq<string>, counts: map<string, int>, threshold: int)
    requires forall w :: w in words ==> w in counts
    requires Distinct(words)
    ensures Distinct(Kept(words, counts, threshold))
  {
    var ps := KeptPositions(words, counts, threshold);
    var kept := Kept(words, counts, threshold);
    forall i, j | 0 <= i < j < |kept| ensures kept[i] != kept[j] {
      assert ps[i] < ps[j];
    }
  }

  /** With a threshold of at most 1 every word is kept. */
  lemma {:induction false} KeptAll(words: seq<string>, counts: map<string, int>, threshold: int)
    requires forall w :: w in words ==> w in counts && counts[w] >= 1
    requires threshold <= 1
    ensures Kept(words, counts, threshold) == words
    decreases |words|
  {
    if words != [] {
      var n := |words| - 1;
      KeptAll(words[..n], counts, threshold);
      assert words == words[..n] + [words[n]];
    }
  }

  /** Adding distinct words to an empty tally lists them in order, each
      counted once. */
  lemma {:induction false} CountDistinctWords(ws: seq<string>)
    requires Distinct(ws)
    ensures CountWords(EmptyTally(), ws).words == ws
    ensures forall w :: w in ws ==> w in CountWords(EmptyTally(), ws).counts && CountWords(EmptyTally(), ws).counts[w] == 1
    decreases |ws|
  {
    if ws != [] {
      var n := |ws| - 1;
      var front := ws[..n];
      CountWordsValid(EmptyTally(), front);
      CountWordsMembers(EmptyTally(), front);
      CountDistinctWords(front);
      assert ws[n] !in front;
      assert ws == front + [ws[n]];
    }
  }

  /** After trimming the words are exactly the kept ones, in their first-seen
      order, each counted once, and indexed densely from 3. */
  lemma TrimmedSpec(t: Tally, threshold: int)
    requires TallyValid(t)
    ensures TallyValid(Trimmed(t, threshold))
    ensures Trimmed(t, threshold).words == Kept(t.words, t.counts, threshold)
    ensures forall w :: w in Trimmed(t, threshold).counts ==> Trimmed(t, threshold).counts[w] == 1
    ensures forall w :: w in Trimmed(t, threshold).words <==> w in t.words && t.counts[w] >= threshold
  {
    KeptDistinct(t.words, t.counts, threshold);
    KeptMembers(t.words, t.counts, threshold);
    CountWordsValid(EmptyTally(), Kept(t.words, t.counts, threshold));
    CountDistinctWords(Kept(t.words, t.counts, threshold));
  }

  /** A threshold of at most 1 keeps the vocabulary's words and order and
      resets every count to 1. */
  lemma TrimmedLowThreshold(t: Tally, threshold: int)
    requires TallyValid(t) && threshold <= 1
    ensures Trimmed(t, threshold).words == t.words
  {
    KeptAll(t.words, t.counts, threshold);
    CountDistinctWords(t.words);
  }

  /** Trimming a trimmed vocabulary again with a threshold of at most 1
      changes nothing. */
  lemma TrimmedStable(t: Tally, threshold: int, again: int)
    requires TallyValid(t) && again <= 1
    ensures TallyValid(Trimmed(t, threshold))
    ensures Trimmed(Trimmed(t, threshold), again) == Trimmed(t, threshold)
  {
    TrimmedSpec(t, threshold);
    var u := Trimmed(t, threshold);
    TrimmedLowThreshold(u, again);
    TrimmedSpec(u, again);
    assert Trimmed(u, again).counts == u.counts;
  }

  // ---------------------------------------------------------------------
  // The index maps

  /** Every word's index is 3 plus its position. */
  lemma {:induction false} WordToIndexAt(words: seq<string>, k: nat)
    requires Distinct(words) && k < |words|
    ensures WordToIndex(words)[words[k]] == FirstWordIndex + k
    decreases |words|
  {
    var n := |words| - 1;
    if k < n {
      assert words[..n][k] == words[k];
      WordToIndexAt(words[..n], k);
    }
  }

  /** The sentinels keep indices 0 to 2 and every word sits at 3 plus its
      position. */
  lemma {:induction false} IndexToWordAt(words: seq<string>)
    ensures IndexToWord(words)[PadToken] == "PAD" && IndexToWord(words)[StartToken] == "SOS" && IndexToWord(words)[EndToken] == "EOS"
    ensures forall k :: 0 <= k < |words| ==> IndexToWord(words)[FirstWordIndex + k] == words[k]
    decreases |words|
  {
    if words != [] {
      var n := |words| - 1;
      IndexToWordAt(words[..n]);
    }
  }

  /** Looking up a word's index in indextoword gives back the word. */
  lemma WordIndexInverse(words: seq<string>)
    requires Distinct(words)
    ensures forall w :: w in WordToIndex(words) ==>
              WordToIndex(words)[w] in IndexToWord(words) && IndexToWord(words)[WordToIndex(words)[w]] == w
  {
    IndexToWordAt(words);
    forall w | w in WordToIndex(words)
      ensures WordToIndex(words)[w] in IndexToWord(words) && IndexToWord(words)[WordToIndex(words)[w]] == w
    {
      var k :| 0 <= k < |words| && words[k] == w;
      WordToIndexAt(words, k);
    }
  }

  /** Looking up the word at an index from 3 on in wordtoindex gives back the
      index. */
  lemma IndexWordInverse(words: seq<string>)
    requires Distinct(words)
    ensures forall i :: i in IndexToWord(words) && i >= FirstWordIndex ==>
              IndexToWord(words)[i] in WordToIndex(words) && WordToIndex(words)[IndexToWord(words)[i]] == i
  {
    IndexToWordAt(words);
    forall i | i in IndexToWord(words) && i >= FirstWordIndex
      ensures IndexToWord(words)[i] in WordToIndex(words) && WordToIndex(words)[IndexToWord(words)[i]] == i
    {
      WordToIndexAt(words, i - FirstWordIndex);
    }
  }

  /** The word indices are exactly 3 up to, not including, 3 plus the number
      of words. */
  lemma WordIndicesDense(words: seq<string>)
    requires Distinct(words)
    ensures forall i :: i in WordToIndex(words).Values <==> FirstWordIndex <= i < FirstWordIndex + |words|
  {
    forall i | FirstWordIndex <= i < FirstWordIndex + |words| ensures i in WordToIndex(words).Values {
      WordToIndexAt(words, i - FirstWordIndex);
    }
    forall i | i in WordToIndex(words).Values ensures FirstWordIndex <= i < FirstWordIndex + |words| {
      var w :| w in WordToIndex(words) && WordToIndex(words)[w] == i;
      var k :| 0 <= k < |words| && words[k] == w;
      WordToIndexAt(words, k);
    }
  }

  // ---------------------------------------------------------------------
  // The class

  /** A vocabulary object. Besides the source's fields it carries, as a ghost,
      the words in the order they were added: the iteration order of the
      source's insertion-ordered dictionaries. */
  class Vocabulary {
    var name: string
    var trimmed: bool
    var wordToIndex: map<string, nat>
    var wordToCount: map<string, int>
    var indexToWord: map<nat, string>
    var numWords: nat
    ghost var words: seq<string>

    /** The fields agree with the added words: indices 3 onwards in order of
        addition, the sentinels below, and a count for each word. */
    ghost predicate Valid()
      reads this
    {
      && numWords == FirstWordIndex + |words|
      && TallyValid(Tally(words, wordToCount))
      && wordToIndex == WordToIndex(words)
      && indexToWord == IndexToWord(words)
    }

    /** The words and their counts. */
    ghost function Counted(): Tally
      reads this
    {
      Tally(words, wordToCount)
    }

    /** __init__ (langproc.py:120-130). */
    constructor (name: string)
      ensures Valid()
      ensures this.name == name && !trimmed
      ensures wordToIndex == map[] && wordToCount == map[]
      ensures indexToWord == map[0 := "PAD", 1 := "SOS", 2 := "EOS"] && numWords == 3
      ensures words == []
    {
      this.name := name;
      trimmed := false;
      wordToIndex := map[];
      wordToCount := map[];
      indexToWord := Sentinels();
      numWords := FirstWordIndex;
      words := [];
    }

    /** addword (langproc.py:135-142). */
    method AddWord(word: string)
      requires Valid()
      modifies this
      ensures Valid()
      ensures name == old(name) && trimmed == old(trimmed)
      ensures Counted() == CountWord(old(Counted()), word)
      ensures word !in old(wordToIndex) ==>
                && wordToIndex == old(wordToIndex)[word := old(numWords)]
                && indexToWord == old(indexToWord)[old(numWords) := word]
                && numWords == old(numWords) + 1
      ensures word in old(wordToIndex) ==>
                wordToIndex == old(wordToIndex) && indexToWord == old(indexToWord) && numWords == old(numWords)
    {
      if word !in wordToIndex {
        ghost var before := words;
        wordToIndex := wordToIndex[word := numWords];
        wordToCount := wordToCount[word := 1];
        indexToWord := indexToWord[numWords := word];
        numWords := numWords + 1;
        words := words + [word];
        assert words[..|before|] == before;
      } else {
        wordToCount := wordToCount[word := wordToCount[word] + 1];
      }
    }

    /** addsentence (langproc.py:132-134): every piece of the sentence split
        on single spaces, empty pieces included, is added as a word. */
    method AddSentence(sentence: string)
      requires Valid()
      modifies this
      ensures Valid()
      ensures name == old(name) && trimmed == old(trimmed)
      ensures Counted() == CountWords(old(Counted()), Split(sentence, " "))
    {
      var pieces := Split(sentence, " ");
      for k := 0 to |pieces|
        invariant Valid()
        invariant name == old(name) && trimmed == old(trimmed)
        invariant Counted() == CountWords(old(Counted()), pieces[..k])
      {
        assert pieces[..k + 1][..k] == pieces[..k];
        AddWord(pieces[k]);
      }
      assert pieces[..|pieces|] == pieces;
    }

    /** The for loop of trim (langproc.py:148-151): the words
        counted at least minThreshold times, in the order of wordtocount,
        which is the order the words were first added. The walk goes over the
        indices 3 onwards, which list the words in that order. */
    method KeptWords(minThreshold: int) returns (keptWords: seq<string>)
      requires Valid()
      ensures keptWords == Kept(words, wordToCount, minThreshold)
    {
      IndexToWordAt(words);
      keptWords := [];
      for i := FirstWordIndex to numWords
        invariant keptWords == Kept(words[..i - FirstWordIndex], wordToCount, minThreshold)
      {
        var keep := indexToWord[i];
        assert keep == words[i - FirstWordIndex];
        assert words[..i + 1 - FirstWordIndex][..i - FirstWordIndex] == words[..i - FirstWordIndex];
        if wordToCount[keep] >= minThreshold {
          keptWords := keptWords + [keep];
        }
      }
      assert words[..numWords - FirstWordIndex] == words;
    }

    /** The re-initialization and refill of trim (langproc.py:154-163). */
    method Rebuild(keptWords: seq<string>)
      requires Valid()
      modifies this
      ensures Valid()
      ensures name == old(name) && trimmed == old(trimmed)
      ensures Counted() == CountWords(EmptyTally(), keptWords)
    {
      wordToIndex := map[];
      wordToCount := map[];
      indexToWord := Sentinels();
      numWords := FirstWordIndex;
      words := [];
      for k := 0 to |keptWords|
        invariant Valid()
        invariant name == old(name) && trimmed == old(trimmed)
        invariant Counted() == CountWords(EmptyTally(), keptWords[..k])
      {
        assert keptWords[..k + 1][..k] == keptWords[..k];
        AddWord(keptWords[k]);
      }
      assert keptWords[..|keptWords|] == keptWords;
    }

    /** trim (langproc.py:144-163). Once trimmed, nothing changes. Otherwise
        the flag is set first; an empty vocabulary then raises the
        ZeroDivisionError of the retained-fraction message, and any other is
        rebuilt from the words counted at least minThreshold times. */
    method Trim(minThreshold: int) returns (fault: Option<Fault>)
      requires Valid()
      modifies this
      ensures Valid()
      ensures name == old(name) && trimmed
      ensures old(trimmed) ==>
                fault == None && Counted() == old(Counted()) &&
                wordToIndex == old(wordToIndex) && indexToWord == old(indexToWord) && numWords == old(numWords)
      ensures !old(trimmed) && |old(wordToIndex)| == 0 ==>
                fault == Some(ZeroDivisionError) && Counted() == old(Counted()) &&
                wordToIndex == old(wordToIndex) && indexToWord == old(indexToWord) && numWords == old(numWords)
      ensures !old(trimmed) && |old(wordToIndex)| != 0 ==>
                fault == None && Counted() == Trimmed(old(Counted()), minThreshold)
    {
      if trimmed {
        return None;
      }
      trimmed := true;
      var keptWords := KeptWords(minThreshold);
      if |wordToIndex| == 0 {
        return Some(ZeroDivisionError);
      }
      Rebuild(keptWords);
      return None;
    }
  }
}

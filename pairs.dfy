/** The pair extractor (extractsentencepairs): every two consecutive records
    of a conversation give a query/reply pair of their stripped texts, kept
    when both texts are non-empty. */
module Pairs {
  import opened Base
  import opened Text
  import opened Records
  import opened Conversations

  /** The record field holding the utterance. */
  const TextKey: string := "text"

  /** One training pair: a line and the line that answers it. */
  datatype Pair = Pair(query: string, reply: string)

  /** The number of iterations of range(len(lines) - 1). */
  function Steps(lines: seq<Record>): nat
  {
    if |lines| == 0 then 0 else |lines| - 1
  }

  /** The first n iterations of the pair loop can read the text of both
      records they look at. */
  predicate Readable(lines: seq<Record>, n: nat)
  {
    n == 0 || (n < |lines| && forall t :: 0 <= t <= n ==> TextKey in lines[t])
  }

  /** The whole pair loop over lines runs without a KeyError. */
  predicate HasTexts(lines: seq<Record>)
  {
    Readable(lines, Steps(lines))
  }

  /** The stripped utterance of a record. */
  function Utterance(rec: Record): string
    requires TextKey in rec
  {
    Strip(rec[TextKey])
  }

  /** The pair iteration i looks at. */
  function Candidate(lines: seq<Record>, i: nat): Pair
    requires i + 1 < |lines| && TextKey in lines[i] && TextKey in lines[i + 1]
  {
    Pair(Utterance(lines[i]), Utterance(lines[i + 1]))
  }

  /** The filter of langproc.py:81: both sides are non-empty. */
  predicate Keeps(p: Pair)
  {
    p.query != [] && p.reply != []
  }

  /** The pairs the first n iterations keep: at most one per iteration, and
      only non-empty ones. */
  function PairsUpTo(lines: seq<Record>, n: nat): (ps: seq<Pair>)
    requires Readable(lines, n)
    ensures |ps| <= n
    ensures forall j :: 0 <= j < |ps| ==> Keeps(ps[j])
    decreases n
  {
    if n == 0 then []
    else
      var prev := PairsUpTo(lines, n - 1);
      var p := Candidate(lines, n - 1);
      if Keeps(p) then prev + [p] else prev
  }

  /** The pairs one conversation contributes. */
  function PairsOf(lines: seq<Record>): seq<Pair>
    requires HasTexts(lines)
  {
    PairsUpTo(lines, Steps(lines))
  }

  predicate AllHaveTexts(conversations: seq<Conversation>)
  {
    forall k :: 0 <= k < |conversations| ==> HasTexts(conversations[k].lines)
  }

  /** The pairs of each conversation. */
  function PairLists(conversations: seq<Conversation>): (xss: seq<seq<Pair>>)
    requires AllHaveTexts(conversations)
    ensures |xss| == |conversations| && forall k :: 0 <= k < |xss| ==> xss[k] == PairsOf(conversations[k].lines)
  {
    seq(|conversations|, k requires 0 <= k < |conversations| => PairsOf(conversations[k].lines))
  }

  /** The pairs of the conversations, conversation after conversation. */
  function AllPairs(conversations: seq<Conversation>): seq<Pair>
    requires AllHaveTexts(conversations)
  {
    Flatten(PairLists(conversations))
  }

  /** What extractsentencepairs returns: a KeyError as soon as some record it
      reads has no text, otherwise all pairs. */
  function Extract(conversations: seq<Conversation>): Result<seq<Pair>>
  {
    if AllHaveTexts(conversations) then Ok(AllPairs(conversations)) else Err(KeyError(TextKey))
  }

  /** The current contents of the conversation objects. */
  function Values(objects: seq<ConversationObject>): (cs: seq<Conversation>)
    reads objects
    ensures |cs| == |objects| && forall k :: 0 <= k < |objects| ==> cs[k] == objects[k].Value()
  {
    seq(|objects|, k reads objects requires 0 <= k < |objects| => objects[k].Value())
  }

  /** The inner loop of extractsentencepairs (langproc.py:77-82) over the
      records of one conversation. */
  method LinePairs(lines: seq<Record>) returns (r: Result<seq<Pair>>)
    ensures r == if HasTexts(lines) then Ok(PairsOf(lines)) else Err(KeyError(TextKey))
  {
    var pairs: seq<Pair> := [];
    var steps := if |lines| == 0 then 0 else |lines| - 1;
    for i := 0 to steps
      invariant Readable(lines, i)
      invariant pairs == PairsUpTo(lines, i)
    {
      if TextKey !in lines[i] || TextKey !in lines[i + 1] {
        assert !Readable(lines, steps);
        return Err(KeyError(TextKey));
      }
      var inputLine := Strip(lines[i][TextKey]);
      var targetLine := Strip(lines[i + 1][TextKey]);
      if inputLine != [] && targetLine != [] {
        pairs := pairs + [Pair(inputLine, targetLine)];
      }
    }
    return Ok(pairs);
  }

  /** extractsentencepairs (langproc.py:74-83). */
  method ExtractPairs(conversations: seq<ConversationObject>) returns (r: Result<seq<Pair>>)
    ensures r == Extract(Values(conversations))
  {
    ghost var values := Values(conversations);
    var qaPairs: seq<Pair> := [];
    for c := 0 to |conversations|
      invariant AllHaveTexts(values[..c])
      invariant qaPairs == AllPairs(values[..c])
    {
      var pairs := LinePairs(conversations[c].lines);
      if pairs.Err? {
        assert !HasTexts(values[c].lines);
        return Err(KeyError(TextKey));
      }
      AllPairsStep(values, c);
      qaPairs := qaPairs + pairs.value;
    }
    assert values[..|conversations|] == values;
    return Ok(qaPairs);
  }

  /** One more conversation extends the pairs of a prefix by its own pairs. */
  lemma AllPairsStep(conversations: seq<Conversation>, c: nat)
    requires c < |conversations| && AllHaveTexts(conversations[..c]) && HasTexts(conversations[c].lines)
    ensures AllHaveTexts(conversations[..c + 1])
    ensures AllPairs(conversations[..c + 1]) == AllPairs(conversations[..c]) + PairsOf(conversations[c].lines)
  {
    var next := conversations[..c + 1];
    assert next[..c] == conversations[..c];
    assert forall k :: 0 <= k < c ==> next[k] == conversations[..c][k];
    assert PairLists(next)[..c] == PairLists(conversations[..c]);
  }

  // ---------------------------------------------------------------------
  // Properties of the pairs

  /** The pair loop raises exactly when a conversation of two or more records
      has a record without text. */
  lemma HasTextsIff(lines: seq<Record>)
    ensures HasTexts(lines) <==> |lines| < 2 || forall k :: 0 <= k < |lines| ==> TextKey in lines[k]
  {
    if |lines| >= 2 && HasTexts(lines) {
      forall k | 0 <= k < |lines| ensures TextKey in lines[k] {
        if k > 0 {
          assert TextKey in lines[k - 1 + 1];
        }
      }
    }
  }

  /** A pair is kept exactly when it is the non-empty candidate of one of the
      iterations. */
  lemma {:induction false} PairsUpToMembers(lines: seq<Record>, n: nat, p: Pair)
    requires Readable(lines, n)
    ensures p in PairsUpTo(lines, n) <==> exists i :: 0 <= i < n && Keeps(p) && p == Candidate(lines, i)
    decreases n
  {
    if n > 0 {
      assert Readable(lines, n - 1);
      PairsUpToMembers(lines, n - 1, p);
    }
  }

  /** The positions the kept pairs come from, strictly increasing: the pairs
      appear in the order of the records. */
  ghost function PairSources(lines: seq<Record>, n: nat): (src: seq<nat>)
    requires Readable(lines, n)
    ensures |src| == |PairsUpTo(lines, n)|
    ensures forall j :: 0 <= j < |src| ==> src[j] < n && PairsUpTo(lines, n)[j] == Candidate(lines, src[j])
    ensures forall j, l :: 0 <= j < l < |src| ==> src[j] < src[l]
    decreases n
  {
    if n == 0 then []
    else
      var prev := PairSources(lines, n - 1);
      if Keeps(Candidate(lines, n - 1)) then prev + [n - 1] else prev
  }

  /** Every position below n whose candidate pair is kept is one of the
      sources: no kept pair is skipped. */
  lemma {:induction false} PairSourcesComplete(lines: seq<Record>, n: nat, i: nat)
    requires Readable(lines, n)
    requires i < n && Keeps(Candidate(lines, i))
    ensures i in PairSources(lines, n)
    decreases n
  {
    if i < n - 1 {
      assert Readable(lines, n - 1);
      PairSourcesComplete(lines, n - 1, i);
    }
  }

  lemma UtteranceStripped(rec: Record)
    requires TextKey in rec
    ensures var u := Utterance(rec); u == [] || (!IsSpace(u[0]) && !IsSpace(u[|u| - 1]))
  {
    StripRemovesSpace(rec[TextKey]);
  }

  /** Both sides of every pair are non-empty and carry no surrounding
      whitespace. */
  lemma PairsStripped(lines: seq<Record>, n: nat)
    requires Readable(lines, n)
    ensures forall j :: 0 <= j < |PairsUpTo(lines, n)| ==>
              var p := PairsUpTo(lines, n)[j];
              p.query != [] && p.reply != [] &&
              !IsSpace(p.query[0]) && !IsSpace(p.query[|p.query| - 1]) &&
              !IsSpace(p.reply[0]) && !IsSpace(p.reply[|p.reply| - 1])
  {
    var src := PairSources(lines, n);
    forall j | 0 <= j < |PairsUpTo(lines, n)|
      ensures var p := PairsUpTo(lines, n)[j];
              !IsSpace(p.query[0]) && !IsSpace(p.query[|p.query| - 1]) &&
              !IsSpace(p.reply[0]) && !IsSpace(p.reply[|p.reply| - 1])
    {
      var i := src[j];
      UtteranceStripped(lines[i]);
      UtteranceStripped(lines[i + 1]);
    }
  }

  /** The pairs of two runs of conversations are the pairs of the first
      followed by those of the second. */
  lemma AllPairsAppend(a: seq<Conversation>, b: seq<Conversation>)
    requires AllHaveTexts(a) && AllHaveTexts(b)
    ensures AllHaveTexts(a + b)
    ensures AllPairs(a + b) == AllPairs(a) + AllPairs(b)
  {
    assert AllHaveTexts(a + b) by {
      forall k | 0 <= k < |a + b| ensures HasTexts((a + b)[k].lines) {
        if k >= |a| {
          assert (a + b)[k] == b[k - |a|];
        }
      }
    }
    assert PairLists(a + b) == PairLists(a) + PairLists(b);
    FlattenAppend(PairLists(a), PairLists(b));
  }

  /** No pair crosses a conversation boundary: every pair is a pair of one
      of the conversations, and every pair of each conversation is there. */
  lemma AllPairsMembers(conversations: seq<Conversation>, p: Pair)
    requires AllHaveTexts(conversations)
    ensures p in AllPairs(conversations) <==>
              exists k :: 0 <= k < |conversations| && p in PairsOf(conversations[k].lines)
  {
    FlattenMembers(PairLists(conversations), p);
  }

  /** A conversation object appended k times, as loadconv does for a line
      with k ids, yields its pairs k times over: each further copy appends
      the conversation's pairs once more. */
  lemma RepeatedConversationPairs(c: Conversation, k: nat)
    requires HasTexts(c.lines)
    ensures AllHaveTexts(Repeat(c, k))
    ensures k == 0 ==> AllPairs(Repeat(c, k)) == []
    ensures k > 0 ==> AllPairs(Repeat(c, k)) == AllPairs(Repeat(c, k - 1)) + PairsOf(c.lines)
    ensures |AllPairs(Repeat(c, k))| == k * |PairsOf(c.lines)|
  {
    assert PairLists(Repeat(c, k)) == Repeat(PairsOf(c.lines), k);
    FlattenRepeatLength(PairsOf(c.lines), k);
    if k > 0 {
      assert Repeat(c, k) == Repeat(c, k - 1) + [c];
      AllPairsAppend(Repeat(c, k - 1), [c]);
      assert PairLists([c]) == [PairsOf(c.lines)];
      assert Flatten([PairsOf(c.lines)]) == Flatten<Pair>([]) + PairsOf(c.lines);
    }
  }

  /** Three records whose middle text is blank give no pair: each candidate
      has a blank side. */
  lemma BlankMiddleLine()
    ensures var lines := [map[TextKey := "Hi\n"], map[TextKey := "  \n"], map[TextKey := "Bye\n"]];
            HasTexts(lines) && PairsOf(lines) == []
  {
    var lines := [map[TextKey := "Hi\n"], map[TextKey := "  \n"], map[TextKey := "Bye\n"]];
    assert Readable(lines, 2);
    StripRemovesSpace("  \n");
    assert AllSpace("  \n");
    assert Utterance(lines[1]) == [];
    assert !Keeps(Candidate(lines, 0)) && !Keeps(Candidate(lines, 1));
    assert PairsUpTo(lines, 1) == [];
  }
}

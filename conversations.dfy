/** The conversation assembler (loadconv): every line of the conversations
    file is split and bound like a record line, the record ids embedded in its
    utteranceIDs field are extracted with the pattern L[0-9]+, and each id is
    resolved against the record table. */
module Conversations {
  import opened Base
  import opened Text
  import opened Records

  /** The field holding the serialized list of record ids. */
  const UtteranceIdsKey: string := "utteranceIDs"

  /** The key the resolved records are stored under in a conversation object. */
  const LinesKey: string := "lines"

  // ---------------------------------------------------------------------
  // The id scanner: re.compile('L[0-9]+').findall(s)

  predicate IsDigit(c: char)
  {
    '0' <= c <= '9'
  }

  /** The length of the longest run of digits at the start of s. */
  function DigitRun(s: string): (n: nat)
    ensures n <= |s|
    ensures forall k :: 0 <= k < n ==> IsDigit(s[k])
    ensures n == |s| || !IsDigit(s[n])
  {
    if s != [] && IsDigit(s[0]) then 1 + DigitRun(s[1..]) else 0
  }

  /** t has the shape L[0-9]+. */
  predicate IsLineId(t: string)
  {
    |t| >= 2 && t[0] == 'L' && forall k :: 1 <= k < |t| ==> IsDigit(t[k])
  }

  /** A match of L[0-9]+ starts at the first character of s. */
  predicate StartsId(s: string)
  {
    |s| >= 2 && s[0] == 'L' && IsDigit(s[1])
  }

  /** The matches of L[0-9]+ in s, found from left to right, each as long as
      possible, none overlapping the one before. */
  function ScanIds(s: string): (ids: seq<string>)
    ensures forall k :: 0 <= k < |ids| ==> IsLineId(ids[k])
    decreases |s|
  {
    if s == [] then []
    else if StartsId(s) then
      var n := 1 + DigitRun(s[1..]);
      [s[..n]] + ScanIds(s[n..])
    else ScanIds(s[1..])
  }

  /** The text around the matches: before the first, between each two, after
      the last. */
  ghost function Gaps(s: string): (gaps: seq<string>)
    ensures |gaps| == |ScanIds(s)| + 1
    decreases |s|
  {
    if s == [] then [[]]
    else if StartsId(s) then
      var n := 1 + DigitRun(s[1..]);
      [[]] + Gaps(s[n..])
    else
      var rest := Gaps(s[1..]);
      [[s[0]] + rest[0]] + rest[1..]
  }

  /** gaps[0] + ids[0] + gaps[1] + ... + ids[|ids| - 1] + gaps[|ids|]. */
  ghost function Interleave(gaps: seq<string>, ids: seq<string>): string
    requires |gaps| == |ids| + 1
  {
    if ids == [] then gaps[0] else gaps[0] + ids[0] + Interleave(gaps[1..], ids[1..])
  }

  /** No match of L[0-9]+ starts anywhere inside g. */
  ghost predicate NoIdIn(g: string)
  {
    forall k :: 0 <= k < |g| - 1 ==> !(g[k] == 'L' && IsDigit(g[k + 1]))
  }

  lemma InterleaveConsHead(x: string, gaps: seq<string>, ids: seq<string>)
    requires |gaps| == |ids| + 1
    ensures Interleave([x + gaps[0]] + gaps[1..], ids) == x + Interleave(gaps, ids)
  {
    var gs := [x + gaps[0]] + gaps[1..];
    assert gs[1..] == gaps[1..];
  }

  /** The first gap is a prefix of s. */
  lemma {:induction false} FirstGapIsPrefix(s: string)
    ensures |Gaps(s)[0]| <= |s| && Gaps(s)[0] == s[..|Gaps(s)[0]|]
    decreases |s|
  {
    if s != [] && !StartsId(s) {
      FirstGapIsPrefix(s[1..]);
    }
  }

  lemma InterleaveCons(g0: string, id: string, gaps: seq<string>, ids: seq<string>)
    requires |gaps| == |ids| + 1
    ensures Interleave([g0] + gaps, [id] + ids) == g0 + id + Interleave(gaps, ids)
  {
    assert ([g0] + gaps)[1..] == gaps;
    assert ([id] + ids)[1..] == ids;
  }

  /** The matches interleaved with the gaps give back s. */
  lemma {:induction false} GapsInterleave(s: string)
    ensures s == Interleave(Gaps(s), ScanIds(s))
    decreases |s|
  {
    if s == [] {
    } else if StartsId(s) {
      var n := 1 + DigitRun(s[1..]);
      var token, rest := s[..n], s[n..];
      GapsInterleave(rest);
      InterleaveCons([], token, Gaps(rest), ScanIds(rest));
      assert [] + token == token;
      assert s == token + rest;
    } else {
      var rest := s[1..];
      GapsInterleave(rest);
      assert ScanIds(s) == ScanIds(rest);
      assert Gaps(s) == [[s[0]] + Gaps(rest)[0]] + Gaps(rest)[1..];
      InterleaveConsHead([s[0]], Gaps(rest), ScanIds(rest));
      assert s == [s[0]] + rest;
    }
  }

  /** No gap contains the start of a match. */
  lemma {:induction false} GapsHoldNoId(s: string)
    ensures forall k :: 0 <= k < |Gaps(s)| ==> NoIdIn(Gaps(s)[k])
    decreases |s|
  {
    if s == [] {
    } else if StartsId(s) {
      var n := 1 + DigitRun(s[1..]);
      GapsHoldNoId(s[n..]);
      assert Gaps(s) == [[]] + Gaps(s[n..]);
    } else {
      GapsHoldNoId(s[1..]);
      FirstGapIsPrefix(s[1..]);
      var g := Gaps(s[1..]);
      var head := [s[0]] + g[0];
      assert Gaps(s) == [head] + g[1..];
      assert head == s[..|head|];
      assert NoIdIn(head) by {
        forall k | 0 <= k < |head| - 1 ensures !(head[k] == 'L' && IsDigit(head[k + 1])) {
          if k > 0 {
            assert head[k] == g[0][k - 1] && head[k + 1] == g[0][k];
          }
        }
      }
    }
  }

  /** No gap after a match starts with a digit, so every match is as long as
      it can be. */
  lemma {:induction false} GapsAfterMatches(s: string)
    ensures forall k :: 1 <= k < |Gaps(s)| ==> Gaps(s)[k] == [] || !IsDigit(Gaps(s)[k][0])
    decreases |s|
  {
    if s == [] {
    } else if StartsId(s) {
      var n := 1 + DigitRun(s[1..]);
      var rest := s[n..];
      GapsAfterMatches(rest);
      FirstGapIsPrefix(rest);
      var g := Gaps(rest);
      assert Gaps(s) == [[]] + g;
      if n < |s| {
        assert s[1..][n - 1] == s[n];
      }
      forall k | 1 <= k < |Gaps(s)| ensures Gaps(s)[k] == [] || !IsDigit(Gaps(s)[k][0]) {
        assert Gaps(s)[k] == g[k - 1];
        if k == 1 && g[0] != [] {
          assert g[0][0] == rest[0] == s[n];
        }
      }
    } else {
      GapsAfterMatches(s[1..]);
      var g := Gaps(s[1..]);
      forall k | 1 <= k < |Gaps(s)| ensures Gaps(s)[k] == [] || !IsDigit(Gaps(s)[k][0]) {
        assert Gaps(s)[k] == g[k];
      }
    }
  }

  /** The scanner's output is exactly the sequence of matches of findall: s
      is the matches interleaved with gaps, no gap contains the start of a
      match, and no gap after a match starts with a digit (which would have
      extended that match). */
  lemma ScanIdsDecomposes(s: string)
    ensures s == Interleave(Gaps(s), ScanIds(s))
    ensures forall k :: 0 <= k < |ScanIds(s)| ==> IsLineId(ScanIds(s)[k])
    ensures forall k :: 0 <= k < |Gaps(s)| ==> NoIdIn(Gaps(s)[k])
    ensures forall k :: 1 <= k < |Gaps(s)| ==> Gaps(s)[k] == [] || !IsDigit(Gaps(s)[k][0])
  {
    GapsInterleave(s);
    GapsHoldNoId(s);
    GapsAfterMatches(s);
  }

  /** Scanning is compositional across a character that can neither be nor
      extend part of a match. */
  lemma {:induction false} ScanIdsAppend(x: string, y: string)
    requires x != [] && x[|x| - 1] != 'L' && !IsDigit(x[|x| - 1])
    ensures ScanIds(x + y) == ScanIds(x) + ScanIds(y)
    decreases |x|
  {
    var xy := x + y;
    if |x| == 1 {
      assert !StartsId(xy);
      assert xy[1..] == y;
    } else if StartsId(x) {
      assert StartsId(xy);
      assert xy[1..] == x[1..] + y;
      DigitRunAppend(x[1..], y);
      var n := 1 + DigitRun(x[1..]);
      assert n < |x|;
      assert xy[..n] == x[..n];
      assert xy[n..] == x[n..] + y;
      ScanIdsAppend(x[n..], y);
    } else {
      assert xy[..2] == x[..2];
      assert !StartsId(xy);
      assert xy[1..] == x[1..] + y;
      ScanIdsAppend(x[1..], y);
    }
  }

  lemma {:induction false} DigitRunAppend(u: string, y: string)
    requires u != [] && !IsDigit(u[|u| - 1])
    ensures DigitRun(u + y) == DigitRun(u) < |u|
    decreases |u|
  {
    if IsDigit(u[0]) {
      assert (u + y)[1..] == u[1..] + y;
      DigitRunAppend(u[1..], y);
    }
  }

  /** A whole id followed by a character that is not a digit is scanned as
      that one id. */
  lemma ScanOneId(id: string, c: char)
    requires IsLineId(id) && !IsDigit(c) && c != 'L'
    ensures ScanIds(id + [c]) == [id]
  {
    var s := id + [c];
    assert StartsId(s);
    assert s[1..] == id[1..] + [c];
    DigitRunOfDigits(id[1..], c);
    assert s[..|id|] == id;
    assert s[|id|..] == [c];
    assert ScanIds([c]) == [] by {
      assert !StartsId([c]);
      assert [c][1..] == [];
    }
  }

  lemma {:induction false} DigitRunOfDigits(u: string, c: char)
    requires (forall k :: 0 <= k < |u| ==> IsDigit(u[k])) && !IsDigit(c)
    ensures DigitRun(u + [c]) == |u|
    decreases |u|
  {
    if u != [] {
      assert (u + [c])[1..] == u[1..] + [c];
      DigitRunOfDigits(u[1..], c);
    }
  }

  /** Python's str() of a list of strings free of quotes and backslashes:
      ['L194', 'L195']. This is how the corpus serializes id lists. */
  function RenderList(ids: seq<string>): string
  {
    "[" + RenderItems(ids) + "]"
  }

  function RenderItems(ids: seq<string>): string
  {
    if ids == [] then ""
    else if |ids| == 1 then "'" + ids[0] + "'"
    else "'" + ids[0] + "', " + RenderItems(ids[1..])
  }

  /** Text without an 'L' holds no match. */
  lemma {:induction false} ScanIdsWithoutL(s: string)
    requires forall k :: 0 <= k < |s| ==> s[k] != 'L'
    ensures ScanIds(s) == []
    decreases |s|
  {
    if s != [] {
      ScanIdsWithoutL(s[1..]);
    }
  }

  /** A quoted id contributes exactly that id. */
  lemma ScanQuotedId(id: string, tail: string)
    requires IsLineId(id)
    ensures ScanIds("'" + id + "'" + tail) == [id] + ScanIds(tail)
  {
    var item := id + "'";
    ScanOneId(id, '\'');
    ScanIdsAppend(item, tail);
    assert "'" + id + "'" + tail == "'" + (item + tail);
    ScanIdsAppend("'", item + tail);
    ScanIdsWithoutL("'");
  }

  lemma {:induction false} ScanRenderedItems(ids: seq<string>)
    requires forall k :: 0 <= k < |ids| ==> IsLineId(ids[k])
    ensures ScanIds(RenderItems(ids)) == ids
    ensures ids != [] ==> RenderItems(ids)[|RenderItems(ids)| - 1] == '\''
    decreases |ids|
  {
    if |ids| == 1 {
      ScanQuotedId(ids[0], "");
      assert RenderItems(ids) == "'" + ids[0] + "'" + "";
    } else if |ids| > 1 {
      var tail := RenderItems(ids[1..]);
      ScanRenderedItems(ids[1..]);
      ScanQuotedId(ids[0], ", " + tail);
      assert RenderItems(ids) == "'" + ids[0] + "'" + (", " + tail);
      ScanIdsAppend(", ", tail);
      ScanIdsWithoutL(", ");
      assert ids == [ids[0]] + ids[1..];
    }
  }

  /** Round trip: the scanner recovers a serialized id list, including the
      line's trailing newline, in its literal order. */
  lemma ScanRenderedList(ids: seq<string>)
    requires forall k :: 0 <= k < |ids| ==> IsLineId(ids[k])
    ensures ScanIds(RenderList(ids) + "\n") == ids
  {
    var items := RenderItems(ids);
    ScanRenderedItems(ids);
    ScanIdsWithoutL("]\n");
    if items != [] {
      ScanIdsAppend(items, "]\n");
      assert items + "]" + "\n" == items + "]\n";
    } else {
      assert items + "]" + "\n" == "]\n";
    }
    assert RenderList(ids) + "\n" == "[" + (items + "]" + "\n");
    ScanIdsAppend("[", items + "]" + "\n");
    ScanIdsWithoutL("[");
  }

  // ---------------------------------------------------------------------
  // Resolution and the conversation objects

  /** The records the ids name, in the ids' order; a KeyError naming the
      first id that has no record. */
  function Resolve(ids: seq<string>, records: map<string, Record>): (r: Result<seq<Record>>)
    ensures r.Ok? <==> forall k :: 0 <= k < |ids| ==> ids[k] in records
    ensures r.Ok? ==> |r.value| == |ids| && forall k :: 0 <= k < |ids| ==> r.value[k] == records[ids[k]]
    ensures r.Err? ==> exists k :: 0 <= k < |ids| && r.fault == KeyError(ids[k]) && ids[k] !in records &&
                                   forall j :: 0 <= j < k ==> ids[j] in records
    decreases |ids|
  {
    if ids == [] then Ok([])
    else if ids[0] !in records then Err(KeyError(ids[0]))
    else
      match Resolve(ids[1..], records)
      case Err(e) => Err(e)
      case Ok(rest) => Ok([records[ids[0]]] + rest)
  }

  /** A conversation as a value: its bound fields (all but the one the
      resolved records replace) and its resolved records. */
  datatype Conversation = Conversation(fields: map<string, string>, lines: seq<Record>)

  /** The ids a well-formed conversation line refers to. */
  function IdsOf(line: string, fields: seq<string>): seq<string>
    requires WellFormed(line, fields)
    requires UtteranceIdsKey in fields
  {
    ScanIds(BindFields(fields, Pieces(line))[UtteranceIdsKey])
  }

  /** The fully built conversation object of line number n, or the fault its
      processing raises (langproc.py:57-68). */
  function ParseConversation(line: string, records: map<string, Record>, fields: seq<string>, n: nat): Result<Conversation>
  {
    if !WellFormed(line, fields) then Err(IndexError(n))
    else
      var bound := BindFields(fields, Pieces(line));
      if UtteranceIdsKey !in bound then Err(KeyError(UtteranceIdsKey))
      else
        match Resolve(ScanIds(bound[UtteranceIdsKey]), records)
        case Err(e) => Err(e)
        case Ok(lines) => Ok(Conversation(bound - {LinesKey}, lines))
  }

  /** One element of the list loadconv returns: the conversation object and
      the number of the input line that created it. Two elements are the same
      Python object exactly when their line numbers agree. */
  datatype Entry = Entry(conversation: Conversation, lineNumber: nat)

  /** What loadconv returns: the first fault, or, line by line, the line's
      conversation once for every id it resolved (the append at
      langproc.py:69 sits inside the loop over the ids). */
  function Assemble(file: seq<string>, records: map<string, Record>, fields: seq<string>): Result<seq<Entry>>
    decreases |file|
  {
    if file == [] then Ok([])
    else
      var n := |file| - 1;
      match Assemble(file[..n], records, fields)
      case Err(e) => Err(e)
      case Ok(prev) =>
        match ParseConversation(file[n], records, fields, n)
        case Err(e) => Err(e)
        case Ok(c) => Ok(prev + Repeat(Entry(c, n), |c.lines|))
  }

  /** A conversation dictionary of the source: its fields are bound once, its
      list of resolved records grows in place while the same object is
      appended to the output. */
  class ConversationObject {
    var fields: map<string, string>
    var lines: seq<Record>

    constructor (fields: map<string, string>)
      ensures this.fields == fields && lines == []
    {
      this.fields := fields;
      lines := [];
    }

    function Value(): Conversation
      reads this
    {
      Conversation(fields, lines)
    }
  }

  lemma {:induction false} AssembleFaultSticks(file: seq<string>, records: map<string, Record>, fields: seq<string>, k: nat)
    requires k <= |file| && Assemble(file[..k], records, fields).Err?
    ensures Assemble(file, records, fields) == Assemble(file[..k], records, fields)
    decreases |file| - k
  {
    if k == |file| {
      assert file[..k] == file;
    } else {
      assert file[..k + 1][..k] == file[..k];
      AssembleFaultSticks(file, records, fields, k + 1);
    }
  }

  /** loadconv succeeds exactly when every line yields its conversation, and
      otherwise raises the fault of the first line that does not. */
  lemma {:induction false} AssembleFaults(file: seq<string>, records: map<string, Record>, fields: seq<string>)
    ensures Assemble(file, records, fields).Ok? <==>
              forall i :: 0 <= i < |file| ==> ParseConversation(file[i], records, fields, i).Ok?
    ensures Assemble(file, records, fields).Err? ==>
              exists i :: 0 <= i < |file| && ParseConversation(file[i], records, fields, i) == Err(Assemble(file, records, fields).fault) &&
                forall j :: 0 <= j < i ==> ParseConversation(file[j], records, fields, j).Ok?
    decreases |file|
  {
    if file != [] {
      var n := |file| - 1;
      var prefix := file[..n];
      AssembleFaults(prefix, records, fields);
      assert forall i :: 0 <= i < n ==> prefix[i] == file[i];
      if Assemble(prefix, records, fields).Err? {
        var i :| 0 <= i < n && ParseConversation(prefix[i], records, fields, i) == Err(Assemble(prefix, records, fields).fault) &&
          forall j :: 0 <= j < i ==> ParseConversation(prefix[j], records, fields, j).Ok?;
        assert ParseConversation(file[i], records, fields, i) == Err(Assemble(file, records, fields).fault);
      }
    }
  }

  /** The line numbers of the entries, in order. */
  function LineNumbers(entries: seq<Entry>): (ns: seq<nat>)
    ensures |ns| == |entries| && forall k :: 0 <= k < |entries| ==> ns[k] == entries[k].lineNumber
  {
    seq(|entries|, k requires 0 <= k < |entries| => entries[k].lineNumber)
  }

  lemma LineNumbersAppend(entries: seq<Entry>, e: Entry, m: nat)
    ensures LineNumbers(entries + Repeat(e, m)) == LineNumbers(entries) + Repeat(e.lineNumber, m)
  {
  }

  /** One step of a successful load: the last line yields its conversation,
      appended once per resolved id after the entries of the lines before. */
  lemma AssembleLast(file: seq<string>, records: map<string, Record>, fields: seq<string>)
    requires Assemble(file, records, fields).Ok? && file != []
    ensures Assemble(file[..|file| - 1], records, fields).Ok?
    ensures ParseConversation(file[|file| - 1], records, fields, |file| - 1).Ok?
    ensures var c := ParseConversation(file[|file| - 1], records, fields, |file| - 1).value;
            Assemble(file, records, fields).value ==
              Assemble(file[..|file| - 1], records, fields).value + Repeat(Entry(c, |file| - 1), |c.lines|)
  {
  }

  /** On success every entry is the conversation of the line it names. */
  lemma {:induction false} AssembleOrigins(file: seq<string>, records: map<string, Record>, fields: seq<string>)
    requires Assemble(file, records, fields).Ok?
    ensures forall k :: 0 <= k < |Assemble(file, records, fields).value| ==>
              var e := Assemble(file, records, fields).value[k];
              e.lineNumber < |file| && ParseConversation(file[e.lineNumber], records, fields, e.lineNumber) == Ok(e.conversation)
    decreases |file|
  {
    if file != [] {
      var n := |file| - 1;
      var prefix := file[..n];
      AssembleLast(file, records, fields);
      AssembleOrigins(prefix, records, fields);
      var prev := Assemble(prefix, records, fields).value;
      var es := Assemble(file, records, fields).value;
      forall k | 0 <= k < |es|
        ensures es[k].lineNumber < |file| && ParseConversation(file[es[k].lineNumber], records, fields, es[k].lineNumber) == Ok(es[k].conversation)
      {
        if k < |prev| {
          assert es[k] == prev[k];
          assert prefix[prev[k].lineNumber] == file[prev[k].lineNumber];
        }
      }
    }
  }

  /** On success the entries come in the order of the lines. */
  lemma {:induction false} AssembleOrdered(file: seq<string>, records: map<string, Record>, fields: seq<string>)
    requires Assemble(file, records, fields).Ok?
    ensures forall k :: 0 <= k < |Assemble(file, records, fields).value| ==>
              Assemble(file, records, fields).value[k].lineNumber < |file|
    ensures forall k, l :: 0 <= k <= l < |Assemble(file, records, fields).value| ==>
              Assemble(file, records, fields).value[k].lineNumber <= Assemble(file, records, fields).value[l].lineNumber
    decreases |file|
  {
    if file != [] {
      var n := |file| - 1;
      AssembleLast(file, records, fields);
      AssembleOrdered(file[..n], records, fields);
      var prev := Assemble(file[..n], records, fields).value;
      var es := Assemble(file, records, fields).value;
      assert forall k :: 0 <= k < |prev| ==> es[k] == prev[k];
      assert forall k :: |prev| <= k < |es| ==> es[k].lineNumber == n;
    }
  }

  /** A conversation line that parses is well formed, names the utteranceIDs
      field, and resolves one record per id. */
  lemma ParseConversationIds(line: string, records: map<string, Record>, fields: seq<string>, n: nat)
    requires ParseConversation(line, records, fields, n).Ok?
    ensures WellFormed(line, fields) && UtteranceIdsKey in fields
    ensures |ParseConversation(line, records, fields, n).value.lines| == |IdsOf(line, fields)|
  {
  }

  /** On success line n contributes exactly as many entries as it resolved
      records. */
  lemma {:induction false} AssembleCounts(file: seq<string>, records: map<string, Record>, fields: seq<string>)
    requires Assemble(file, records, fields).Ok?
    ensures forall n :: 0 <= n < |file| ==>
              ParseConversation(file[n], records, fields, n).Ok? &&
              multiset(LineNumbers(Assemble(file, records, fields).value))[n] ==
                |ParseConversation(file[n], records, fields, n).value.lines|
    decreases |file|
  {
    if file != [] {
      var n: nat := |file| - 1;
      var prefix := file[..n];
      AssembleLast(file, records, fields);
      AssembleCounts(prefix, records, fields);
      AssembleOrdered(prefix, records, fields);
      var prev := Assemble(prefix, records, fields).value;
      var c := ParseConversation(file[n], records, fields, n).value;
      CountsStep(file, records, fields, prev, c);
    }
  }

  /** If the entries of the lines before the last count each line's records,
      the last line's copies appended after them do so for the whole file. */
  lemma CountsStep(file: seq<string>, records: map<string, Record>, fields: seq<string>, prev: seq<Entry>, c: Conversation)
    requires file != []
    requires ParseConversation(file[|file| - 1], records, fields, |file| - 1) == Ok(c)
    requires forall k :: 0 <= k < |prev| ==> prev[k].lineNumber < |file| - 1
    requires forall i :: 0 <= i < |file| - 1 ==>
               ParseConversation(file[..|file| - 1][i], records, fields, i).Ok? &&
               multiset(LineNumbers(prev))[i] == |ParseConversation(file[..|file| - 1][i], records, fields, i).value.lines|
    ensures forall i :: 0 <= i < |file| ==>
              ParseConversation(file[i], records, fields, i).Ok? &&
              multiset(LineNumbers(prev + Repeat(Entry(c, |file| - 1), |c.lines|)))[i] ==
                |ParseConversation(file[i], records, fields, i).value.lines|
  {
    var n := |file| - 1;
    CopiesAfterAppend(prev, Entry(c, n), |c.lines|);
    var es := prev + Repeat(Entry(c, n), |c.lines|);
    forall i | 0 <= i < |file|
      ensures ParseConversation(file[i], records, fields, i).Ok? &&
              multiset(LineNumbers(es))[i] == |ParseConversation(file[i], records, fields, i).value.lines|
    {
      if i < n {
        assert file[..n][i] == file[i];
        assert multiset(LineNumbers(es))[i] == multiset(LineNumbers(prev))[i];
      } else {
        assert multiset(LineNumbers(es))[n] == |c.lines|;
      }
    }
  }

  /** The duplicate-append behaviour: on success line n contributes exactly
      as many entries as its utteranceIDs field holds ids, so a line with k
      ids gives k entries of its one object and a line with none gives none. */
  lemma AssembleCopies(file: seq<string>, records: map<string, Record>, fields: seq<string>, n: nat)
    requires Assemble(file, records, fields).Ok? && n < |file|
    ensures WellFormed(file[n], fields) && UtteranceIdsKey in fields
    ensures multiset(LineNumbers(Assemble(file, records, fields).value))[n] == |IdsOf(file[n], fields)|
  {
    AssembleCounts(file, records, fields);
    ParseConversationIds(file[n], records, fields, n);
  }

  /** Appending m entries of a new, larger line number counts m for that line
      and leaves every other line's count alone. */
  lemma CopiesAfterAppend(prev: seq<Entry>, e: Entry, m: nat)
    requires forall k :: 0 <= k < |prev| ==> prev[k].lineNumber < e.lineNumber
    ensures multiset(LineNumbers(prev + Repeat(e, m)))[e.lineNumber] == m
    ensures forall i :: i != e.lineNumber ==>
              multiset(LineNumbers(prev + Repeat(e, m)))[i] == multiset(LineNumbers(prev))[i]
  {
    LineNumbersAppend(prev, e, m);
    MultisetRepeat(e.lineNumber, m);
    assert e.lineNumber !in LineNumbers(prev);
  }

  /** One successful line of loadconv extends the assembled entries by that
      line's conversation, once per resolved id. */
  lemma AssembleStep(file: seq<string>, records: map<string, Record>, fields: seq<string>, i: nat,
                     entries: seq<Entry>, c: Conversation)
    requires i < |file| && Assemble(file[..i], records, fields) == Ok(entries)
    requires ParseConversation(file[i], records, fields, i) == Ok(c)
    ensures Assemble(file[..i + 1], records, fields) == Ok(entries + Repeat(Entry(c, i), |c.lines|))
  {
    assert file[..i + 1][..i] == file[..i];
  }

  /** A line that raises makes the whole prefix up to it raise the same. */
  lemma AssembleStepFault(file: seq<string>, records: map<string, Record>, fields: seq<string>, i: nat)
    requires i < |file| && Assemble(file[..i], records, fields).Ok?
    requires ParseConversation(file[i], records, fields, i).Err?
    ensures Assemble(file[..i + 1], records, fields) == Err(ParseConversation(file[i], records, fields, i).fault)
  {
    assert file[..i + 1][..i] == file[..i];
  }

  /** The inner loop of loadconv (langproc.py:67-69): each id's record is
      appended to the object's list, and the object itself to the output, or
      a KeyError names the first id without a record. */
  method ResolveInto(conversation: ConversationObject, lineIds: seq<string>, records: map<string, Record>,
                     conversations: seq<ConversationObject>)
    returns (r: Result<seq<ConversationObject>>)
    requires conversation.lines == []
    modifies conversation
    ensures conversation.fields == old(conversation.fields)
    ensures r.Err? <==> Resolve(lineIds, records).Err?
    ensures r.Err? ==> r.fault == Resolve(lineIds, records).fault
    ensures r.Ok? ==> conversation.lines == Resolve(lineIds, records).value
    ensures r.Ok? ==> r.value == conversations + Repeat(conversation, |lineIds|)
  {
    var appended := conversations;
    for j := 0 to |lineIds|
      invariant conversation.fields == old(conversation.fields)
      invariant |conversation.lines| == j
      invariant forall t :: 0 <= t < j ==> lineIds[t] in records && conversation.lines[t] == records[lineIds[t]]
      invariant appended == conversations + Repeat(conversation, j)
    {
      if lineIds[j] !in records {
        assert Resolve(lineIds, records).fault == KeyError(lineIds[j]);
        return Err(KeyError(lineIds[j]));
      }
      conversation.lines := conversation.lines + [records[lineIds[j]]];
      appended := appended + [conversation];
      assert Repeat(conversation, j + 1) == Repeat(conversation, j) + [conversation];
    }
    return Ok(appended);
  }

  /** Appending m copies of a fresh object for line i keeps "same object
      exactly when same line" (used by loadconv's outer loop). */
  lemma SameObjectSameLine(objects: seq<ConversationObject>, entries: seq<Entry>, o: ConversationObject,
                           c: Conversation, i: nat, m: nat)
    requires |objects| == |entries|
    requires forall k :: 0 <= k < |entries| ==> entries[k].lineNumber < i
    requires forall k :: 0 <= k < |objects| ==> objects[k] != o
    requires forall k, l :: 0 <= k < |entries| && 0 <= l < |entries| ==>
               (objects[k] == objects[l] <==> entries[k].lineNumber == entries[l].lineNumber)
    ensures forall k, l :: 0 <= k < |entries| + m && 0 <= l < |entries| + m ==>
              ((objects + Repeat(o, m))[k] == (objects + Repeat(o, m))[l] <==>
               (entries + Repeat(Entry(c, i), m))[k].lineNumber == (entries + Repeat(Entry(c, i), m))[l].lineNumber)
  {
    var os, es := objects + Repeat(o, m), entries + Repeat(Entry(c, i), m);
    forall k, l | 0 <= k < |entries| + m && 0 <= l < |entries| + m
      ensures os[k] == os[l] <==> es[k].lineNumber == es[l].lineNumber
    {
      if k >= |entries| && l < |entries| {
        assert os[k] == o != objects[l] == os[l];
      } else if k < |entries| && l >= |entries| {
        assert os[l] == o != objects[k] == os[k];
      }
    }
  }

  /** The body of loadconv's loop for line number n (langproc.py:56-69):
      bind the fields, scan the ids, create the conversation object and
      append it once per resolved id. */
  method LoadConversationLine(line: string, records: map<string, Record>, fields: seq<string>, n: nat,
                              conversations: seq<ConversationObject>)
    returns (conversation: ConversationObject, r: Result<seq<ConversationObject>>)
    ensures fresh(conversation)
    ensures r.Err? <==> ParseConversation(line, records, fields, n).Err?
    ensures r.Err? ==> r.fault == ParseConversation(line, records, fields, n).fault
    ensures r.Ok? ==> conversation.Value() == ParseConversation(line, records, fields, n).value
    ensures r.Ok? ==> r.value == conversations + Repeat(conversation, |conversation.lines|)
  {
    var parsed := BindLine(line, fields, n);
    if parsed.Err? {
      conversation := new ConversationObject(map[]);
      return conversation, Err(parsed.fault);
    }
    var bound := parsed.value;
    if UtteranceIdsKey !in bound {
      conversation := new ConversationObject(bound);
      return conversation, Err(KeyError(UtteranceIdsKey));
    }
    var lineIds := ScanIds(bound[UtteranceIdsKey]);
    conversation := new ConversationObject(bound - {LinesKey});
    r := ResolveInto(conversation, lineIds, records, conversations);
  }

  /** loadconv (langproc.py:53-70) over the lines of the file. The result
      lists are the assembled entries, and two positions hold the same object
      exactly when they came from the same input line. */
  method LoadConversations(file: seq<string>, records: map<string, Record>, fields: seq<string>)
    returns (r: Result<seq<ConversationObject>>)
    ensures r.Err? <==> Assemble(file, records, fields).Err?
    ensures r.Err? ==> r.fault == Assemble(file, records, fields).fault
    ensures r.Ok? ==> |r.value| == |Assemble(file, records, fields).value|
    ensures r.Ok? ==> forall k :: 0 <= k < |r.value| ==>
              r.value[k].Value() == Assemble(file, records, fields).value[k].conversation
    ensures r.Ok? ==> forall k, l :: 0 <= k < |r.value| && 0 <= l < |r.value| ==>
              (r.value[k] == r.value[l] <==>
               Assemble(file, records, fields).value[k].lineNumber == Assemble(file, records, fields).value[l].lineNumber)
  {
    var conversations: seq<ConversationObject> := [];
    ghost var entries: seq<Entry> := [];
    for i := 0 to |file|
      invariant Assemble(file[..i], records, fields) == Ok(entries)
      invariant |conversations| == |entries|
      invariant forall k :: 0 <= k < |entries| ==> entries[k].lineNumber < i
      invariant forall k :: 0 <= k < |entries| ==> conversations[k].Value() == entries[k].conversation
      invariant forall k, l :: 0 <= k < |entries| && 0 <= l < |entries| ==>
                  (conversations[k] == conversations[l] <==> entries[k].lineNumber == entries[l].lineNumber)
    {
      assert file[..i + 1][..i] == file[..i];
      var conversation, extended := LoadConversationLine(file[i], records, fields, i, conversations);
      if extended.Err? {
        AssembleStepFault(file, records, fields, i);
        AssembleFaultSticks(file, records, fields, i + 1);
        return Err(extended.fault);
      }
      ghost var c := ParseConversation(file[i], records, fields, i).value;
      AssembleStep(file, records, fields, i, entries, c);
      SameObjectSameLine(conversations, entries, conversation, c, i, |c.lines|);
      conversations := extended.value;
      entries := entries + Repeat(Entry(c, i), |c.lines|);
    }
    assert file[..|file|] == file;
    return Ok(conversations);
  }
}

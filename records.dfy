/** The record loader (loadlns): every line of the movie-lines file is split on
    the field delimiter, its pieces are bound to the field names, and the
    record is stored under its lineID. The file is given as the sequence of
    lines Python's file iteration yields, each still carrying its '\n'. */
module Records {
  import opened Base
  import opened Text

  /** The field delimiter of both corpus files. */
  const Delimiter: string := " +++$+++ "

  /** The key every record is indexed by. */
  const LineIdKey: string := "lineID"

  /** One parsed line: field name to field value. */
  type Record = map<string, string>

  /** Binds the i-th field name to the i-th piece, one dictionary assignment
      after the other (langproc.py:45-47). */
  function BindFields(fields: seq<string>, values: seq<string>): (r: Record)
    requires |fields| <= |values|
    ensures r.Keys == set f | f in fields
    decreases |fields|
  {
    if fields == [] then map[]
    else
      var n := |fields| - 1;
      BindFields(fields[..n], values)[fields[n] := values[n]]
  }

  /** The field name at position i is bound to the i-th piece unless the name
      occurs again later, in which case the later assignment wins. */
  lemma {:induction false} BindFieldsAt(fields: seq<string>, values: seq<string>, i: nat)
    requires |fields| <= |values|
    requires i < |fields|
    requires forall j :: i < j < |fields| ==> fields[j] != fields[i]
    ensures BindFields(fields, values)[fields[i]] == values[i]
    decreases |fields|
  {
    var n := |fields| - 1;
    if i < n {
      BindFieldsAt(fields[..n], values, i);
    }
  }

  /** The pieces of one line. */
  function Pieces(line: string): seq<string>
  {
    Split(line, Delimiter)
  }

  predicate WellFormed(line: string, fields: seq<string>)
  {
    |fields| <= |Pieces(line)|
  }

  /** Parses line number n: an IndexError when it has too few pieces, a
      KeyError when no field is called lineID. */
  function ParseRecord(line: string, fields: seq<string>, n: nat): Result<Record>
  {
    if !WellFormed(line, fields) then Err(IndexError(n))
    else
      var rec := BindFields(fields, Pieces(line));
      if LineIdKey !in rec then Err(KeyError(LineIdKey)) else Ok(rec)
  }

  /** What loadlns returns for the lines of file: the first fault, or the map
      from lineID to record built line by line. */
  function RecordTable(file: seq<string>, fields: seq<string>): Result<map<string, Record>>
    decreases |file|
  {
    if file == [] then Ok(map[])
    else
      var n := |file| - 1;
      match RecordTable(file[..n], fields)
      case Err(e) => Err(e)
      case Ok(table) =>
        match ParseRecord(file[n], fields, n)
        case Err(e) => Err(e)
        case Ok(rec) => Ok(table[rec[LineIdKey] := rec])
  }

  /** The field-binding loop shared by loadlns and loadconv
      (langproc.py:45-47 and 59-61): field by field, raising an IndexError
      once the pieces run out. */
  method BindLine(line: string, fields: seq<string>, n: nat) returns (r: Result<Record>)
    ensures r == if WellFormed(line, fields) then Ok(BindFields(fields, Pieces(line))) else Err(IndexError(n))
  {
    var values := Split(line, Delimiter);
    var lineObject: Record := map[];
    for index := 0 to |fields|
      invariant index <= |values|
      invariant lineObject == BindFields(fields[..index], values)
    {
      if index >= |values| {
        return Err(IndexError(n));
      }
      assert fields[..index + 1][..index] == fields[..index];
      lineObject := lineObject[fields[index] := values[index]];
    }
    assert fields[..|fields|] == fields;
    return Ok(lineObject);
  }

  /** loadlns (langproc.py:39-49) over the lines of the file. */
  method LoadLines(file: seq<string>, fields: seq<string>) returns (r: Result<map<string, Record>>)
    ensures r == RecordTable(file, fields)
  {
    var lines: map<string, Record> := map[];
    for i := 0 to |file|
      invariant RecordTable(file[..i], fields) == Ok(lines)
    {
      assert file[..i + 1][..i] == file[..i];
      var bound := BindLine(file[i], fields, i);
      if bound.Err? {
        RecordTableFaultSticks(file, fields, i + 1);
        return Err(bound.fault);
      }
      var lineObject := bound.value;
      if LineIdKey !in lineObject {
        RecordTableFaultSticks(file, fields, i + 1);
        return Err(KeyError(LineIdKey));
      }
      lines := lines[lineObject[LineIdKey] := lineObject];
    }
    assert file[..|file|] == file;
    return Ok(lines);
  }

  // ---------------------------------------------------------------------
  // Properties of the record table

  /** The lineID of a record line that parses. */
  function KeyOf(line: string, fields: seq<string>): string
    requires WellFormed(line, fields)
    requires LineIdKey in fields
  {
    BindFields(fields, Pieces(line))[LineIdKey]
  }

  /** loadlns succeeds exactly when every line parses, and otherwise raises
      the fault of the first line that does not. */
  lemma {:induction false} RecordTableFaults(file: seq<string>, fields: seq<string>)
    ensures RecordTable(file, fields).Ok? <==> forall i :: 0 <= i < |file| ==> ParseRecord(file[i], fields, i).Ok?
    ensures RecordTable(file, fields).Err? ==>
              exists i :: 0 <= i < |file| && ParseRecord(file[i], fields, i) == Err(RecordTable(file, fields).fault) &&
                forall j :: 0 <= j < i ==> ParseRecord(file[j], fields, j).Ok?
    decreases |file|
  {
    if file != [] {
      var n := |file| - 1;
      RecordTableFaults(file[..n], fields);
      assert forall i :: 0 <= i < n ==> file[..n][i] == file[i];
      if RecordTable(file[..n], fields).Err? {
        var i :| 0 <= i < n && ParseRecord(file[..n][i], fields, i) == Err(RecordTable(file[..n], fields).fault) &&
          forall j :: 0 <= j < i ==> ParseRecord(file[..n][j], fields, j).Ok?;
        assert ParseRecord(file[i], fields, i) == Err(RecordTable(file, fields).fault);
      }
    }
  }

  /** A fault raised by the first k lines is the fault of the whole file. */
  lemma {:induction false} RecordTableFaultSticks(file: seq<string>, fields: seq<string>, k: nat)
    requires k <= |file| && RecordTable(file[..k], fields).Err?
    ensures RecordTable(file, fields) == RecordTable(file[..k], fields)
    decreases |file| - k
  {
    if k == |file| {
      assert file[..k] == file;
    } else {
      assert file[..k + 1][..k] == file[..k];
      RecordTableFaultSticks(file, fields, k + 1);
    }
  }

  /** One step of a successful load: the last line's record is stored over
      the table of the lines before it. */
  lemma RecordTableStep(file: seq<string>, fields: seq<string>)
    requires RecordTable(file, fields).Ok? && file != []
    ensures RecordTable(file[..|file| - 1], fields).Ok?
    ensures WellFormed(file[|file| - 1], fields) && LineIdKey in fields
    ensures RecordTable(file, fields).value ==
              RecordTable(file[..|file| - 1], fields).value[KeyOf(file[|file| - 1], fields) := BindFields(fields, Pieces(file[|file| - 1]))]
  {
  }

  /** On success every line is well formed, a field is called lineID, and
      the lineID of every line is a key of the table. */
  lemma {:induction false} RecordTableKeys(file: seq<string>, fields: seq<string>)
    requires RecordTable(file, fields).Ok?
    ensures file != [] ==> LineIdKey in fields
    ensures forall i :: 0 <= i < |file| ==> WellFormed(file[i], fields)
    ensures forall i :: 0 <= i < |file| ==> KeyOf(file[i], fields) in RecordTable(file, fields).value
    decreases |file|
  {
    if file != [] {
      var n := |file| - 1;
      var prefix := file[..n];
      RecordTableStep(file, fields);
      RecordTableKeys(prefix, fields);
      assert forall i :: 0 <= i < n ==> prefix[i] == file[i];
    }
  }

  /** On success every key of the table is the lineID of some line. */
  lemma {:induction false} RecordTableKeysFromLines(file: seq<string>, fields: seq<string>)
    requires RecordTable(file, fields).Ok?
    ensures forall i :: 0 <= i < |file| ==> WellFormed(file[i], fields)
    ensures forall k :: k in RecordTable(file, fields).value ==>
              LineIdKey in fields && exists i :: 0 <= i < |file| && KeyOf(file[i], fields) == k
    decreases |file|
  {
    RecordTableKeys(file, fields);
    if file != [] {
      var n := |file| - 1;
      var prefix := file[..n];
      RecordTableStep(file, fields);
      RecordTableKeysFromLines(prefix, fields);
      assert forall i :: 0 <= i < n ==> prefix[i] == file[i];
      var table := RecordTable(file, fields).value;
      forall k | k in table ensures exists i :: 0 <= i < |file| && KeyOf(file[i], fields) == k {
        if k != KeyOf(file[n], fields) {
          var i :| 0 <= i < n && KeyOf(prefix[i], fields) == k;
          assert KeyOf(file[i], fields) == k;
        }
      }
    }
  }

  /** On success the entry for the lineID of line i is line i's record,
      unless a later line carries the same lineID: a later line overwrites an
      earlier one. */
  lemma {:induction false} RecordTableLastWins(file: seq<string>, fields: seq<string>, i: nat)
    requires RecordTable(file, fields).Ok?
    requires i < |file|
    requires LineIdKey in fields && forall j :: 0 <= j < |file| ==> WellFormed(file[j], fields)
    requires forall j :: i < j < |file| ==> KeyOf(file[j], fields) != KeyOf(file[i], fields)
    ensures KeyOf(file[i], fields) in RecordTable(file, fields).value
    ensures RecordTable(file, fields).value[KeyOf(file[i], fields)] == BindFields(fields, Pieces(file[i]))
    decreases |file|
  {
    RecordTableKeys(file, fields);
    RecordTableStep(file, fields);
    var n := |file| - 1;
    var prefix := file[..n];
    assert forall j :: 0 <= j < n ==> prefix[j] == file[j];
    if i < n {
      RecordTableLastWins(prefix, fields, i);
    }
  }

  /** The delimiter overlaps itself: in a line where two occurrences share a
      space, str.split takes the leftmost one, and the second piece keeps the
      rest of the other occurrence. */
  lemma SplitOverlappingDelimiter()
    ensures OccursAt(" +++$+++ +++$+++ ", Delimiter, 0)
    ensures OccursAt(" +++$+++ +++$+++ ", Delimiter, 8)
    ensures Split(" +++$+++ +++$+++ ", Delimiter) == ["", "+++$+++ "]
  {
    var s := " +++$+++ +++$+++ ";
    assert s[..9] == Delimiter;
    assert s[9..] == "+++$+++ ";
  }
}

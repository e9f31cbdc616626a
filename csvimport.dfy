/**
  The upload component's reading of a file: a CSV parser with no quoting
  (the first line names the columns, every later non-blank line is one
  record) and the choice between JSON and CSV by file name, with the
  unwrapping of `{ data: [...] }`.
 */
module CsvImport {
  import opened Wrappers
  import opened Text
  import opened Json

  /** A parsed CSV line: column name to text. */
  type Record = map<string, string>

  /** `line.split(",").map(v => v.trim())`. */
  function Fields(line: string): (r: seq<string>)
    ensures |r| == |Split(line, ',')| >= 1
    ensures forall i :: 0 <= i < |r| ==> r[i] == Trim(Split(line, ',')[i]) && ',' !in r[i]
  {
    var parts := Split(line, ',');
    var r := seq(|parts|, i requires 0 <= i < |parts| => Trim(parts[i]));
    forall i | 0 <= i < |r| ensures ',' !in r[i] {
      TrimInside(parts[i], ',');
    }
    r
  }

  /** Trimming only removes characters. */
  lemma TrimInside(s: string, c: char)
    requires c !in s
    ensures c !in Trim(s)
  {
    var t := TrimStart(s);
    assert forall k :: 0 <= k < |t| ==> t[k] == s[|s| - |t| + k];
    var r := TrimEnd(t);
    assert forall k :: 0 <= k < |r| ==> r[k] == t[k];
  }

  /** `values[index] || ""`. */
  function CellAt(values: seq<string>, index: nat): string {
    if index < |values| then values[index] else ""
  }

  /** The record `headers.forEach` fills: each header set in turn, so a repeated header keeps its last value. */
  function RecordOf(headers: seq<string>, values: seq<string>): (r: Record)
    ensures r.Keys == set h | h in headers
    decreases |headers|
  {
    if headers == [] then map[]
    else
      var n := |headers| - 1;
      var r := RecordOf(headers[..n], values)[headers[n] := CellAt(values, n)];
      assert forall h :: h in headers <==> h in headers[..n] || h == headers[n];
      r
  }

  /** A header that does not come again later gets the value in its own column. */
  lemma {:induction false} RecordOfValue(headers: seq<string>, values: seq<string>, i: nat)
    requires i < |headers| && forall j :: i < j < |headers| ==> headers[j] != headers[i]
    ensures RecordOf(headers, values)[headers[i]] == CellAt(values, i)
    decreases |headers|
  {
    var n := |headers| - 1;
    if i < n {
      RecordOfValue(headers[..n], values, i);
    }
  }

  /** No value of a record holds a comma: there is no quoting. */
  lemma {:induction false} RecordOfNoComma(headers: seq<string>, line: string)
    ensures forall h :: h in RecordOf(headers, Fields(line)) ==> ',' !in RecordOf(headers, Fields(line))[h]
    decreases |headers|
  {
    if headers != [] {
      RecordOfNoComma(headers[..|headers| - 1], line);
    }
  }

  /** A line that is empty after trimming is skipped. */
  predicate Blank(line: string) {
    Trim(line) == ""
  }

  /** The records of the data lines, in line order, blank lines skipped. */
  function Records(headers: seq<string>, lines: seq<string>): seq<Record>
    decreases |lines|
  {
    if lines == [] then []
    else
      var n := |lines| - 1;
      Records(headers, lines[..n]) + (if Blank(lines[n]) then [] else [RecordOf(headers, Fields(lines[n]))])
  }

  /** The non-blank lines, in order. */
  function Kept(lines: seq<string>): (r: seq<string>)
    ensures |r| <= |lines|
    ensures forall x :: x in r <==> x in lines && !Blank(x)
    decreases |lines|
  {
    if lines == [] then []
    else
      var n := |lines| - 1;
      assert forall x :: x in lines <==> x in lines[..n] || x == lines[n];
      Kept(lines[..n]) + (if Blank(lines[n]) then [] else [lines[n]])
  }

  /** `parseCSV(text)`: nothing when there are fewer than two lines, else one record per non-blank data line. */
  function CsvRecords(text: string): seq<Record> {
    var lines := Split(text, '\n');
    if |lines| < 2 then [] else Records(Fields(lines[0]), lines[1..])
  }

  /** The `headers.forEach` that fills one record. */
  method FillRecord(headers: seq<string>, values: seq<string>) returns (obj: Record)
    ensures obj == RecordOf(headers, values)
  {
    obj := map[];
    var j := 0;
    while j < |headers|
      invariant 0 <= j <= |headers|
      invariant obj == RecordOf(headers[..j], values)
    {
      assert headers[..j + 1][..j] == headers[..j];
      obj := obj[headers[j] := CellAt(values, j)];
      j := j + 1;
    }
    assert headers[..j] == headers;
  }

  /** One more data line adds its record, unless it is blank. */
  lemma RecordsStep(headers: seq<string>, lines: seq<string>, i: nat)
    requires 1 <= i < |lines|
    ensures Records(headers, lines[1..i + 1])
      == Records(headers, lines[1..i]) + (if Blank(lines[i]) then [] else [RecordOf(headers, Fields(lines[i]))])
  {
    assert lines[1..i + 1][..i - 1] == lines[1..i];
    assert lines[1..i + 1][i - 1] == lines[i];
  }

  /** `parseCSV`: the loop over the data lines. */
  method ParseCsv(text: string) returns (result: seq<Record>)
    ensures result == CsvRecords(text)
  {
    var lines := Split(text, '\n');
    if |lines| < 2 {
      return [];
    }
    var headers := Fields(lines[0]);
    result := [];
    var i := 1;
    while i < |lines|
      invariant 1 <= i <= |lines|
      invariant result == Records(headers, lines[1..i])
    {
      RecordsStep(headers, lines, i);
      if !Blank(lines[i]) {
        var obj := FillRecord(headers, Fields(lines[i]));
        result := result + [obj];
      }
      i := i + 1;
    }
    assert lines[1..i] == lines[1..];
  }

  /** The records are exactly those of the non-blank data lines, in order. */
  lemma {:induction false} RecordsOfKept(headers: seq<string>, lines: seq<string>)
    ensures var r := Records(headers, lines);
      && |r| == |Kept(lines)|
      && forall k :: 0 <= k < |r| ==> r[k] == RecordOf(headers, Fields(Kept(lines)[k]))
    decreases |lines|
  {
    if lines != [] {
      RecordsOfKept(headers, lines[..|lines| - 1]);
    }
  }

  /**
    One record of the line: keyed by exactly the header fields, each header
    that does not come again later holding the trimmed field in its column
    ("" for a short line), and no value holding a comma.
   */
  ghost predicate RecordOfLine(headers: seq<string>, line: string, r: Record) {
    && r.Keys == (set h | h in headers)
    && (forall i :: 0 <= i < |headers| && (forall j :: i < j < |headers| ==> headers[j] != headers[i]) ==>
          r[headers[i]] == CellAt(Fields(line), i))
    && (forall h :: h in r ==> ',' !in r[h])
  }

  lemma RecordShape(headers: seq<string>, line: string)
    ensures RecordOfLine(headers, line, RecordOf(headers, Fields(line)))
  {
    var r := RecordOf(headers, Fields(line));
    forall i | 0 <= i < |headers| && (forall j :: i < j < |headers| ==> headers[j] != headers[i])
      ensures r[headers[i]] == CellAt(Fields(line), i)
    {
      RecordOfValue(headers, Fields(line), i);
    }
    RecordOfNoComma(headers, line);
  }

  /**
    What `parseCSV` promises: fewer than two lines give nothing; otherwise
    one record per non-blank data line, in order, each the record of its
    line under the trimmed header fields.
   */
  lemma CsvShape(text: string)
    ensures var lines := Split(text, '\n');
      && (|lines| < 2 ==> CsvRecords(text) == [])
      && (|lines| >= 2 ==>
            var r := CsvRecords(text);
            && |r| == |Kept(lines[1..])|
            && forall k :: 0 <= k < |r| ==> RecordOfLine(Fields(lines[0]), Kept(lines[1..])[k], r[k]))
  {
    var lines := Split(text, '\n');
    if |lines| >= 2 {
      var headers := Fields(lines[0]);
      RecordsOfKept(headers, lines[1..]);
      var r := CsvRecords(text);
      forall k | 0 <= k < |r| ensures RecordOfLine(headers, Kept(lines[1..])[k], r[k]) {
        RecordShape(headers, Kept(lines[1..])[k]);
      }
    }
  }

  /** A record as the JSON object the upload hands on: every value a string. */
  function RecordJson(r: Record): (j: Json)
    ensures j.Obj? && j.fields.Keys == r.Keys
    ensures forall h :: h in r ==> j.fields[h] == Str(r[h])
  {
    Obj(map h | h in r :: Str(r[h]))
  }

  function RecordsJson(rs: seq<Record>): (r: seq<Json>)
    ensures |r| == |rs| && forall i :: 0 <= i < |rs| ==> r[i] == RecordJson(rs[i])
  {
    seq(|rs|, i requires 0 <= i < |rs| => RecordJson(rs[i]))
  }

  /** What reading a file gives: the records handed to the page, or the message of the error shown. */
  datatype Loaded = Loaded(items: seq<Json>) | Failed(message: string)

  const NotAnArray := "JSON file must contain an array of objects"
  const Unsupported := "Unsupported file format"

  /**
    `handleFileChange` once the file is read. `parsed` is what `JSON.parse`
    gives for the content (None when it throws), and `thrown` the message
    of an error the JavaScript engine throws (a parse error, or reading
    `data` of `null`).
   */
  function Load(fileName: string, content: string, parsed: Option<Json>, thrown: string): (r: Loaded)
    ensures IsSuffix(".json", fileName) ==>
      && (parsed.Some? && parsed.value.Arr? ==> r == Loaded(parsed.value.items))
      && (parsed.Some? && parsed.value.Obj? && Member(parsed.value, "data").Some? && Member(parsed.value, "data").value.Arr? ==>
            r == Loaded(Member(parsed.value, "data").value.items))
      && (r.Loaded? ==> parsed.Some? && (parsed.value.Arr? || parsed.value.Obj?))
      && (parsed.None? || parsed.value.Null? ==> r == Failed(thrown))
    ensures !IsSuffix(".json", fileName) && IsSuffix(".csv", fileName) ==> r == Loaded(RecordsJson(CsvRecords(content)))
    ensures !IsSuffix(".json", fileName) && !IsSuffix(".csv", fileName) ==> r == Failed(Unsupported)
  {
    if IsSuffix(".json", fileName) then
      match parsed
      case None => Failed(thrown)
      case Some(j) =>
        if j.Arr? then Loaded(j.items)
        else if j.Null? then Failed(thrown)
        else
          var data := Member(j, "data");
          if data.Some? && Truthy(data.value) && data.value.Arr? then Loaded(data.value.items)
          else Failed(NotAnArray)
    else if IsSuffix(".csv", fileName) then Loaded(RecordsJson(CsvRecords(content)))
    else Failed(Unsupported)
  }

  /** JSON that is neither an array nor an object holding one under `data` is refused with the fixed message. */
  lemma LoadRefusesOtherJson(fileName: string, content: string, j: Json, thrown: string)
    requires IsSuffix(".json", fileName)
    requires !j.Arr? && !j.Null? && !(j.Obj? && "data" in j.fields && j.fields["data"].Arr?)
    ensures Load(fileName, content, Some(j), thrown) == Failed(NotAnArray)
  {
  }
}

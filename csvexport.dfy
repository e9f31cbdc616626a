/**
  The CSV download the data table and the SQL editor share: a header line
  joined by ",", then one line per row with the cells in column order,
  string cells wrapped in double quotes without escaping, every line ending
  in a newline.
 */
module CsvExport {
  import opened Wrappers
  import opened Text
  import opened Json

  /** A row as the browser holds it: a JSON object's members. */
  type Row = map<string, Json>

  /** `row[key]`: undefined (None) when the row has no such member. */
  function Cell(row: Row, key: string): Option<Json> {
    if key in row then Some(row[key]) else None
  }

  /**
    A value as it lands in the line: a string in double quotes, `null` and
    `undefined` empty (as `join` writes them), anything else as `String(v)`.
   */
  function CsvCell(v: Option<Json>): (r: string)
    ensures v.Some? && v.value.Str? ==> r == "\"" + v.value.s + "\""
    ensures v.None? || v.value.Null? ==> r == ""
  {
    match v
    case None => ""
    case Some(Null) => ""
    case Some(Str(s)) => "\"" + s + "\""
    case Some(j) => JsString(j)
  }

  /** `keys.map(k => quoted(row[k])).join(",")`. */
  function CsvLine(keys: seq<string>, row: Row): string {
    Join(seq(|keys|, i requires 0 <= i < |keys| => CsvCell(Cell(row, keys[i]))), ",")
  }

  /** The row lines, each followed by a newline, in row order. */
  function RowLines(keys: seq<string>, rows: seq<Row>): string
    decreases |rows|
  {
    if rows == [] then ""
    else RowLines(keys, rows[..|rows| - 1]) + CsvLine(keys, rows[|rows| - 1]) + "\n"
  }

  /** The whole file: the header line, then the rows. */
  function Document(header: seq<string>, keys: seq<string>, rows: seq<Row>): string {
    Join(header, ",") + "\n" + RowLines(keys, rows)
  }

  /** The export loop: the header line, then `output +=` one line per row. */
  method Export(header: seq<string>, keys: seq<string>, rows: seq<Row>) returns (output: string)
    ensures output == Document(header, keys, rows)
  {
    output := Join(header, ",") + "\n";
    var i := 0;
    while i < |rows|
      invariant 0 <= i <= |rows|
      invariant output == Join(header, ",") + "\n" + RowLines(keys, rows[..i])
    {
      RowLinesStep(Join(header, ",") + "\n", keys, rows, i);
      output := output + CsvLine(keys, rows[i]) + "\n";
      i := i + 1;
    }
    assert rows[..i] == rows;
  }

  /** Appending the next row's line to what precedes the first rows gives what precedes one row more. */
  lemma RowLinesStep(prefix: string, keys: seq<string>, rows: seq<Row>, i: nat)
    requires i < |rows|
    ensures prefix + RowLines(keys, rows[..i]) + CsvLine(keys, rows[i]) + "\n" == prefix + RowLines(keys, rows[..i + 1])
  {
    assert rows[..i + 1][..i] == rows[..i];
    var before := RowLines(keys, rows[..i]);
    var line := CsvLine(keys, rows[i]) + "\n";
    assert prefix + before + CsvLine(keys, rows[i]) + "\n" == prefix + (before + line);
  }

  /** The line of each row, in row order. */
  function Lines(keys: seq<string>, rows: seq<Row>): (r: seq<string>)
    ensures |r| == |rows| && forall i :: 0 <= i < |rows| ==> r[i] == CsvLine(keys, rows[i])
  {
    seq(|rows|, i requires 0 <= i < |rows| => CsvLine(keys, rows[i]))
  }

  /** Adding a part at the end of a join adds the separator and the part. */
  lemma {:induction false} JoinSnoc(parts: seq<string>, x: string, sep: string)
    requires |parts| >= 1
    ensures Join(parts + [x], sep) == Join(parts, sep) + sep + x
    decreases |parts|
  {
    if |parts| > 1 {
      JoinSnoc(parts[1..], x, sep);
      assert (parts + [x])[1..] == parts[1..] + [x];
    }
  }

  /** Each line followed by a newline. */
  function Terminated(lines: seq<string>): string
    decreases |lines|
  {
    if lines == [] then "" else Terminated(lines[..|lines| - 1]) + lines[|lines| - 1] + "\n"
  }

  /** The row lines are the rows' lines, each terminated. */
  lemma {:induction false} RowLinesTerminated(keys: seq<string>, rows: seq<Row>)
    ensures RowLines(keys, rows) == Terminated(Lines(keys, rows))
    decreases |rows|
  {
    if rows != [] {
      var n := |rows| - 1;
      RowLinesTerminated(keys, rows[..n]);
      assert Lines(keys, rows)[..n] == Lines(keys, rows[..n]);
    }
  }

  /** A head line and terminated lines are the lines joined by newlines, with an empty last line. */
  lemma {:induction false} TerminatedIsJoin(head: string, lines: seq<string>)
    ensures head + "\n" + Terminated(lines) == Join([head] + lines + [""], "\n")
    decreases |lines|
  {
    if lines == [] {
      JoinSnoc([head], "", "\n");
    } else {
      var n := |lines| - 1;
      var before := [head] + lines[..n];
      TerminatedIsJoin(head, lines[..n]);
      JoinSnoc(before, "", "\n");
      JoinSnoc(before, lines[n], "\n");
      JoinSnoc(before + [lines[n]], "", "\n");
      assert before + [lines[n]] == [head] + lines;
      calc {
        head + "\n" + Terminated(lines);
        head + "\n" + (Terminated(lines[..n]) + lines[n] + "\n");
        (head + "\n" + Terminated(lines[..n])) + lines[n] + "\n";
        Join(before, "\n") + "\n" + lines[n] + "\n";
        Join(before + [lines[n]], "\n") + "\n";
        Join(before + [lines[n]] + [""], "\n");
      }
    }
  }

  /**
    Read back by splitting on newlines, a file whose cells hold no newline
    gives the header line, then each row's line in row order, then nothing.
   */
  lemma ExportLines(header: seq<string>, keys: seq<string>, rows: seq<Row>)
    requires '\n' !in Join(header, ",")
    requires forall i :: 0 <= i < |rows| ==> '\n' !in CsvLine(keys, rows[i])
    ensures Split(Document(header, keys, rows), '\n') == [Join(header, ",")] + Lines(keys, rows) + [""]
  {
    var parts := [Join(header, ",")] + Lines(keys, rows) + [""];
    RowLinesTerminated(keys, rows);
    TerminatedIsJoin(Join(header, ","), Lines(keys, rows));
    forall i | 0 <= i < |parts| ensures '\n' !in parts[i] {
      if 1 <= i <= |rows| {
        assert parts[i] == CsvLine(keys, rows[i - 1]);
      }
    }
    SplitJoin(parts, '\n');
  }
}

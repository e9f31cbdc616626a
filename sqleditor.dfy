/**
  The SQL editor panel: the statement being edited, the last result or
  error, the loading flag, the blank-statement guard, clearing, the CSV
  download of a result and how a result cell is displayed.
 */
module SqlEditor {
  import opened Wrappers
  import opened Text
  import opened Json
  import opened CsvExport

  /** What POST /api/query answers: the column names and the rows (the timing is not modelled). */
  datatype QueryResult = QueryResult(columns: seq<string>, rows: seq<Row>, message: string)

  /** How the request ends: the parsed result, or the message of the error it throws. */
  datatype QueryResponse = Answered(result: QueryResult) | Refused(message: string)

  class Editor {
    var sql: string
    var result: Option<QueryResult>
    var error: Option<string>
    var isLoading: bool

    constructor(initialQuery: string)
      ensures sql == initialQuery && result == None && error == None && !isLoading
    {
      sql := initialQuery;
      result := None;
      error := None;
      isLoading := false;
    }

    /**
      `executeQuery`: a blank statement sends nothing and changes nothing;
      otherwise the request is sent (`response` is how it ends), the error
      is cleared, and the result or the error is kept once loading is over.
     */
    method Execute(response: QueryResponse) returns (sent: bool)
      modifies this
      ensures sent <==> Trim(old(sql)) != ""
      ensures !sent ==> sql == old(sql) && result == old(result) && error == old(error) && isLoading == old(isLoading)
      ensures sent ==> sql == old(sql) && !isLoading
      ensures sent && response.Answered? ==> result == Some(response.result) && error == None
      ensures sent && response.Refused? ==> result == old(result) && error == Some(response.message)
    {
      if Trim(sql) == "" {
        return false;
      }
      isLoading := true;
      error := None;
      match response {
        case Answered(r) => result := Some(r);
        case Refused(m) => error := Some(m);
      }
      isLoading := false;
      return true;
    }

    /** `clearQuery`: empty statement, no result, no error. */
    method Clear()
      modifies this
      ensures sql == "" && result == None && error == None
      ensures isLoading == old(isLoading)
    {
      sql := "";
      result := None;
      error := None;
    }

    /**
      The CSV branch of `handleExport`: nothing without a result or with
      no rows; otherwise the column names, then every row in column order.
     */
    method ExportCsv() returns (output: Option<string>)
      ensures output.None? <==> result.None? || result.value.rows == []
      ensures output.Some? ==>
        output.value == Document(result.value.columns, result.value.columns, result.value.rows)
    {
      if result.None? || result.value.rows == [] {
        return None;
      }
      var text := Export(result.value.columns, result.value.columns, result.value.rows);
      output := Some(text);
    }
  }

  /** A result cell on screen: "NULL" for null or a missing column, `String(v)` otherwise. */
  function Display(v: Option<Json>): (r: string)
    ensures v.None? || v.value.Null? ==> r == "NULL"
    ensures v.Some? && v.value.Str? ==> r == v.value.s
  {
    if v.None? || v.value.Null? then "NULL" else JsString(v.value)
  }

  /**
    The screen and the download agree except in two ways: the download
    wraps strings in quotes, and writes null and missing cells as nothing
    where the screen writes "NULL".
   */
  lemma DisplayAgainstExport(v: Option<Json>)
    ensures v.None? || v.value.Null? ==> Display(v) == "NULL" && CsvCell(v) == ""
    ensures v.Some? && v.value.Str? ==> CsvCell(v) == "\"" + Display(v) + "\""
    ensures v.Some? && !v.value.Null? && !v.value.Str? ==> CsvCell(v) == Display(v)
  {
  }
}

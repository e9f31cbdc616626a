/**
  JSON values as they reach the server (request bodies) and the browser
  (query results, uploaded files), with the JavaScript coercions the code
  applies to them: truthiness (`if (x)`, `x || d`) and `String(x)`.
  Numbers are integers only.
 */
module Json {
  import opened Wrappers
  import opened Text

  datatype Json =
    | Null
    | Bool(b: bool)
    | Num(n: int)
    | Str(s: string)
    | Arr(items: seq<Json>)
    | Obj(fields: map<string, Json>)

  /** JavaScript truthiness: `null`, `false`, `0` and `""` are falsy. */
  predicate Truthy(j: Json) {
    match j
    case Null => false
    case Bool(b) => b
    case Num(n) => n != 0
    case Str(s) => s != ""
    case _ => true
  }

  /** `j.key`: the member of an object, `undefined` (None) otherwise. */
  function Member(j: Json, key: string): (r: Option<Json>)
    ensures r.Some? <==> (j.Obj? && key in j.fields)
  {
    if j.Obj? && key in j.fields then Some(j.fields[key]) else None
  }

  /** `x || d` on a possibly undefined value. */
  function OrDefault(v: Option<Json>, d: Json): (r: Json)
    ensures v.Some? && Truthy(v.value) ==> r == v.value
    ensures !(v.Some? && Truthy(v.value)) ==> r == d
  {
    if v.Some? && Truthy(v.value) then v.value else d
  }

  /** `String(j)`; an array renders its elements joined by ",", `null` ones as "". */
  function JsString(j: Json): string
    decreases j
  {
    match j
    case Null => "null"
    case Bool(b) => if b then "true" else "false"
    case Num(n) => IntText(n)
    case Str(s) => s
    case Arr(items) =>
      Join(seq(|items|, i requires 0 <= i < |items| => if items[i].Null? then "" else JsString(items[i])), ",")
    case Obj(_) => "[object Object]"
  }

  /** A string value is its own text, and only falsy values can render as "" among scalars. */
  lemma JsStringScalar(j: Json)
    requires !j.Arr? && !j.Obj?
    ensures j.Str? ==> JsString(j) == j.s
    ensures JsString(j) == "" ==> j == Str("")
  {
    if j.Num? {
      assert |IntText(j.n)| >= 1;
    }
  }
}

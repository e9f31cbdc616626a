/**
  Requests and replies as the Express handlers see them, and the JSON the
  handlers send for the stored rows.
 */
module Http {
  import opened Wrappers
  import opened Text
  import opened Json
  import opened Schema

  datatype Verb = Get | Post | Put | Delete

  /** A request: verb, path (without the query string), query parameters and parsed JSON body. */
  datatype Request = Request(verb: Verb, path: string, query: map<string, string>, body: Json)

  /** `res.json(...)`, `res.sendStatus(...)` (a status text) or `res.send()` (nothing). */
  datatype Body = NoBody | JsonBody(value: Json) | TextBody(text: string)

  datatype Reply = Reply(status: int, body: Body)

  /** `res.status(status).json({ message })`. */
  function MessageReply(status: int, message: string): (r: Reply)
    ensures r.status == status && r.body.JsonBody?
    ensures Member(r.body.value, "message") == Some(Str(message))
  {
    Reply(status, JsonBody(Obj(map["message" := Str(message)])))
  }

  /** The text `res.sendStatus` writes for the statuses the server sends that way. */
  function StatusText(status: int): string {
    if status == 200 then "OK"
    else if status == 400 then "Bad Request"
    else if status == 401 then "Unauthorized"
    else IntText(status)
  }

  function StatusReply(status: int): Reply {
    Reply(status, TextBody(StatusText(status)))
  }

  // ---------------------------------------------------------------------------
  // Rows as JSON

  function OptionalJson<T>(v: Option<T>, enc: T -> Json): Json {
    if v.Some? then enc(v.value) else Json.Null
  }

  function UserRecord(u: User): Json {
    Obj(map["id" := Num(u.id), "username" := Str(u.username), "password" := Str(u.password),
            "email" := Str(u.email), "maincro" := Str(u.maincro)])
  }

  function SubcroRecord(s: Subcro): Json {
    Obj(map["id" := Num(s.id), "maincro" := Str(s.maincro), "subcro" := Str(s.subcro),
            "label" := OptionalJson(s.labelText, (t: string) => Str(t)),
            "flagcro" := OptionalJson(s.flagcro, (n: int) => Num(n)),
            "webcallback" := OptionalJson(s.webcallback, (n: int) => Num(n))])
  }

  function HotelRecord(h: Hotel): Json {
    Obj(map["codeHotel" := Str(h.codeHotel), "subcroId" := Num(h.subcroId)])
  }

  function HotelViewRecord(v: HotelViewRow): Json {
    Obj(map["codeHotel" := Str(v.codeHotel), "subcroId" := Num(v.subcroId),
            "subcro" := Str(v.subcro), "maincro" := Str(v.maincro)])
  }

  function UserViewRecord(v: UserViewRow): Json {
    Obj(map["id" := Num(v.id), "email" := Str(v.email), "maincro" := Str(v.maincro), "subcro" := Str(v.subcro)])
  }

  /** `res.json(rows)`. */
  function ListJson<T>(rows: seq<T>, enc: T -> Json): (r: Json)
    ensures r.Arr? && |r.items| == |rows|
    ensures forall i :: 0 <= i < |rows| ==> r.items[i] == enc(rows[i])
  {
    Arr(seq(|rows|, i requires 0 <= i < |rows| => enc(rows[i])))
  }

  /** The JSON the client sends for a row is read back by the insert schema as that row. */
  lemma RecordsReadBack(h: Hotel, s: Subcro)
    ensures ParseInsertHotel(HotelRecord(h)) == Some(h)
    ensures var d := ParseInsertSubcro(SubcroRecord(s));
      && d.Some? && d.value.maincro == s.maincro && d.value.subcro == s.subcro
      && Initial(d.value.labelText) == s.labelText && Initial(d.value.flagcro) == s.flagcro
      && Initial(d.value.webcallback) == s.webcallback
  {
    var j := SubcroRecord(s);
    assert Member(j, "maincro") == Some(Str(s.maincro));
    assert Member(j, "subcro") == Some(Str(s.subcro));
    assert Member(j, "label") == Some(OptionalJson(s.labelText, (t: string) => Str(t)));
    assert Member(j, "flagcro") == Some(OptionalJson(s.flagcro, (n: int) => Num(n)));
    assert Member(j, "webcallback") == Some(OptionalJson(s.webcallback, (n: int) => Num(n)));
  }
}

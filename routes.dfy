/**
  The API routes in the order the server registers them (the four
  authentication routes first, then the table routes), Express's
  first-match routing over them, and each handler's checks before it
  touches storage: the session check, the `:id` parse, the body schema.
  A handler either answers at once or names the storage call it makes.
 */
module Routes {
  import opened Wrappers
  import opened Text
  import opened Json
  import opened Schema
  import opened Http
  import Storage

  // ---------------------------------------------------------------------------
  // The route table

  /** A path segment of a route: literal text, or a `:name` parameter (one or more characters). */
  datatype Segment = Lit(text: string) | Param(name: string)

  datatype Handler =
    | Register | Login | Logout | CurrentUser
    | ListHotels | GetHotel | CreateHotel | UpdateHotel | DeleteHotel
    | ListSubcros | GetSubcro | CreateSubcro | UpdateSubcro | DeleteSubcro
    | HotelView | UserView | RunQuery | Maincros | SubcrosByMaincro | AvailableCodes
    | AllUsers | UpdateUser | DeleteUser | BulkUsers | BulkSubcros

  datatype Route = Route(verb: Verb, pattern: seq<Segment>, handler: Handler)

  /**
    The routes in registration order. A pattern lists the parts of its path:
    the leading "" is the part before the first "/".
   */
  const RouteTable: seq<Route> := [
    Route(Post, [Lit(""), Lit("api"), Lit("register")], Register),
    Route(Post, [Lit(""), Lit("api"), Lit("login")], Login),
    Route(Post, [Lit(""), Lit("api"), Lit("logout")], Logout),
    Route(Get, [Lit(""), Lit("api"), Lit("user")], CurrentUser),
    Route(Get, [Lit(""), Lit("api"), Lit("hotel")], ListHotels),
    Route(Get, [Lit(""), Lit("api"), Lit("hotel"), Param("codeHotel")], GetHotel),
    Route(Post, [Lit(""), Lit("api"), Lit("hotel")], CreateHotel),
    Route(Put, [Lit(""), Lit("api"), Lit("hotel"), Param("codeHotel")], UpdateHotel),
    Route(Delete, [Lit(""), Lit("api"), Lit("hotel"), Param("codeHotel")], DeleteHotel),
    Route(Get, [Lit(""), Lit("api"), Lit("subcro")], ListSubcros),
    Route(Get, [Lit(""), Lit("api"), Lit("subcro"), Param("id")], GetSubcro),
    Route(Post, [Lit(""), Lit("api"), Lit("subcro")], CreateSubcro),
    Route(Put, [Lit(""), Lit("api"), Lit("subcro"), Param("id")], UpdateSubcro),
    Route(Delete, [Lit(""), Lit("api"), Lit("subcro"), Param("id")], DeleteSubcro),
    Route(Get, [Lit(""), Lit("api"), Lit("hotel-view")], HotelView),
    Route(Get, [Lit(""), Lit("api"), Lit("user-view")], UserView),
    Route(Post, [Lit(""), Lit("api"), Lit("query")], RunQuery),
    Route(Get, [Lit(""), Lit("api"), Lit("maincro")], Maincros),
    Route(Get, [Lit(""), Lit("api"), Lit("subcro"), Lit("list")], SubcrosByMaincro),
    Route(Get, [Lit(""), Lit("api"), Lit("hotel"), Lit("codes")], AvailableCodes),
    Route(Get, [Lit(""), Lit("api"), Lit("user"), Lit("all")], AllUsers),
    Route(Put, [Lit(""), Lit("api"), Lit("user"), Param("id")], UpdateUser),
    Route(Delete, [Lit(""), Lit("api"), Lit("user"), Param("id")], DeleteUser),
    Route(Post, [Lit(""), Lit("api"), Lit("user"), Lit("bulk")], BulkUsers),
    Route(Post, [Lit(""), Lit("api"), Lit("subcro"), Lit("bulk")], BulkSubcros)
  ]

  /** The parts of a path between its "/" characters. */
  function PathParts(path: string): seq<string> {
    Split(path, '/')
  }

  predicate SegmentMatches(s: Segment, part: string) {
    match s
    case Lit(t) => part == t
    case Param(_) => part != ""
  }

  predicate Matches(r: Route, verb: Verb, parts: seq<string>) {
    && r.verb == verb
    && |r.pattern| == |parts|
    && forall i :: 0 <= i < |parts| ==> SegmentMatches(r.pattern[i], parts[i])
  }

  /** The first route from position `i` on that matches: Express tries them in order. */
  function FindFrom(table: seq<Route>, verb: Verb, parts: seq<string>, i: nat): (r: Option<nat>)
    requires i <= |table|
    ensures r.Some? ==> i <= r.value < |table| && Matches(table[r.value], verb, parts)
    ensures r.Some? ==> forall j :: i <= j < r.value ==> !Matches(table[j], verb, parts)
    ensures r.None? ==> forall j :: i <= j < |table| ==> !Matches(table[j], verb, parts)
    decreases |table| - i
  {
    if i == |table| then None
    else if Matches(table[i], verb, parts) then Some(i)
    else FindFrom(table, verb, parts, i + 1)
  }

  /** The value of the route's parameter, which is always its last segment ("" for a route without one). */
  function ParamValue(pattern: seq<Segment>, parts: seq<string>): string
    requires |pattern| == |parts|
  {
    if pattern != [] && pattern[|pattern| - 1].Param? then parts[|parts| - 1] else ""
  }

  // ---------------------------------------------------------------------------
  // Decisions

  /** The storage operation a handler performs once its checks pass. */
  datatype Call =
    | RegisterCall(body: Json)
    | LoginCall(username: string, password: Option<string>)
    | LogoutCall
    | ListHotelsCall
    | GetHotelCall(code: string)
    | CreateHotelCall(hotel: Hotel)
    | UpdateHotelCall(code: string, hotel: Hotel)
    | DeleteHotelCall(code: string)
    | ListSubcrosCall
    | GetSubcroCall(id: int)
    | CreateSubcroCall(data: InsertSubcro)
    | UpdateSubcroCall(id: int, data: InsertSubcro)
    | DeleteSubcroCall(id: int)
    | HotelViewCall(maincro: Option<string>, subcroName: Option<string>)
    | UserViewCall(maincro: Option<string>, subcroName: Option<string>)
    | QueryCall(sql: string)
    | MaincrosCall
    | SubcrosByMaincroCall(wanted: string)
    | CodesCall
    | AllUsersCall
    | UpdateUserCall(id: int, patch: Storage.UserPatch)
    | DeleteUserCall(id: int)
    | BulkUsersCall(users: seq<InsertUser>)
    | BulkSubcrosCall(subcros: seq<InsertSubcro>)

  /** Answer now, make a storage call, or fall through to the client pages (no API route matched). */
  datatype Decision = Answer(reply: Reply) | Invoke(call: Call) | NotRouted

  function Unauthorized(): Reply { MessageReply(401, "Unauthorized") }

  /** The 400 a schema failure gives; the details `fromZodError` appends are not modelled. */
  function Invalid(): Reply { MessageReply(400, "Validation error") }

  function InvalidId(): Reply { MessageReply(400, "Invalid ID format") }

  /** `req.query.x as string | undefined`. */
  function QueryParam(q: map<string, string>, key: string): Option<string> {
    if key in q then Some(q[key]) else None
  }

  /** A string member of at least `lo` and at most `hi` characters (`z.string().min(lo).max(hi)`). */
  function Bounded(j: Json, key: string, lo: nat, hi: Option<nat>): (r: Option<string>)
    ensures r.Some? <==> StrMember(j, key).Some? && lo <= |StrMember(j, key).value|
                         && (hi.Some? ==> |StrMember(j, key).value| <= hi.value)
    ensures r.Some? ==> r == StrMember(j, key)
  {
    match StrMember(j, key)
    case Some(s) => if lo <= |s| && (hi.None? || |s| <= hi.value) then Some(s) else None
    case None => None
  }

  /** An element of the bulk user array: username 3-50, password 6 or more, an e-mail, maincro 1-10. */
  function BulkUser(j: Json, isEmail: string -> bool): (r: Option<InsertUser>)
    ensures r.Some? ==> 3 <= |r.value.username| <= 50 && |r.value.password| >= 6
                        && isEmail(r.value.email) && 1 <= |r.value.maincro| <= 10
  {
    match (Bounded(j, "username", 3, Some(50)), Bounded(j, "password", 6, None),
           StrMember(j, "email"), Bounded(j, "maincro", 1, Some(10)))
    case (Some(u), Some(p), Some(e), Some(m)) => if isEmail(e) then Some(InsertUser(u, p, e, m)) else None
    case _ => None
  }

  /** An optional member (`.optional()`): absent, or of the right kind; `null` is refused. */
  function OptionalMember<T>(j: Json, key: string, read: Json -> Option<T>): Option<Field<T>> {
    match Member(j, key)
    case None => Some(Absent)
    case Some(v) => if read(v).Some? then Some(Given(read(v).value)) else None
  }

  function ShortLabel(v: Json): Option<string> {
    if v.Str? && |v.s| <= 100 then Some(v.s) else None
  }

  function Number(v: Json): Option<int> {
    if v.Num? then Some(v.n) else None
  }

  /** An element of the bulk subcro array: maincro and subcro 1-10, optional label of at most 100, optional numbers. */
  function BulkSubcro(j: Json): (r: Option<InsertSubcro>)
    ensures r.Some? ==> 1 <= |r.value.maincro| <= 10 && 1 <= |r.value.subcro| <= 10
    ensures r.Some? ==> !r.value.labelText.NullValue? && !r.value.flagcro.NullValue? && !r.value.webcallback.NullValue?
    ensures r.Some? && r.value.labelText.Given? ==> |r.value.labelText.value| <= 100
  {
    match (Bounded(j, "maincro", 1, Some(10)), Bounded(j, "subcro", 1, Some(10)),
           OptionalMember(j, "label", ShortLabel), OptionalMember(j, "flagcro", Number),
           OptionalMember(j, "webcallback", Number))
    case (Some(m), Some(s), Some(l), Some(f), Some(w)) => Some(InsertSubcro(m, s, l, f, w))
    case _ => None
  }

  /** `z.array(element).parse(items)`: every element or nothing. */
  function ParseEach<T>(items: seq<Json>, parse: Json -> Option<T>): (r: Option<seq<T>>)
    ensures r.Some? <==> forall i :: 0 <= i < |items| ==> parse(items[i]).Some?
    ensures r.Some? ==> |r.value| == |items| && forall i :: 0 <= i < |items| ==> parse(items[i]) == Some(r.value[i])
  {
    if items == [] then Some([])
    else match (parse(items[0]), ParseEach(items[1..], parse))
      case (Some(x), Some(xs)) => Some([x] + xs)
      case (None, _) => None
      case (_, None) =>
        assert forall i :: 1 <= i < |items| ==> items[1..][i - 1] == items[i];
        None
  }

  /**
    The columns PUT /api/user/:id sets: the body without `password`, each
    column as the text it is stored as, `id` included (a new key for the
    row); members that are no column are ignored. None when username, email
    or maincro is missing or falsy.
   */
  function UserEdit(body: Json): (r: Option<Storage.UserPatch>)
    ensures r.Some? <==> && Member(body, "username").Some? && Truthy(Member(body, "username").value)
                         && Member(body, "email").Some? && Truthy(Member(body, "email").value)
                         && Member(body, "maincro").Some? && Truthy(Member(body, "maincro").value)
    ensures r.Some? ==> && r.value.password.None? && r.value.id == KeyOf(Member(body, "id"))
                        && r.value.username == TextColumn(Member(body, "username"))
                        && r.value.email == TextColumn(Member(body, "email"))
                        && r.value.maincro == TextColumn(Member(body, "maincro"))
  {
    var u, e, m := Member(body, "username"), Member(body, "email"), Member(body, "maincro");
    if u.Some? && Truthy(u.value) && e.Some? && Truthy(e.value) && m.Some? && Truthy(m.value) then
      Some(Storage.UserPatch(KeyOf(Member(body, "id")), Some(JsString(u.value)), None, Some(JsString(e.value)), Some(JsString(m.value))))
    else None
  }

  /**
    How the local strategy reads a credential: the body's member when it is
    a truthy value other than an object or an array, otherwise the query
    parameter of that name when it is not empty.
   */
  function Credential(body: Json, query: map<string, string>, key: string): (r: Option<Json>)
    ensures r.Some? ==> Truthy(r.value) && !r.value.Arr? && !r.value.Obj?
    ensures var b := Member(body, key);
      b.Some? && Truthy(b.value) && !b.value.Arr? && !b.value.Obj? ==> r == b
    ensures var b := Member(body, key);
      !(b.Some? && Truthy(b.value) && !b.value.Arr? && !b.value.Obj?) ==>
        r == if key in query && query[key] != "" then Some(Str(query[key])) else None
  {
    var b := Member(body, key);
    if b.Some? && Truthy(b.value) && !b.value.Arr? && !b.value.Obj? then b
    else if key in query && query[key] != "" then Some(Str(query[key]))
    else None
  }

  /** The storage call each handler makes, when it makes one. */
  predicate CallFor(h: Handler, c: Call) {
    match h
    case Register => c.RegisterCall?
    case Login => c.LoginCall?
    case Logout => c.LogoutCall?
    case CurrentUser => false
    case ListHotels => c.ListHotelsCall?
    case GetHotel => c.GetHotelCall?
    case CreateHotel => c.CreateHotelCall?
    case UpdateHotel => c.UpdateHotelCall?
    case DeleteHotel => c.DeleteHotelCall?
    case ListSubcros => c.ListSubcrosCall?
    case GetSubcro => c.GetSubcroCall?
    case CreateSubcro => c.CreateSubcroCall?
    case UpdateSubcro => c.UpdateSubcroCall?
    case DeleteSubcro => c.DeleteSubcroCall?
    case HotelView => c.HotelViewCall?
    case UserView => c.UserViewCall?
    case RunQuery => c.QueryCall?
    case Maincros => c.MaincrosCall?
    case SubcrosByMaincro => c.SubcrosByMaincroCall?
    case AvailableCodes => c.CodesCall?
    case AllUsers => c.AllUsersCall?
    case UpdateUser => c.UpdateUserCall?
    case DeleteUser => c.DeleteUserCall?
    case BulkUsers => c.BulkUsersCall?
    case BulkSubcros => c.BulkSubcrosCall?
  }

  /**
    What the handler of a matched route does before any storage call.
    `current` is the user of the session (None when not logged in) and
    `isEmail` the e-mail format check of the bulk user schema.
   */
  function Decide(h: Handler, param: string, req: Request, current: Option<User>, isEmail: string -> bool): (r: Decision)
    ensures !r.NotRouted?
    ensures r.Invoke? ==> CallFor(h, r.call)
    ensures h == CurrentUser ==> r.Answer?
  {
    var body := req.body;
    match h
    case Register => Invoke(RegisterCall(body))
    case Login => LoginDecision(body, req.query)
    case Logout => Invoke(LogoutCall)
    case CurrentUser =>
      if current.None? then Answer(StatusReply(401)) else Answer(Reply(200, JsonBody(UserRecord(current.value))))
    case ListHotels => Invoke(ListHotelsCall)
    case GetHotel => Invoke(GetHotelCall(param))
    case CreateHotel =>
      if ParseInsertHotel(body).None? then Answer(Invalid()) else Invoke(CreateHotelCall(ParseInsertHotel(body).value))
    case UpdateHotel =>
      if ParseInsertHotel(body).None? then Answer(Invalid()) else Invoke(UpdateHotelCall(param, ParseInsertHotel(body).value))
    case DeleteHotel => Invoke(DeleteHotelCall(param))
    case ListSubcros => Invoke(ListSubcrosCall)
    case GetSubcro =>
      if ParseInt(param).None? then Answer(InvalidId()) else Invoke(GetSubcroCall(ParseInt(param).value))
    case CreateSubcro =>
      if ParseInsertSubcro(body).None? then Answer(Invalid()) else Invoke(CreateSubcroCall(ParseInsertSubcro(body).value))
    case UpdateSubcro =>
      if ParseInt(param).None? then Answer(InvalidId())
      else if ParseInsertSubcro(body).None? then Answer(Invalid())
      else Invoke(UpdateSubcroCall(ParseInt(param).value, ParseInsertSubcro(body).value))
    case DeleteSubcro =>
      if ParseInt(param).None? then Answer(InvalidId()) else Invoke(DeleteSubcroCall(ParseInt(param).value))
    case HotelView => Invoke(HotelViewCall(QueryParam(req.query, "maincro"), QueryParam(req.query, "subcro")))
    case UserView => Invoke(UserViewCall(QueryParam(req.query, "maincro"), QueryParam(req.query, "subcro")))
    case RunQuery =>
      if current.None? then Answer(Unauthorized())
      else if Bounded(body, "sql", 1, Some(10000)).None? then Answer(Invalid())
      else Invoke(QueryCall(Bounded(body, "sql", 1, Some(10000)).value))
    case Maincros => Invoke(MaincrosCall)
    case SubcrosByMaincro =>
      var m := QueryParam(req.query, "maincro");
      if m.None? || m.value == "" then Answer(MessageReply(400, "MainCRO parameter is required"))
      else Invoke(SubcrosByMaincroCall(m.value))
    case AvailableCodes => Invoke(CodesCall)
    case AllUsers => if current.None? then Answer(Unauthorized()) else Invoke(AllUsersCall)
    case UpdateUser =>
      if current.None? then Answer(Unauthorized())
      else if ParseInt(param).None? then Answer(InvalidId())
      else if UserEdit(body).None? then Answer(MessageReply(400, "Missing required fields"))
      else Invoke(UpdateUserCall(ParseInt(param).value, UserEdit(body).value))
    case DeleteUser =>
      if current.None? then Answer(Unauthorized())
      else if ParseInt(param).None? then Answer(InvalidId())
      else Invoke(DeleteUserCall(ParseInt(param).value))
    case BulkUsers => if current.None? then Answer(Unauthorized()) else BulkUsersDecision(body, isEmail)
    case BulkSubcros => if current.None? then Answer(Unauthorized()) else BulkSubcrosDecision(body)
  }

  /** POST /api/login: both credentials, as the strategy reads them, or 400. */
  function LoginDecision(body: Json, query: map<string, string>): (r: Decision)
    ensures r.Invoke? ==> r.call.LoginCall?
    ensures !r.Invoke? ==> r == Answer(StatusReply(400))
  {
    var u, p := Credential(body, query, "username"), Credential(body, query, "password");
    if u.None? || p.None? then Answer(StatusReply(400))
    else Invoke(LoginCall(JsString(u.value), if p.value.Str? then Some(p.value.s) else None))
  }

  /** POST /api/user/bulk with a session: a non-empty array whose every element passes, or 400. */
  function BulkUsersDecision(body: Json, isEmail: string -> bool): (r: Decision)
    ensures r.Invoke? ==> r.call.BulkUsersCall?
    ensures !r.Invoke? ==> r.Answer? && r.reply.status == 400
  {
    if !body.Arr? || |body.items| == 0 then Answer(MessageReply(400, "Request must contain an array of users"))
    else if ParseEach(body.items, j => BulkUser(j, isEmail)).None? then Answer(Invalid())
    else Invoke(BulkUsersCall(ParseEach(body.items, j => BulkUser(j, isEmail)).value))
  }

  /** POST /api/subcro/bulk with a session: likewise for subcros. */
  function BulkSubcrosDecision(body: Json): (r: Decision)
    ensures r.Invoke? ==> r.call.BulkSubcrosCall?
    ensures !r.Invoke? ==> r.Answer? && r.reply.status == 400
  {
    if !body.Arr? || |body.items| == 0 then Answer(MessageReply(400, "Request must contain an array of subcros"))
    else if ParseEach(body.items, BulkSubcro).None? then Answer(Invalid())
    else Invoke(BulkSubcrosCall(ParseEach(body.items, BulkSubcro).value))
  }

  /** The handler of the first route that matches the path parts, with the value of its parameter. */
  function Routed(verb: Verb, parts: seq<string>): Option<(Handler, string)> {
    match FindFrom(RouteTable, verb, parts, 0)
    case None => None
    case Some(i) => Some((RouteTable[i].handler, ParamValue(RouteTable[i].pattern, parts)))
  }

  /** Route the request, then apply the matched handler's checks. */
  function Dispatch(req: Request, current: Option<User>, isEmail: string -> bool): (r: Decision)
    ensures r.NotRouted? <==> Routed(req.verb, PathParts(req.path)).None?
    ensures r.Invoke? ==> CallFor(Routed(req.verb, PathParts(req.path)).value.0, r.call)
  {
    match Routed(req.verb, PathParts(req.path))
    case None => NotRouted
    case Some((h, param)) => Decide(h, param, req, current, isEmail)
  }

  // ---------------------------------------------------------------------------
  // Properties of the decisions

  /** The handlers that check the session first. */
  predicate Guarded(h: Handler) {
    h in {RunQuery, AllUsers, UpdateUser, DeleteUser, BulkUsers, BulkSubcros}
  }

  /**
    Without a session the guarded handlers answer 401 before validating
    anything or calling storage; with one they never answer 401.
   */
  lemma GuardedNeedSession(h: Handler, param: string, req: Request, current: Option<User>, isEmail: string -> bool)
    requires Guarded(h)
    ensures current.None? ==> Decide(h, param, req, current, isEmail) == Answer(Unauthorized())
    ensures current.Some? ==> Decide(h, param, req, current, isEmail) != Answer(Unauthorized())
  {
  }

  /** The hotel and subcro handlers decide the same with or without a session. */
  lemma TablesIgnoreSession(h: Handler, param: string, req: Request, a: Option<User>, b: Option<User>, isEmail: string -> bool)
    requires h in {ListHotels, GetHotel, CreateHotel, UpdateHotel, DeleteHotel,
                   ListSubcros, GetSubcro, CreateSubcro, UpdateSubcro, DeleteSubcro}
    ensures Decide(h, param, req, a, isEmail) == Decide(h, param, req, b, isEmail)
  {
  }

  /**
    An `:id` without a leading integer gives 400 "Invalid ID format" before
    the body is read or storage is called (after the session check where
    there is one).
   */
  lemma BadIdRejected(h: Handler, param: string, req: Request, current: Option<User>, isEmail: string -> bool)
    requires h in {GetSubcro, UpdateSubcro, DeleteSubcro, UpdateUser, DeleteUser}
    requires ParseInt(param).None?
    requires current.Some? || !Guarded(h)
    ensures Decide(h, param, req, current, isEmail) == Answer(InvalidId())
  {
    if h == GetSubcro {
    } else if h == UpdateSubcro {
    } else if h == DeleteSubcro {
    } else if h == UpdateUser {
    } else {
      assert h == DeleteUser;
    }
  }

  /** A storage call for an `:id` route carries the integer the parameter starts with. */
  lemma IdCallsCarryParsedId(h: Handler, param: string, req: Request, current: Option<User>, isEmail: string -> bool)
    requires h in {GetSubcro, UpdateSubcro, DeleteSubcro, UpdateUser, DeleteUser}
    ensures var d := Decide(h, param, req, current, isEmail);
      d.Invoke? ==> ParseInt(param).Some? && d.call.id == ParseInt(param).value
  {
    if h == GetSubcro {
      assert Decide(h, param, req, current, isEmail)
        == if ParseInt(param).None? then Answer(InvalidId()) else Invoke(GetSubcroCall(ParseInt(param).value));
    } else if h == UpdateSubcro {
      UpdateSubcroDecided(param, req, current, isEmail);
    } else if h == DeleteSubcro {
      DeleteSubcroDecided(param, req, current, isEmail);
    } else if current.None? {
      assert Decide(h, param, req, current, isEmail) == Answer(Unauthorized());
    } else if h == UpdateUser {
      UpdateUserDecided(param, req, current.value, isEmail);
    } else {
      DeleteUserDecided(param, req, current.value, isEmail);
    }
  }

  /** The query route runs only an `sql` string of 1 to 10000 characters, and only with a session. */
  lemma QueryBounds(req: Request, current: Option<User>, isEmail: string -> bool)
    ensures var d := Decide(RunQuery, "", req, current, isEmail);
      && (d.Invoke? <==> current.Some? && StrMember(req.body, "sql").Some?
                         && 1 <= |StrMember(req.body, "sql").value| <= 10000)
      && (d.Invoke? ==> d.call == QueryCall(StrMember(req.body, "sql").value))
      && (!d.Invoke? && current.Some? ==> d == Answer(Invalid()))
  {
  }

  /**
    The bulk user route: an empty or non-array body gives 400; one element
    outside the bounds gives 400 for the whole batch; otherwise every element
    goes to storage, in order.
   */
  lemma BulkUsersChecked(req: Request, u: User, isEmail: string -> bool)
    ensures var d := Decide(BulkUsers, "", req, Some(u), isEmail);
      && (!req.body.Arr? || req.body.items == [] ==>
            d == Answer(MessageReply(400, "Request must contain an array of users")))
      && (req.body.Arr? && req.body.items != [] ==>
            (d.Invoke? <==> forall i :: 0 <= i < |req.body.items| ==> BulkUser(req.body.items[i], isEmail).Some?))
      && (d.Invoke? ==>
            && d.call.BulkUsersCall? && |d.call.users| == |req.body.items| > 0
            && forall i :: 0 <= i < |d.call.users| ==> BulkUser(req.body.items[i], isEmail) == Some(d.call.users[i]))
  {
    if req.body.Arr? && req.body.items != [] {
      var p := ParseEach(req.body.items, j => BulkUser(j, isEmail));
      assert forall i :: 0 <= i < |req.body.items| ==>
        (j => BulkUser(j, isEmail))(req.body.items[i]) == BulkUser(req.body.items[i], isEmail);
    }
  }

  /** The bulk subcro route, likewise. */
  lemma BulkSubcrosChecked(req: Request, u: User, isEmail: string -> bool)
    ensures var d := Decide(BulkSubcros, "", req, Some(u), isEmail);
      && (!req.body.Arr? || req.body.items == [] ==>
            d == Answer(MessageReply(400, "Request must contain an array of subcros")))
      && (req.body.Arr? && req.body.items != [] ==>
            (d.Invoke? <==> forall i :: 0 <= i < |req.body.items| ==> BulkSubcro(req.body.items[i]).Some?))
      && (d.Invoke? ==>
            && d.call.BulkSubcrosCall? && |d.call.subcros| == |req.body.items| > 0
            && forall i :: 0 <= i < |d.call.subcros| ==> BulkSubcro(req.body.items[i]) == Some(d.call.subcros[i]))
  {
  }

  /**
    PUT /api/user/:id never changes the password: the `password` member of
    the body is ignored, and the update goes ahead only when username, email
    and maincro are all truthy.
   */
  lemma UserEditIgnoresPassword(fields: map<string, Json>, password: Json)
    ensures UserEdit(Obj(fields["password" := password])) == UserEdit(Obj(fields - {"password"}))
    ensures var e := UserEdit(Obj(fields));
      && (e.Some? <==> forall k :: k in ["username", "email", "maincro"] ==> k in fields && Truthy(fields[k]))
      && (e.Some? ==> e.value.password.None?)
  {
    var a, b := Obj(fields["password" := password]), Obj(fields - {"password"});
    assert Member(a, "username") == Member(b, "username");
    assert Member(a, "email") == Member(b, "email");
    assert Member(a, "maincro") == Member(b, "maincro");
    assert Member(a, "id") == Member(b, "id");
    var e := UserEdit(Obj(fields));
    if forall k :: k in ["username", "email", "maincro"] ==> k in fields && Truthy(fields[k]) {
      assert "username" in ["username", "email", "maincro"];
      assert "email" in ["username", "email", "maincro"];
      assert "maincro" in ["username", "email", "maincro"];
    }
  }

  /**
    POST /api/login takes credentials the body lacks from the query string:
    with an empty body the query's username and password are used, and an
    empty one of them gives 400.
   */
  lemma LoginReadsQuery(query: map<string, string>, current: Option<User>, isEmail: string -> bool)
    requires "username" in query && "password" in query
    ensures var d := Decide(Login, "", Request(Post, "/api/login", query, Obj(map[])), current, isEmail);
      && (query["username"] != "" && query["password"] != "" ==>
            d == Invoke(LoginCall(query["username"], Some(query["password"]))))
      && (query["username"] == "" || query["password"] == "" ==> d == Answer(StatusReply(400)))
  {
  }

  /**
    A body credential that is falsy, null, an object or an array gives way
    to the query string; a truthy number as password reaches the strategy
    as no string at all.
   */
  lemma LoginBodyCredentials(username: string, n: int, query: map<string, string>, current: Option<User>, isEmail: string -> bool)
    requires username != "" && n != 0
    ensures Decide(Login, "", Request(Post, "/api/login", query, Obj(map["username" := Str(username), "password" := Num(n)])),
                   current, isEmail) == Invoke(LoginCall(username, None))
    ensures "password" !in query ==>
      Decide(Login, "", Request(Post, "/api/login", query, Obj(map["username" := Str(username), "password" := Str("")])),
             current, isEmail) == Answer(StatusReply(400))
  {
    var body := Obj(map["username" := Str(username), "password" := Num(n)]);
    assert Member(body, "username") == Some(Str(username));
    assert Member(body, "password") == Some(Num(n));
    var empty := Obj(map["username" := Str(username), "password" := Str("")]);
    assert Member(empty, "password") == Some(Str(""));
  }

  // ---------------------------------------------------------------------------
  // Routing order

  /** A literal route that is also matched by an earlier parameter route is never reached. */
  lemma {:induction false} ShadowedByEarlier(table: seq<Route>, i: nat, j: nat, verb: Verb, parts: seq<string>)
    requires i < j < |table|
    requires Matches(table[j], verb, parts) ==> Matches(table[i], verb, parts)
    ensures FindFrom(table, verb, parts, 0) != Some(j)
  {
  }

  /** GET /api/subcro/list is never handled by its own route: GET /api/subcro/:id comes first. */
  lemma ListUnreachable(verb: Verb, path: string)
    ensures FindFrom(RouteTable, verb, PathParts(path), 0) != Some(18)
  {
    var parts := PathParts(path);
    assert RouteTable[18].pattern == [Lit(""), Lit("api"), Lit("subcro"), Lit("list")];
    assert RouteTable[10].pattern == [Lit(""), Lit("api"), Lit("subcro"), Param("id")];
    assert RouteTable[18].verb == RouteTable[10].verb;
    if Matches(RouteTable[18], verb, parts) {
      assert SegmentMatches(RouteTable[18].pattern[3], parts[3]);
      assert Matches(RouteTable[10], verb, parts);
    }
    ShadowedByEarlier(RouteTable, 10, 18, verb, parts);
  }

  /** GET /api/hotel/codes is never handled by its own route: GET /api/hotel/:codeHotel comes first. */
  lemma CodesUnreachable(verb: Verb, path: string)
    ensures FindFrom(RouteTable, verb, PathParts(path), 0) != Some(19)
  {
    var parts := PathParts(path);
    assert RouteTable[19].pattern == [Lit(""), Lit("api"), Lit("hotel"), Lit("codes")];
    assert RouteTable[5].pattern == [Lit(""), Lit("api"), Lit("hotel"), Param("codeHotel")];
    assert RouteTable[19].verb == RouteTable[5].verb;
    if Matches(RouteTable[19], verb, parts) {
      assert SegmentMatches(RouteTable[19].pattern[3], parts[3]);
      assert Matches(RouteTable[5], verb, parts);
    }
    ShadowedByEarlier(RouteTable, 5, 19, verb, parts);
  }

  /** The parts of "/api/<a>/<b>". */
  lemma ApiPathParts(a: string, b: string)
    requires '/' !in a && '/' !in b
    ensures PathParts("/api/" + a + "/" + b) == ["", "api", a, b]
  {
    var tail := a + "/" + b;
    TailParts(a, b);
    ApiPrefixParts(tail);
    assert "/api/" + a + "/" + b == "/api/" + tail;
  }

  /** "<a>/<b>" splits into its two names. */
  lemma TailParts(a: string, b: string)
    requires '/' !in a && '/' !in b
    ensures Split(a + "/" + b, '/') == [a, b]
  {
    SplitNoSeparator(b, '/');
    SplitAtSeparator(a, '/', b);
  }

  /** The "/api/" prefix gives the parts "" and "api" before those of the rest. */
  lemma ApiPrefixParts(t: string)
    ensures Split("/api/" + t, '/') == ["", "api"] + Split(t, '/')
  {
    ApiWordParts(t);
    assert "/api/" + t == "" + ['/'] + ("api/" + t);
    SplitAtSeparator("", '/', "api/" + t);
  }

  lemma ApiWordParts(t: string)
    ensures Split("api/" + t, '/') == ["api"] + Split(t, '/')
  {
    assert "api/" + t == "api" + ['/'] + t;
    SplitAtSeparator("api", '/', t);
  }

  /** POST /api/subcro creates what the schema parse of the body gives, with or without a session. */
  lemma CreateSubcroDecided(req: Request, current: Option<User>, isEmail: string -> bool)
    ensures Decide(CreateSubcro, "", req, current, isEmail)
      == if ParseInsertSubcro(req.body).None? then Answer(Invalid())
         else Invoke(CreateSubcroCall(ParseInsertSubcro(req.body).value))
  {
  }

  /** PUT /api/subcro/:id: the id first, then the body. */
  lemma UpdateSubcroDecided(param: string, req: Request, current: Option<User>, isEmail: string -> bool)
    ensures Decide(UpdateSubcro, param, req, current, isEmail)
      == if ParseInt(param).None? then Answer(InvalidId())
         else if ParseInsertSubcro(req.body).None? then Answer(Invalid())
         else Invoke(UpdateSubcroCall(ParseInt(param).value, ParseInsertSubcro(req.body).value))
  {
  }

  /** DELETE /api/subcro/:id: the id only. */
  lemma DeleteSubcroDecided(param: string, req: Request, current: Option<User>, isEmail: string -> bool)
    ensures Decide(DeleteSubcro, param, req, current, isEmail)
      == if ParseInt(param).None? then Answer(InvalidId()) else Invoke(DeleteSubcroCall(ParseInt(param).value))
  {
  }

  /** PUT /api/user/:id with a session: the id, then the body. */
  lemma UpdateUserDecided(param: string, req: Request, current: User, isEmail: string -> bool)
    ensures Decide(UpdateUser, param, req, Some(current), isEmail)
      == if ParseInt(param).None? then Answer(InvalidId())
         else if UserEdit(req.body).None? then Answer(MessageReply(400, "Missing required fields"))
         else Invoke(UpdateUserCall(ParseInt(param).value, UserEdit(req.body).value))
  {
  }

  /** DELETE /api/user/:id with a session: the id only. */
  lemma DeleteUserDecided(param: string, req: Request, current: User, isEmail: string -> bool)
    ensures Decide(DeleteUser, param, req, Some(current), isEmail)
      == if ParseInt(param).None? then Answer(InvalidId()) else Invoke(DeleteUserCall(ParseInt(param).value))
  {
  }

  /** The parts of "/api/<a>/<id>": the decimal text of the id is the last segment. */
  lemma IdPathParts(a: string, id: int)
    requires '/' !in a
    ensures PathParts("/api/" + a + "/" + IntText(id)) == ["", "api", a, IntText(id)]
  {
    var m: nat := if id < 0 then -id else id;
    assert forall i :: 0 <= i < |NatText(m)| ==> NatText(m)[i] != '/';
    assert '/' !in IntText(id);
    ApiPathParts(a, IntText(id));
  }

  /** A route that matches, with none before it matching, is the one found. */
  lemma FirstMatch(table: seq<Route>, verb: Verb, parts: seq<string>, k: nat)
    requires k < |table| && Matches(table[k], verb, parts)
    requires forall j :: 0 <= j < k ==> !Matches(table[j], verb, parts)
    ensures FindFrom(table, verb, parts, 0) == Some(k)
  {
    var r := FindFrom(table, verb, parts, 0);
    assert r.Some?;
  }

  /** The session routes and GET /api/user take no GET /api/<w>/<x>. */
  lemma NoSessionMatch(w: string, x: string)
    ensures forall j :: 0 <= j < 4 ==> !Matches(RouteTable[j], Get, ["", "api", w, x])
  {
    assert RouteTable[0].verb == Post && RouteTable[1].verb == Post && RouteTable[2].verb == Post;
    assert |RouteTable[3].pattern| == 3;
  }

  /** Nor do the hotel reads take GET /api/subcro/<x>. */
  lemma NoHotelReadMatchForSubcro(x: string)
    ensures forall j :: 4 <= j < 6 ==> !Matches(RouteTable[j], Get, ["", "api", "subcro", x])
  {
    assert |RouteTable[4].pattern| == 3;
    assert RouteTable[5].pattern[2] == Lit("hotel");
  }

  /** Nor the hotel writes, nor the subcro list. */
  lemma NoHotelWriteMatchForSubcro(x: string)
    ensures forall j :: 6 <= j < 10 ==> !Matches(RouteTable[j], Get, ["", "api", "subcro", x])
  {
    assert RouteTable[6].verb == Post && RouteTable[7].verb == Put && RouteTable[8].verb == Delete;
    assert |RouteTable[9].pattern| == 3;
  }

  /** The first route for GET ["", "api", "subcro", x]: GET /api/subcro/:id, when x is not empty. */
  lemma FirstMatchSubcroParam(x: string)
    requires x != ""
    ensures FindFrom(RouteTable, Get, ["", "api", "subcro", x], 0) == Some(10)
  {
    var parts := ["", "api", "subcro", x];
    NoSessionMatch("subcro", x);
    NoHotelReadMatchForSubcro(x);
    NoHotelWriteMatchForSubcro(x);
    assert Matches(RouteTable[10], Get, parts) by {
      assert RouteTable[10].pattern == [Lit(""), Lit("api"), Lit("subcro"), Param("id")];
    }
    FirstMatch(RouteTable, Get, parts, 10);
  }

  /** The first route for GET ["", "api", "hotel", x]: GET /api/hotel/:codeHotel, when x is not empty. */
  lemma FirstMatchHotelParam(x: string)
    requires x != ""
    ensures FindFrom(RouteTable, Get, ["", "api", "hotel", x], 0) == Some(5)
  {
    var parts := ["", "api", "hotel", x];
    NoSessionMatch("hotel", x);
    assert |RouteTable[4].pattern| == 3;
    assert Matches(RouteTable[5], Get, parts) by {
      assert RouteTable[5].pattern == [Lit(""), Lit("api"), Lit("hotel"), Param("codeHotel")];
    }
    FirstMatch(RouteTable, Get, parts, 5);
  }

  /** GET ["", "api", "subcro", x] goes to the `:id` handler with x as the id. */
  lemma SubcroParamRouted(x: string)
    requires x != ""
    ensures Routed(Get, ["", "api", "subcro", x]) == Some((GetSubcro, x))
  {
    FirstMatchSubcroParam(x);
    assert RouteTable[10] == Route(Get, [Lit(""), Lit("api"), Lit("subcro"), Param("id")], GetSubcro);
  }

  /** Every GET /api/subcro/<x> goes to the `:id` handler, "list" included. */
  lemma SubcroPathsGoToIdRoute(x: string)
    requires x != "" && '/' !in x
    ensures PathParts("/api/subcro/" + x) == ["", "api", "subcro", x]
    ensures Routed(Get, ["", "api", "subcro", x]) == Some((GetSubcro, x))
  {
    ApiPathParts("subcro", x);
    assert "/api/subcro/" + x == "/api/" + "subcro" + "/" + x;
    SubcroParamRouted(x);
  }

  /** "list" is a single path segment with no leading integer. */
  lemma ListIsNoId()
    ensures "list" != "" && '/' !in "list"
    ensures ParseInt("list").None?
  {
    assert TrimStart("list") == "list";
    assert DigitRun("list", false) == 0;
  }

  /** A GET /api/subcro/<x> whose <x> has no leading integer answers 400 "Invalid ID format". */
  lemma SubcroBadIdPath(x: string, q: map<string, string>, body: Json, current: Option<User>, isEmail: string -> bool)
    requires x != "" && '/' !in x && ParseInt(x).None?
    ensures Dispatch(Request(Get, "/api/subcro/" + x, q, body), current, isEmail) == Answer(InvalidId())
  {
    var req := Request(Get, "/api/subcro/" + x, q, body);
    SubcroPathsGoToIdRoute(x);
    assert Routed(req.verb, PathParts(req.path)) == Some((GetSubcro, x));
    assert Decide(GetSubcro, x, req, current, isEmail) == Answer(InvalidId());
  }

  /** So GET /api/subcro/list answers 400 "Invalid ID format" and never lists subcros. */
  lemma SubcroListAnswersInvalidId(x: string, q: map<string, string>, body: Json, current: Option<User>, isEmail: string -> bool)
    requires x == "list"
    ensures Dispatch(Request(Get, "/api/subcro/" + x, q, body), current, isEmail) == Answer(InvalidId())
  {
    ListIsNoId();
    SubcroBadIdPath(x, q, body, current, isEmail);
  }

  /**
    Every GET /api/hotel/<x> goes to the `:codeHotel` handler, "codes"
    included: GET /api/hotel/codes looks up a hotel coded "codes".
   */
  lemma HotelPathsGoToCodeRoute(x: string)
    requires x != "" && '/' !in x
    ensures PathParts("/api/hotel/" + x) == ["", "api", "hotel", x]
    ensures Routed(Get, ["", "api", "hotel", x]) == Some((GetHotel, x))
  {
    ApiPathParts("hotel", x);
    assert "/api/hotel/" + x == "/api/" + "hotel" + "/" + x;
    FirstMatchHotelParam(x);
  }

  lemma HotelCodesLooksUpHotel(q: map<string, string>, body: Json, current: Option<User>, isEmail: string -> bool)
    ensures Dispatch(Request(Get, "/api/hotel/" + "codes", q, body), current, isEmail) == Invoke(GetHotelCall("codes"))
  {
    HotelPathsGoToCodeRoute("codes");
  }
}

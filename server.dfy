/**
  The route handlers once their checks have passed: each storage call, the
  reply it gives and the tables it leaves, and the request handler that
  puts session lookup, routing, checks and storage together.
 */
module Server {
  import opened Wrappers
  import opened Text
  import opened Json
  import opened Schema
  import opened Http
  import opened Storage
  import opened Credentials
  import ViewQuery
  import HotelCodes
  import Seqs
  import Routes
  import Bulk
  import Auth

  /**
    What the model does not compute itself: the rows of the two database
    views, the outcome of a free SQL statement (None when it fails), whether
    the hotel code query fails, the text (`${error}`) and message of a
    database or crypto error, the random salt, the key derivation, and the
    e-mail format check.
   */
  datatype Env = Env(hotelView: seq<HotelViewRow>, userView: seq<UserViewRow>, queryResult: Option<Json>,
                     codesFailed: bool, dbError: string, dbMessage: string, salt: Salt, kdf: Kdf,
                     isEmail: string -> bool)

  /** `res.status(500).json({ message: `${what}: ${error}` })`. */
  function ServerError(what: string, dbError: string): (r: Reply)
    ensures r.status == 500
  {
    MessageReply(500, what + ": " + dbError)
  }

  /** `rows` is one listing of a table: each row once, in some order. */
  predicate Listing<K, T(==)>(rows: seq<T>, table: map<K, T>, key: T -> K) {
    && |rows| == |table|
    && (forall i :: 0 <= i < |rows| ==> key(rows[i]) in table && table[key(rows[i])] == rows[i])
    && (forall k :: k in table ==> table[k] in rows)
  }

  function HotelKey(h: Hotel): string { h.codeHotel }
  function SubcroKey(s: Subcro): int { s.id }
  function UserKey(u: User): int { u.id }

  /** The tables are as they were. */
  twostate predicate Unchanged(db: DatabaseStorage)
    reads db
  {
    && db.users == old(db.users) && db.nextUserId == old(db.nextUserId)
    && db.subcros == old(db.subcros) && db.hotels == old(db.hotels)
  }

  // ---------------------------------------------------------------------------
  // Hotels

  /** GET /api/hotel: every hotel. */
  method ListHotels(db: DatabaseStorage) returns (reply: Reply)
    requires db.Valid()
    ensures exists rows :: Listing(rows, db.hotels, HotelKey) && reply == Reply(200, JsonBody(ListJson(rows, HotelRecord)))
  {
    var rows := db.GetAllHotels();
    assert Listing(rows, db.hotels, HotelKey);
    reply := Reply(200, JsonBody(ListJson(rows, HotelRecord)));
  }

  /** GET /api/hotel/:codeHotel. */
  method GetHotel(db: DatabaseStorage, code: string) returns (reply: Reply)
    requires db.Valid()
    ensures code in db.hotels ==> reply == Reply(200, JsonBody(HotelRecord(db.hotels[code])))
    ensures code !in db.hotels ==> reply == MessageReply(404, "Hotel not found")
  {
    var found := db.GetHotel(code);
    if found.None? {
      return MessageReply(404, "Hotel not found");
    }
    reply := Reply(200, JsonBody(HotelRecord(found.value)));
  }

  /** POST /api/hotel with a valid body: 201 and the row, or 500 when the database refuses it. */
  method CreateHotel(db: DatabaseStorage, h: Hotel, dbError: string) returns (reply: Reply)
    requires db.Valid()
    modifies db
    ensures db.Valid()
    ensures db.users == old(db.users) && db.nextUserId == old(db.nextUserId) && db.subcros == old(db.subcros)
    ensures h.codeHotel in old(db.hotels) || h.subcroId !in db.subcros ==>
      reply == ServerError("Error creating hotel", dbError) && db.hotels == old(db.hotels)
    ensures h.codeHotel !in old(db.hotels) && h.subcroId in db.subcros ==>
      reply == Reply(201, JsonBody(HotelRecord(h))) && db.hotels == old(db.hotels)[h.codeHotel := h]
  {
    var created := db.CreateHotel(h);
    if created.Rejected? {
      return ServerError("Error creating hotel", dbError);
    }
    reply := Reply(201, JsonBody(HotelRecord(created.value)));
  }

  /** PUT /api/hotel/:codeHotel with a valid body: the row is replaced, possibly under a new code. */
  method UpdateHotel(db: DatabaseStorage, code: string, h: Hotel, dbError: string) returns (reply: Reply)
    requires db.Valid()
    modifies db
    ensures db.Valid()
    ensures db.users == old(db.users) && db.nextUserId == old(db.nextUserId) && db.subcros == old(db.subcros)
    ensures !FitsInteger(h.subcroId) ==> reply == ServerError("Error updating hotel", dbError) && db.hotels == old(db.hotels)
    ensures FitsInteger(h.subcroId) && code !in old(db.hotels) ==>
      reply == MessageReply(404, "Hotel not found") && db.hotels == old(db.hotels)
    ensures code in old(db.hotels) && ((h.codeHotel != code && h.codeHotel in old(db.hotels)) || h.subcroId !in db.subcros) ==>
      reply == ServerError("Error updating hotel", dbError) && db.hotels == old(db.hotels)
    ensures code in old(db.hotels) && (h.codeHotel == code || h.codeHotel !in old(db.hotels)) && h.subcroId in db.subcros ==>
      reply == Reply(200, JsonBody(HotelRecord(h))) && db.hotels == (old(db.hotels) - {code})[h.codeHotel := h]
  {
    var updated := db.UpdateHotel(code, h);
    match updated
    case Rejected => reply := ServerError("Error updating hotel", dbError);
    case Ok(None) => reply := MessageReply(404, "Hotel not found");
    case Ok(Some(row)) => reply := Reply(200, JsonBody(HotelRecord(row)));
  }

  /** DELETE /api/hotel/:codeHotel: 204 with no body, or 404. */
  method DeleteHotel(db: DatabaseStorage, code: string) returns (reply: Reply)
    requires db.Valid()
    modifies db
    ensures db.Valid()
    ensures db.users == old(db.users) && db.nextUserId == old(db.nextUserId) && db.subcros == old(db.subcros)
    ensures db.hotels == old(db.hotels) - {code}
    ensures reply == (if code in old(db.hotels) then Reply(204, NoBody) else MessageReply(404, "Hotel not found"))
  {
    var deleted := db.DeleteHotel(code);
    reply := if deleted then Reply(204, NoBody) else MessageReply(404, "Hotel not found");
  }

  // ---------------------------------------------------------------------------
  // Subcros

  /** GET /api/subcro: every subcro. */
  method ListSubcros(db: DatabaseStorage) returns (reply: Reply)
    requires db.Valid()
    ensures exists rows :: Listing(rows, db.subcros, SubcroKey) && reply == Reply(200, JsonBody(ListJson(rows, SubcroRecord)))
  {
    var rows := db.GetAllSubcros();
    assert Listing(rows, db.subcros, SubcroKey);
    reply := Reply(200, JsonBody(ListJson(rows, SubcroRecord)));
  }

  /** GET /api/subcro/:id with an integer id: 500 when the id is outside the `integer` range. */
  method GetSubcro(db: DatabaseStorage, id: int, dbError: string) returns (reply: Reply)
    requires db.Valid()
    ensures !FitsInteger(id) ==> reply == ServerError("Error fetching subcro", dbError)
    ensures FitsInteger(id) && id in db.subcros ==> reply == Reply(200, JsonBody(SubcroRecord(db.subcros[id])))
    ensures FitsInteger(id) && id !in db.subcros ==> reply == MessageReply(404, "Subcro not found")
  {
    var found := db.GetSubcro(id);
    match found
    case Rejected => reply := ServerError("Error fetching subcro", dbError);
    case Ok(None) => reply := MessageReply(404, "Subcro not found");
    case Ok(Some(row)) => reply := Reply(200, JsonBody(SubcroRecord(row)));
  }

  /**
    POST /api/subcro with a valid body: 201 and the row stored under the
    next id; 500 when that id or a flag is outside the `integer` range.
   */
  method CreateSubcro(db: DatabaseStorage, data: InsertSubcro, dbError: string) returns (reply: Reply)
    requires db.Valid()
    modifies db
    ensures db.Valid()
    ensures db.users == old(db.users) && db.nextUserId == old(db.nextUserId) && db.hotels == old(db.hotels)
    ensures var id := NextSubcroId(old(db.subcros));
      && (FitsInteger(id) && SubcroFits(data) ==>
            var row := NewSubcro(id, data);
            reply == Reply(201, JsonBody(SubcroRecord(row))) && db.subcros == old(db.subcros)[id := row])
      && (!(FitsInteger(id) && SubcroFits(data)) ==>
            reply == ServerError("Error creating subcro", dbError) && db.subcros == old(db.subcros))
  {
    var created := db.CreateSubcro(data);
    match created
    case Rejected => reply := ServerError("Error creating subcro", dbError);
    case Ok(row) => reply := Reply(201, JsonBody(SubcroRecord(row)));
  }

  /** PUT /api/subcro/:id with an integer id and a valid body; 500 for a value outside the `integer` range. */
  method UpdateSubcro(db: DatabaseStorage, id: int, data: InsertSubcro, dbError: string) returns (reply: Reply)
    requires db.Valid()
    modifies db
    ensures db.Valid()
    ensures db.users == old(db.users) && db.nextUserId == old(db.nextUserId) && db.hotels == old(db.hotels)
    ensures !(FitsInteger(id) && SubcroFits(data)) ==>
      reply == ServerError("Error updating subcro", dbError) && db.subcros == old(db.subcros)
    ensures FitsInteger(id) && SubcroFits(data) && id !in old(db.subcros) ==>
      reply == MessageReply(404, "Subcro not found") && db.subcros == old(db.subcros)
    ensures FitsInteger(id) && SubcroFits(data) && id in old(db.subcros) ==>
      var row := UpdatedSubcro(old(db.subcros)[id], data);
      reply == Reply(200, JsonBody(SubcroRecord(row))) && db.subcros == old(db.subcros)[id := row]
  {
    var updated := db.UpdateSubcro(id, data);
    match updated
    case Rejected => reply := ServerError("Error updating subcro", dbError);
    case Ok(None) => reply := MessageReply(404, "Subcro not found");
    case Ok(Some(row)) => reply := Reply(200, JsonBody(SubcroRecord(row)));
  }

  /**
    DELETE /api/subcro/:id with an integer id: refused (500) for an id
    outside the `integer` range or while a hotel references it.
   */
  method DeleteSubcro(db: DatabaseStorage, id: int, dbError: string) returns (reply: Reply)
    requires db.Valid()
    modifies db
    ensures db.Valid()
    ensures db.users == old(db.users) && db.nextUserId == old(db.nextUserId) && db.hotels == old(db.hotels)
    ensures !FitsInteger(id) || Referenced(db.hotels, id) ==>
      reply == ServerError("Error deleting subcro", dbError) && db.subcros == old(db.subcros)
    ensures FitsInteger(id) && !Referenced(db.hotels, id) ==>
      && db.subcros == old(db.subcros) - {id}
      && reply == (if id in old(db.subcros) then Reply(204, NoBody) else MessageReply(404, "Subcro not found"))
  {
    var deleted := db.DeleteSubcro(id);
    match deleted
    case Rejected => reply := ServerError("Error deleting subcro", dbError);
    case Ok(found) => reply := if found then Reply(204, NoBody) else MessageReply(404, "Subcro not found");
  }

  // ---------------------------------------------------------------------------
  // Views, lists and the query runner

  /** GET /api/hotel-view: the view rows equal to each supplied filter. */
  method HotelView(db: DatabaseStorage, view: seq<HotelViewRow>, maincro: Option<string>, subcroName: Option<string>)
    returns (reply: Reply)
    ensures exists rows ::
      && (forall r :: r in rows <==>
            && r in view
            && (ViewQuery.Supplied(maincro) ==> r.maincro == maincro.value)
            && (ViewQuery.Supplied(subcroName) ==> r.subcro == subcroName.value))
      && reply == Reply(200, JsonBody(ListJson(rows, HotelViewRecord)))
  {
    var rows := db.GetHotelMaincroSubcroView(view, maincro, subcroName);
    reply := Reply(200, JsonBody(ListJson(rows, HotelViewRecord)));
  }

  /** GET /api/user-view: maincro by `LIKE '%m%'`, subcro by equality. */
  method UserView(db: DatabaseStorage, view: seq<UserViewRow>, maincro: Option<string>, subcroName: Option<string>)
    returns (reply: Reply)
    ensures exists rows ::
      && (forall r :: r in rows <==>
            && r in view
            && (ViewQuery.Supplied(maincro) ==> ViewQuery.LikeMatch(r.maincro, "%" + maincro.value + "%"))
            && (ViewQuery.Supplied(subcroName) ==> r.subcro == subcroName.value))
      && reply == Reply(200, JsonBody(ListJson(rows, UserViewRecord)))
  {
    var rows := db.GetUserMaincroSubcroView(view, maincro, subcroName);
    reply := Reply(200, JsonBody(ListJson(rows, UserViewRecord)));
  }

  /** POST /api/query with a valid statement: its result, or 500 with the wrapped database error. */
  function RunQuery(queryResult: Option<Json>, dbError: string): (r: Reply)
    ensures queryResult.Some? ==> r.status == 200 && r.body == JsonBody(queryResult.value)
    ensures queryResult.None? ==>
      r == ServerError("Error executing query", "Error: Query execution failed: " + dbError)
  {
    if queryResult.Some? then Reply(200, JsonBody(queryResult.value))
    else ServerError("Error executing query", "Error: Query execution failed: " + dbError)
  }

  function TextList(items: seq<string>): (r: Json)
    ensures r.Arr? && |r.items| == |items|
    ensures forall i :: 0 <= i < |items| ==> r.items[i] == Str(items[i])
  {
    ListJson(items, (s: string) => Str(s))
  }

  /** GET /api/maincro: each maincro of the subcro table once, ascending. */
  method Maincros(db: DatabaseStorage) returns (reply: Reply)
    requires db.Valid()
    ensures exists names: seq<string> ::
      && Seqs.StrictlyAscending(names)
      && (forall m :: m in names <==> exists k :: k in db.subcros && db.subcros[k].maincro == m)
      && reply == Reply(200, JsonBody(TextList(names)))
  {
    var names := db.GetDistinctMaincros();
    reply := Reply(200, JsonBody(TextList(names)));
  }

  function ChoiceRecord(c: SubcroChoice): Json {
    Obj(map["id" := Num(c.id), "subcro" := Str(c.subcro)])
  }

  /** GET /api/subcro/list?maincro=m (shadowed by GET /api/subcro/:id; see Routes). */
  method SubcrosByMaincro(db: DatabaseStorage, wanted: string) returns (reply: Reply)
    requires db.Valid()
    ensures exists choices: seq<SubcroChoice> ::
      && Seqs.SortedBy(choices, BySubcroName)
      && (forall i :: 0 <= i < |choices| ==>
            choices[i].id in db.subcros && db.subcros[choices[i].id].maincro == wanted
            && db.subcros[choices[i].id].subcro == choices[i].subcro)
      && (forall k :: k in db.subcros && db.subcros[k].maincro == wanted ==> SubcroChoice(k, db.subcros[k].subcro) in choices)
      && Seqs.Distinct(choices)
      && reply == Reply(200, JsonBody(ListJson(choices, ChoiceRecord)))
  {
    var choices := db.GetSubcrosByMaincro(wanted);
    reply := Reply(200, JsonBody(ListJson(choices, ChoiceRecord)));
  }

  /** GET /api/hotel/codes (shadowed by GET /api/hotel/:codeHotel; see Routes). */
  method AvailableCodes(db: DatabaseStorage, failed: bool) returns (reply: Reply)
    requires db.Valid()
    ensures failed ==> reply == Reply(200, JsonBody(TextList([])))
    ensures !failed ==> reply == Reply(200, JsonBody(TextList(HotelCodes.AvailableCodes(db.hotels.Keys))))
  {
    var codes := db.GetAvailableHotelCodes(failed);
    reply := Reply(200, JsonBody(TextList(codes)));
  }

  // ---------------------------------------------------------------------------
  // Users

  /** GET /api/user/all with a session: every user, password hashes included. */
  method AllUsers(db: DatabaseStorage) returns (reply: Reply)
    requires db.Valid()
    ensures exists rows :: Listing(rows, db.users, UserKey) && reply == Reply(200, JsonBody(ListJson(rows, UserRecord)))
  {
    var rows := db.GetAllUsers();
    assert Listing(rows, db.users, UserKey);
    reply := Reply(200, JsonBody(ListJson(rows, UserRecord)));
  }

  /**
    PUT /api/user/:id with a session, an integer id and the three fields.
    An `id` in the body moves the row to that key; the database refuses
    (500) a key or username another user has, a null key once a row is
    there to update, and an id outside the `integer` range.
   */
  method UpdateUser(db: DatabaseStorage, id: int, patch: UserPatch, dbError: string) returns (reply: Reply)
    requires db.Valid()
    modifies db
    ensures db.Valid()
    ensures db.nextUserId == old(db.nextUserId) && db.subcros == old(db.subcros) && db.hotels == old(db.hotels)
    ensures !(FitsInteger(id) && KeyFits(patch.id)) ==>
      reply == ServerError("Error updating user", dbError) && db.users == old(db.users)
    ensures FitsInteger(id) && KeyFits(patch.id) && id !in old(db.users) ==>
      reply == MessageReply(404, "User not found") && db.users == old(db.users)
    ensures FitsInteger(id) && KeyFits(patch.id) && id in old(db.users) ==>
      var row := Patched(old(db.users)[id], patch);
      var refused := patch.id.NullKey? || (row.id != id && row.id in old(db.users)) || UsernameTaken(old(db.users), row.username, Some(id));
      && (refused ==> reply == ServerError("Error updating user", dbError) && db.users == old(db.users))
      && (!refused ==> reply == Reply(200, JsonBody(UserRecord(row))) && db.users == (old(db.users) - {id})[row.id := row])
  {
    var updated := db.UpdateUser(id, patch);
    match updated
    case Rejected => reply := ServerError("Error updating user", dbError);
    case Ok(None) => reply := MessageReply(404, "User not found");
    case Ok(Some(row)) => reply := Reply(200, JsonBody(UserRecord(row)));
  }

  /** DELETE /api/user/:id with a session and an integer id; 500 for an id outside the `integer` range. */
  method DeleteUser(db: DatabaseStorage, id: int, dbError: string) returns (reply: Reply)
    requires db.Valid()
    modifies db
    ensures db.Valid()
    ensures db.nextUserId == old(db.nextUserId) && db.subcros == old(db.subcros) && db.hotels == old(db.hotels)
    ensures !FitsInteger(id) ==> reply == ServerError("Error deleting user", dbError) && db.users == old(db.users)
    ensures FitsInteger(id) ==>
      && db.users == old(db.users) - {id}
      && reply == (if id in old(db.users) then Reply(204, NoBody) else MessageReply(404, "User not found"))
  {
    var deleted := db.DeleteUser(id);
    match deleted
    case Rejected => reply := ServerError("Error deleting user", dbError);
    case Ok(found) => reply := if found then Reply(204, NoBody) else MessageReply(404, "User not found");
  }

  /** POST /api/user/bulk with a valid array: 201 and the tally of the batch. */
  method BulkUsers(db: DatabaseStorage, records: seq<InsertUser>, dbMessage: string) returns (reply: Reply)
    requires db.Valid()
    modifies db
    ensures db.Valid()
    ensures db.subcros == old(db.subcros) && db.hotels == old(db.hotels)
    ensures var batch := Bulk.BulkUsers(old(db.users), old(db.nextUserId), records, dbMessage);
      && db.users == batch.users && db.nextUserId == batch.nextId
      && reply == Reply(201, JsonBody(Bulk.TallyJson(batch.tally)))
  {
    var tally := Bulk.BulkCreateUsers(db, records, dbMessage);
    reply := Reply(201, JsonBody(Bulk.TallyJson(tally)));
  }

  /**
    POST /api/subcro/bulk with a valid array: 201 and the tally of the
    batch, each record stored or counted as failed.
   */
  method BulkSubcros(db: DatabaseStorage, records: seq<InsertSubcro>, dbMessage: string) returns (reply: Reply)
    requires db.Valid()
    modifies db
    ensures db.Valid()
    ensures db.users == old(db.users) && db.nextUserId == old(db.nextUserId) && db.hotels == old(db.hotels)
    ensures var batch := Bulk.BulkSubcros(old(db.subcros), records, dbMessage);
      && db.subcros == batch.subcros
      && reply == Reply(201, JsonBody(Bulk.TallyJson(batch.tally)))
  {
    var tally := Bulk.BulkCreateSubcros(db, records, dbMessage);
    reply := Reply(201, JsonBody(Bulk.TallyJson(tally)));
  }

  // ---------------------------------------------------------------------------
  // The request handler

  /** The calls that read the tables and never write them. */
  predicate ReadOnly(call: Routes.Call) {
    || call.LoginCall? || call.LogoutCall? || call.ListHotelsCall? || call.GetHotelCall?
    || call.ListSubcrosCall? || call.GetSubcroCall? || call.HotelViewCall? || call.UserViewCall?
    || call.QueryCall? || call.MaincrosCall? || call.SubcrosByMaincroCall? || call.CodesCall?
    || call.AllUsersCall?
  }

  /** Carry out a call that only reads the tables; only login and logout change the session. */
  method Read(db: DatabaseStorage, call: Routes.Call, env: Env, session: Option<int>)
    returns (reply: Reply, after: Option<int>)
    requires db.Valid() && ReadOnly(call)
    ensures !(call.LoginCall? || call.LogoutCall?) ==> after == session
    ensures call.LogoutCall? ==> after == None
  {
    after := session;
    match call
    case LoginCall(username, password) =>
      reply, after := Auth.Login(db, username, password, env.kdf, env.dbMessage, session);
    case LogoutCall =>
      reply, after := Auth.Logout(session);
    case ListHotelsCall => reply := ListHotels(db);
    case GetHotelCall(code) => reply := GetHotel(db, code);
    case ListSubcrosCall => reply := ListSubcros(db);
    case GetSubcroCall(id) => reply := GetSubcro(db, id, env.dbError);
    case HotelViewCall(m, s) => reply := HotelView(db, env.hotelView, m, s);
    case UserViewCall(m, s) => reply := UserView(db, env.userView, m, s);
    case QueryCall(_) => reply := RunQuery(env.queryResult, env.dbError);
    case MaincrosCall => reply := Maincros(db);
    case SubcrosByMaincroCall(wanted) => reply := SubcrosByMaincro(db, wanted);
    case CodesCall => reply := AvailableCodes(db, env.codesFailed);
    case AllUsersCall => reply := AllUsers(db);
  }

  /** Carry out a call that writes the tables; only register changes the session. */
  method Write(db: DatabaseStorage, call: Routes.Call, env: Env, session: Option<int>)
    returns (reply: Reply, after: Option<int>)
    requires db.Valid() && !ReadOnly(call)
    modifies db
    ensures db.Valid()
    ensures !call.RegisterCall? ==> after == session
  {
    after := session;
    match call
    case RegisterCall(body) =>
      reply, after := Auth.Register(db, body, env.salt, env.kdf, env.dbMessage, session);
    case CreateHotelCall(h) => reply := CreateHotel(db, h, env.dbError);
    case UpdateHotelCall(code, h) => reply := UpdateHotel(db, code, h, env.dbError);
    case DeleteHotelCall(code) => reply := DeleteHotel(db, code);
    case CreateSubcroCall(data) => reply := CreateSubcro(db, data, env.dbError);
    case UpdateSubcroCall(id, data) => reply := UpdateSubcro(db, id, data, env.dbError);
    case DeleteSubcroCall(id) => reply := DeleteSubcro(db, id, env.dbError);
    case UpdateUserCall(id, patch) => reply := UpdateUser(db, id, patch, env.dbError);
    case DeleteUserCall(id) => reply := DeleteUser(db, id, env.dbError);
    case BulkUsersCall(records) => reply := BulkUsers(db, records, env.dbMessage);
    case BulkSubcrosCall(records) => reply := BulkSubcros(db, records, env.dbMessage);
  }

  /** Carry out a storage call; only login, logout and register change the session. */
  method Perform(db: DatabaseStorage, call: Routes.Call, env: Env, session: Option<int>)
    returns (reply: Reply, after: Option<int>)
    requires db.Valid()
    modifies db
    ensures db.Valid()
    ensures ReadOnly(call) ==> Unchanged(db)
    ensures !(call.LoginCall? || call.LogoutCall? || call.RegisterCall?) ==> after == session
    ensures call.LogoutCall? ==> after == None
  {
    if ReadOnly(call) {
      reply, after := Read(db, call, env, session);
    } else {
      reply, after := Write(db, call, env, session);
    }
  }

  /**
    One API request: find the session's user, route, run the handler's
    checks, and carry out the storage call they allow. None is a request
    no API route matches (the client pages answer it). An answer from the
    checks leaves the tables and the session as they were; in particular a
    guarded route without a logged-in user answers 401 and changes nothing.
    A session id outside the `integer` range makes the user lookup throw,
    whatever the request.
   */
  method Handle(db: DatabaseStorage, req: Request, session: Option<int>, env: Env)
    returns (reply: Option<Reply>, after: Option<int>)
    requires db.Valid()
    modifies db
    ensures db.Valid()
    ensures session.Some? && !FitsInteger(session.value) ==>
      reply == Some(Auth.Thrown(env.dbMessage)) && after == session && Unchanged(db)
    ensures session.None? || FitsInteger(session.value) ==>
      var d := Routes.Dispatch(req, Auth.CurrentUser(old(db.users), session), env.isEmail);
      && (d.NotRouted? ==> reply.None? && after == session && Unchanged(db))
      && (d.Answer? ==> reply == Some(d.reply) && after == session && Unchanged(db))
      && (d.Invoke? ==> reply.Some?)
    ensures var routed := Routes.Routed(req.verb, Routes.PathParts(req.path));
      && (session.None? || FitsInteger(session.value))
      && routed.Some? && Routes.Guarded(routed.value.0) && Auth.CurrentUser(old(db.users), session).None? ==>
        reply == Some(Routes.Unauthorized()) && Unchanged(db)
  {
    var found := Auth.SessionUser(db, session);
    if found.Rejected? {
      return Some(Auth.Thrown(env.dbMessage)), session;
    }
    var current := found.value;
    var routed := Routes.Routed(req.verb, Routes.PathParts(req.path));
    if routed.Some? && Routes.Guarded(routed.value.0) {
      Routes.GuardedNeedSession(routed.value.0, routed.value.1, req, current, env.isEmail);
    }
    var d := Routes.Dispatch(req, current, env.isEmail);
    match d
    case NotRouted =>
      reply, after := None, session;
    case Answer(r) =>
      reply, after := Some(r), session;
    case Invoke(call) =>
      var r;
      r, after := Perform(db, call, env, session);
      reply := Some(r);
  }
}

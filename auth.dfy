/**
  Session authentication: the local strategy that checks a username and a
  password against the stored hash, and the register, login, logout and
  session lookup around it. A session holds the id of its user (None when
  logged out); a thrown error reaches the error handler.
 */
module Auth {
  import opened Wrappers
  import opened Json
  import opened Schema
  import opened Http
  import opened Text
  import opened Credentials
  import opened Storage
  import opened Middleware

  /** What the local strategy reports: the user, "no match" (`false`), or an error. */
  datatype Verdict = Authenticated(user: User) | Refused | Failed

  /**
    The strategy, given the user stored under the username (None when there
    is none): refuse when there is no such user or the password does not
    match, fail when the comparison throws.
   */
  function Verify(found: Option<User>, password: string, kdf: Kdf): (r: Verdict)
    ensures r.Authenticated? <==> found.Some? && ComparePasswords(password, found.value.password, kdf) == Some(true)
    ensures r.Authenticated? ==> r.user == found.value
    ensures r.Failed? <==> found.Some? && ComparePasswords(password, found.value.password, kdf).None?
  {
    if found.None? then Refused
    else match ComparePasswords(password, found.value.password, kdf)
      case None => Failed
      case Some(matched) => if matched then Authenticated(found.value) else Refused
  }

  /** A user whose stored password is the hash of `password` logs in with it. */
  lemma RegisteredPasswordLogsIn(u: User, password: string, salt: Salt, kdf: Kdf)
    requires u.password == HashPassword(password, salt, kdf)
    ensures Verify(Some(u), password, kdf) == Authenticated(u)
  {
    ComparePasswordsRoundTrip(password, salt, kdf);
  }

  /** Another password is refused unless it derives the same key with that salt. */
  lemma OtherPasswordRefused(u: User, password: string, other: string, salt: Salt, kdf: Kdf)
    requires u.password == HashPassword(password, salt, kdf)
    requires kdf(other, HexEncode(salt)) != kdf(password, HexEncode(salt))
    ensures Verify(Some(u), other, kdf) == Refused
  {
    CompareHashed(other, password, salt, kdf);
  }

  /**
    A user stored with a plain password (as the bulk upload stores them:
    no ".", or too short for a hash) can never log in: every attempt throws.
   */
  lemma PlainPasswordFails(u: User, attempt: string, kdf: Kdf)
    requires '.' !in u.password || |u.password| < 128
    ensures Verify(Some(u), attempt, kdf) == Failed
  {
    NotAHashThrows(attempt, u.password, kdf);
  }

  /** The reply to a thrown error that carries no status of its own. */
  function Thrown(message: string): (r: Reply)
    ensures r.status == 500
  {
    ErrorReply(Failure(None, None, message))
  }

  /** The answer of POST /api/login for a verdict, with the session it leaves. */
  function LoginReply(v: Verdict, session: Option<int>, errorText: string): (r: (Reply, Option<int>))
    ensures r.0.status == 200 <==> v.Authenticated?
    ensures v.Authenticated? ==> r == (Reply(200, JsonBody(UserRecord(v.user))), Some(v.user.id))
    ensures !v.Authenticated? ==> r.1 == session
    ensures v.Refused? ==> r.0 == StatusReply(401)
  {
    match v
    case Authenticated(u) => (Reply(200, JsonBody(UserRecord(u))), Some(u.id))
    case Refused => (StatusReply(401), session)
    case Failed => (Thrown(errorText), session)
  }

  /**
    POST /api/login with both credentials present: look the user up, run
    the strategy, log the user in on success. The username is the text the
    lookup compares; the password is None when the request gave something
    other than a string, which the comparison throws on once a user is
    found. `errorText` is the message of an error the strategy throws.
   */
  method Login(db: DatabaseStorage, username: string, password: Option<string>, kdf: Kdf, errorText: string,
               session: Option<int>) returns (reply: Reply, after: Option<int>)
    requires db.Valid()
    ensures !UsernameTaken(db.users, username, None) ==> reply == StatusReply(401) && after == session
    ensures password.None? && UsernameTaken(db.users, username, None) ==> reply == Thrown(errorText) && after == session
    ensures password.Some? ==> forall k :: k in db.users && db.users[k].username == username ==>
      (reply, after) == LoginReply(Verify(Some(db.users[k]), password.value, kdf), session, errorText)
  {
    var found := db.GetUserByUsername(username);
    if found.None? {
      return StatusReply(401), session;
    }
    if password.None? {
      return Thrown(errorText), session;
    }
    var v := Verify(found, password.value, kdf);
    reply, after := LoginReply(v, session, errorText).0, LoginReply(v, session, errorText).1;
  }

  /** POST /api/logout: 200 and no user in the session. */
  method Logout(session: Option<int>) returns (reply: Reply, after: Option<int>)
    ensures reply == StatusReply(200) && after == None
  {
    reply, after := StatusReply(200), None;
  }

  /** The user a session holds, when it is still stored. */
  function CurrentUser(users: map<int, User>, session: Option<int>): (r: Option<User>)
    ensures r.Some? <==> session.Some? && session.value in users
    ensures r.Some? ==> r.value == users[session.value]
  {
    if session.Some? && session.value in users then Some(users[session.value]) else None
  }

  /**
    `deserializeUser`: the session's user, none when it has been deleted
    since, refused when the id in the session is outside the `integer`
    range (the lookup throws).
   */
  method SessionUser(db: DatabaseStorage, session: Option<int>) returns (current: Outcome<Option<User>>)
    requires db.Valid()
    ensures current.Rejected? <==> session.Some? && !FitsInteger(session.value)
    ensures current.Ok? ==> current.value == CurrentUser(db.users, session)
  {
    if session.None? {
      return Ok(None);
    }
    current := db.GetUser(session.value);
  }

  /** The body's `username`, as the text the lookup compares, is a name some stored user already has. */
  predicate NameTaken(users: map<int, User>, body: Json) {
    var name := TextColumn(Member(body, "username"));
    name.Some? && UsernameTaken(users, name.value, None)
  }

  function UsernameExists(): Reply {
    Reply(400, JsonBody(Obj(map["error" := Str("Username already exists")])))
  }

  /** The row `{ ...req.body, password }` asks for, with the password still plain. */
  datatype NewAccount = NewAccount(id: KeyField, user: Option<InsertUser>)

  /**
    What register inserts: None when the password is no string (hashing it
    throws before anything is stored); otherwise the key the body gives and
    the user, which is None when username, email or maincro is missing or
    null. Members that are no column are ignored.
   */
  function AccountOf(body: Json): (r: Option<NewAccount>)
    ensures r.Some? <==> StrMember(body, "password").Some?
    ensures r.Some? ==> r.value.id == KeyOf(Member(body, "id"))
    ensures r.Some? ==> (r.value.user.Some? <==> && TextColumn(Member(body, "username")).Some?
                                                 && TextColumn(Member(body, "email")).Some?
                                                 && TextColumn(Member(body, "maincro")).Some?)
    ensures r.Some? && r.value.user.Some? ==>
      r.value.user.value == InsertUser(TextColumn(Member(body, "username")).value, StrMember(body, "password").value,
                                       TextColumn(Member(body, "email")).value, TextColumn(Member(body, "maincro")).value)
  {
    match StrMember(body, "password")
    case None => None
    case Some(password) =>
      var u, e, m := TextColumn(Member(body, "username")), TextColumn(Member(body, "email")), TextColumn(Member(body, "maincro"));
      var user := if u.Some? && e.Some? && m.Some? then Some(InsertUser(u.value, password, e.value, m.value)) else None;
      Some(NewAccount(KeyOf(Member(body, "id")), user))
  }

  /** The payload register stores: the body's user with the password replaced by its hash. */
  function Hashed(u: InsertUser, salt: Salt, kdf: Kdf): (r: InsertUser)
    ensures r.username == u.username && r.email == u.email && r.maincro == u.maincro
    ensures ComparePasswords(u.password, r.password, kdf) == Some(true)
  {
    ComparePasswordsRoundTrip(u.password, salt, kdf);
    u.(password := HashPassword(u.password, salt, kdf))
  }

  /**
    POST /api/register: 400 when the username is taken; an error when the
    password is no string (hashing throws) or the insert is refused;
    otherwise the user is stored with the hashed password, answered with
    201 and logged in. An `id` in the body is stored as given (a null one
    is refused), without drawing the serial; without one the serial is
    drawn even when the insert is then refused. `salt` is the random salt, `errorText` the
    message of a thrown error.
   */
  method Register(db: DatabaseStorage, body: Json, salt: Salt, kdf: Kdf, errorText: string,
                  session: Option<int>) returns (reply: Reply, after: Option<int>)
    requires db.Valid()
    modifies db
    ensures db.Valid()
    ensures db.subcros == old(db.subcros) && db.hotels == old(db.hotels)
    ensures NameTaken(old(db.users), body) ==>
      reply == UsernameExists() && after == session && db.users == old(db.users) && db.nextUserId == old(db.nextUserId)
    ensures !NameTaken(old(db.users), body) && AccountOf(body).None? ==>
      reply == Thrown(errorText) && after == session && db.users == old(db.users) && db.nextUserId == old(db.nextUserId)
    ensures !NameTaken(old(db.users), body) && AccountOf(body).Some? ==>
      var a := AccountOf(body).value;
      var id := if a.id.Key? then a.id.value else old(db.nextUserId);
      var stored := a.user.Some? && KeyFits(a.id) && !a.id.NullKey? && FitsInteger(id) && id !in old(db.users);
      && db.nextUserId == (if a.id.NoKey? && old(db.nextUserId) <= MaxInteger then old(db.nextUserId) + 1 else old(db.nextUserId))
      && (stored ==>
            var row := NewUser(id, Hashed(a.user.value, salt, kdf));
            db.users == old(db.users)[id := row] && reply == Reply(201, JsonBody(UserRecord(row))) && after == Some(id))
      && (!stored ==> db.users == old(db.users) && reply == Thrown(errorText) && after == session)
  {
    var name := TextColumn(Member(body, "username"));
    if name.Some? {
      var existing := db.GetUserByUsername(name.value);
      if existing.Some? {
        return UsernameExists(), session;
      }
    }
    var account := AccountOf(body);
    if account.None? {
      return Thrown(errorText), session;
    }
    var payload := if account.value.user.Some? then Some(Hashed(account.value.user.value, salt, kdf)) else None;
    var created := db.CreateUser(payload, account.value.id);
    if created.Rejected? {
      return Thrown(errorText), session;
    }
    reply, after := Reply(201, JsonBody(UserRecord(created.value))), Some(created.value.id);
  }
}

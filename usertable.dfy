/**
  The user management table: the maincro choices, the add form with its
  password confirmation, the edit form (which has no password), the delete
  confirmation, and the normalisation of uploaded user records before the
  bulk request.
 */
module UserTable {
  import opened Wrappers
  import opened Text
  import opened Json
  import opened Schema
  import opened Http
  import Seqs
  import Storage
  import Routes
  import Auth

  /** The maincro choices: the listed maincros that are not blank. */
  function MaincroOptions(maincros: seq<string>): (r: seq<string>)
    ensures |r| <= |maincros|
    ensures forall m :: m in r <==> m in maincros && Trim(m) != ""
  {
    Seqs.Where(maincros, m => Trim(m) != "")
  }

  // ---------------------------------------------------------------------------
  // Adding a user

  /** The add form: the insert fields and the confirmation. */
  datatype CreateForm = CreateForm(username: string, password: string, confirmPassword: string,
                                   email: string, maincro: string)

  /** The form check: the user to send, or the error shown under one field. */
  datatype FormCheck = Accepted(user: InsertUser) | FieldError(path: string, message: string)

  const Mismatch := "Passwords do not match"

  /** The add form's schema: the insert fields plus a confirmation that must equal the password. */
  function CheckCreate(f: CreateForm): (r: FormCheck)
    ensures r.Accepted? <==> f.password == f.confirmPassword
    ensures r.Accepted? ==> r.user == InsertUser(f.username, f.password, f.email, f.maincro)
    ensures r.FieldError? ==> r.path == "confirmPassword" && r.message == Mismatch
  {
    if f.password == f.confirmPassword then Accepted(InsertUser(f.username, f.password, f.email, f.maincro))
    else FieldError("confirmPassword", Mismatch)
  }

  /** The add request: POST /api/register with the form minus `confirmPassword`. */
  function RegisterRequest(f: CreateForm): Option<Request> {
    match CheckCreate(f)
    case Accepted(u) => Some(Request(Post, "/api/register", map[], UserJson(u)))
    case FieldError(_, _) => None
  }

  /**
    A request is sent exactly when the two passwords agree; its body holds
    no `confirmPassword` and no `id`, so the server draws the serial, and it
    reads back the four fields typed.
   */
  lemma RegisterSendsForm(f: CreateForm)
    ensures RegisterRequest(f).Some? <==> f.password == f.confirmPassword
    ensures RegisterRequest(f).Some? ==>
      var u := InsertUser(f.username, f.password, f.email, f.maincro);
      && Member(RegisterRequest(f).value.body, "confirmPassword").None?
      && ParseInsertUser(RegisterRequest(f).value.body) == Some(u)
      && Auth.AccountOf(RegisterRequest(f).value.body) == Some(Auth.NewAccount(NoKey, Some(u)))
  {
    if f.password == f.confirmPassword {
      var u := InsertUser(f.username, f.password, f.email, f.maincro);
      UserRoundTrip(u);
      var body := UserJson(u);
      assert Member(body, "id").None?;
      assert Member(body, "username") == Some(Str(u.username));
      assert Member(body, "email") == Some(Str(u.email));
      assert Member(body, "maincro") == Some(Str(u.maincro));
    }
  }

  // ---------------------------------------------------------------------------
  // Editing and deleting

  /** The edit form: no password field. */
  datatype EditForm = EditForm(username: string, email: string, maincro: string)

  /** The edit form filled from the user being edited. */
  function EditDefaults(u: User): (r: EditForm)
    ensures r.username == u.username && r.email == u.email && r.maincro == u.maincro
  {
    EditForm(u.username, u.email, u.maincro)
  }

  function EditBody(f: EditForm): Json {
    Obj(map["username" := Str(f.username), "email" := Str(f.email), "maincro" := Str(f.maincro)])
  }

  /** The path of the user being edited or deleted. */
  function UserPath(id: int): string {
    "/api/user/" + IntText(id)
  }

  /** The edit submit: PUT to the edited user's id; nothing without a user being edited. */
  function EditRequest(editing: Option<User>, f: EditForm): (r: Option<Request>)
    ensures r.Some? <==> editing.Some?
    ensures r.Some? ==> r.value.verb == Put && r.value.path == UserPath(editing.value.id)
  {
    if editing.None? then None else Some(Request(Put, UserPath(editing.value.id), map[], EditBody(f)))
  }

  /** The delete confirmation: DELETE to the deleted user's id; nothing without a user to delete. */
  function DeleteRequest(deleting: Option<User>): (r: Option<Request>)
    ensures r.Some? <==> deleting.Some?
    ensures r.Some? ==> r.value.verb == Delete && r.value.path == UserPath(deleting.value.id)
  {
    if deleting.None? then None else Some(Request(Delete, UserPath(deleting.value.id), map[], Null))
  }

  /** The id segment of the path splits off as the route parameter. */
  lemma UserPathParts(id: int)
    ensures Routes.PathParts(UserPath(id)) == ["", "api", "user", IntText(id)]
  {
    Routes.IdPathParts("user", id);
    assert UserPath(id) == "/api/" + "user" + "/" + IntText(id);
  }

  /** The columns the server sets from the edit form: its three fields, never the password. */
  lemma EditBodyPatch(f: EditForm)
    ensures f.username != "" && f.email != "" && f.maincro != "" ==>
      Routes.UserEdit(EditBody(f)) == Some(Storage.UserPatch(NoKey, Some(f.username), None, Some(f.email), Some(f.maincro)))
    ensures f.username == "" || f.email == "" || f.maincro == "" ==> Routes.UserEdit(EditBody(f)).None?
  {
    var b := EditBody(f);
    assert Member(b, "username") == Some(Str(f.username));
    assert Member(b, "email") == Some(Str(f.email));
    assert Member(b, "maincro") == Some(Str(f.maincro));
  }

  /**
    With a session, the edit of a form whose three fields are filled
    updates the edited user's id with those fields and never the password;
    a form with an empty field is refused.
   */
  lemma EditUpdatesOnlyForm(u: User, f: EditForm, q: map<string, string>, current: User, isEmail: string -> bool)
    ensures var req := Request(Put, UserPath(u.id), q, EditBody(f));
      var d := Routes.Decide(Routes.UpdateUser, IntText(u.id), req, Some(current), isEmail);
      && (f.username != "" && f.email != "" && f.maincro != "" ==>
            d == Routes.Invoke(Routes.UpdateUserCall(u.id,
                   Storage.UserPatch(NoKey, Some(f.username), None, Some(f.email), Some(f.maincro)))))
      && (f.username == "" || f.email == "" || f.maincro == "" ==> !d.Invoke?)
  {
    ParseIntText(u.id);
    EditBodyPatch(f);
    Routes.UpdateUserDecided(IntText(u.id), Request(Put, UserPath(u.id), q, EditBody(f)), current, isEmail);
  }

  /** With a session, the delete confirmation deletes exactly the chosen user's id. */
  lemma DeleteTargetsChosenUser(u: User, q: map<string, string>, current: User, isEmail: string -> bool)
    ensures var req := Request(Delete, UserPath(u.id), q, Null);
      Routes.Decide(Routes.DeleteUser, IntText(u.id), req, Some(current), isEmail)
        == Routes.Invoke(Routes.DeleteUserCall(u.id))
  {
    ParseIntText(u.id);
    Routes.DeleteUserDecided(IntText(u.id), Request(Delete, UserPath(u.id), q, Null), current, isEmail);
  }

  // ---------------------------------------------------------------------------
  // Bulk upload

  /** `item.key || ''`. */
  function FieldOr(item: Json, key: string): Json {
    OrDefault(Member(item, key), Str(""))
  }

  /** One uploaded record with its four fields, each defaulting to "". */
  function NormalizeOne(item: Json): (r: Json)
    ensures r.Obj? && r.fields.Keys == {"username", "password", "email", "maincro"}
  {
    Obj(map["username" := FieldOr(item, "username"), "password" := FieldOr(item, "password"),
            "email" := FieldOr(item, "email"), "maincro" := FieldOr(item, "maincro")])
  }

  /**
    The records as sent to POST /api/user/bulk, in order; reading a field
    of a `null` record throws, and then nothing is sent.
   */
  function Normalize(items: seq<Json>): (r: Option<seq<Json>>)
    ensures r.None? <==> exists i :: 0 <= i < |items| && items[i].Null?
    ensures r.Some? ==> |r.value| == |items| && forall i :: 0 <= i < |items| ==> r.value[i] == NormalizeOne(items[i])
  {
    if exists i :: 0 <= i < |items| && items[i].Null? then None
    else Some(seq(|items|, i requires 0 <= i < |items| => NormalizeOne(items[i])))
  }

  /** A record whose username is missing or empty is sent with username "", which the server refuses. */
  lemma MissingUsernameRefused(item: Json, isEmail: string -> bool)
    requires !(Member(item, "username").Some? && Truthy(Member(item, "username").value))
    ensures Routes.BulkUser(NormalizeOne(item), isEmail).None?
  {
    assert Member(NormalizeOne(item), "username") == Some(Str(""));
  }

  /**
    So one uploaded record without a username makes the server refuse the
    whole batch: nothing is stored.
   */
  lemma OneMissingUsernameRefusesBatch(items: seq<Json>, k: nat, q: map<string, string>, current: User, isEmail: string -> bool)
    requires Normalize(items).Some?
    requires k < |items| && !(Member(items[k], "username").Some? && Truthy(Member(items[k], "username").value))
    ensures !Routes.Decide(Routes.BulkUsers, "", Request(Post, "/api/user/bulk", q, Arr(Normalize(items).value)),
                           Some(current), isEmail).Invoke?
  {
    var sent := Normalize(items).value;
    MissingUsernameRefused(items[k], isEmail);
    assert Routes.BulkUser(sent[k], isEmail).None?;
    Routes.BulkUsersChecked(Request(Post, "/api/user/bulk", q, Arr(sent)), current, isEmail);
  }
}

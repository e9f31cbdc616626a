/**
  The three tables (users, subcro, hotel), their insert shapes as the
  validation schemas derived from them accept them, the two database views,
  and the key constraints the tables declare.
 */
module Schema {
  import opened Wrappers
  import opened Text
  import opened Json

  /** A row of `users`: serial id, unique username, stored password hash. */
  datatype User = User(id: int, username: string, password: string, email: string, maincro: string)

  /** The user insert payload: exactly the four text columns, no id. */
  datatype InsertUser = InsertUser(username: string, password: string, email: string, maincro: string)

  /** A row of `subcro`: plain integer key; label (`labelText`, as `label` is a Dafny keyword), flagcro and webcallback may be NULL. */
  datatype Subcro = Subcro(id: int, maincro: string, subcro: string,
                           labelText: Option<string>, flagcro: Option<int>, webcallback: Option<int>)

  /** A nullable, optional member of a payload: left out, explicitly null, or given. */
  datatype Field<T> = Absent | NullValue | Given(value: T)

  /** The subcro insert payload: every column but the id. */
  datatype InsertSubcro = InsertSubcro(maincro: string, subcro: string,
                                       labelText: Field<string>, flagcro: Field<int>, webcallback: Field<int>)

  /** A row of `hotel`, which is also its insert payload: the key is chosen by the client. */
  datatype Hotel = Hotel(codeHotel: string, subcroId: int)

  /** A row of the `hotel_maincro_subcro` view. */
  datatype HotelViewRow = HotelViewRow(codeHotel: string, subcroId: int, subcro: string, maincro: string)

  /** A row of the `user_maincro_subcro` view. */
  datatype UserViewRow = UserViewRow(id: int, email: string, maincro: string, subcro: string)

  // ---------------------------------------------------------------------------
  // Key constraints of the tables

  /** Every user is stored under its own id. */
  ghost predicate UsersKeyed(users: map<int, User>) {
    forall k :: k in users ==> users[k].id == k
  }

  /** `username` is unique. */
  ghost predicate UniqueUsernames(users: map<int, User>) {
    forall a, b :: a in users && b in users && users[a].username == users[b].username ==> a == b
  }

  ghost predicate SubcrosKeyed(subcros: map<int, Subcro>) {
    forall k :: k in subcros ==> subcros[k].id == k
  }

  ghost predicate HotelsKeyed(hotels: map<string, Hotel>) {
    forall c :: c in hotels ==> hotels[c].codeHotel == c
  }

  /** `hotel.subcroId` references `subcro.id`. */
  ghost predicate HotelsReferenceSubcros(hotels: map<string, Hotel>, subcros: map<int, Subcro>) {
    forall c :: c in hotels ==> hotels[c].subcroId in subcros
  }

  // ---------------------------------------------------------------------------
  // The `integer` columns

  /**
    The range of PostgreSQL's `integer` type, which `serial`, `subcro.id`,
    `flagcro`, `webcallback` and `hotel.subcroId` all have: a statement
    that binds a value outside it fails ("out of range for type integer"),
    whether or not any row would match.
   */
  const MinInteger: int := -0x8000_0000
  const MaxInteger: int := 0x7fff_ffff

  predicate FitsInteger(n: int) {
    MinInteger <= n <= MaxInteger
  }

  /** An optional integer member the column can hold (left out and null always can). */
  predicate FieldFits(f: Field<int>) {
    f.Given? ==> FitsInteger(f.value)
  }

  /** A subcro payload whose flags the columns can hold. */
  predicate SubcroFits(d: InsertSubcro) {
    FieldFits(d.flagcro) && FieldFits(d.webcallback)
  }

  /** A stored subcro: its key and flags are in range. */
  predicate SubcroRowFits(s: Subcro) {
    && FitsInteger(s.id)
    && (s.flagcro.Some? ==> FitsInteger(s.flagcro.value))
    && (s.webcallback.Some? ==> FitsInteger(s.webcallback.value))
  }

  /** Every stored integer is in range. */
  ghost predicate TablesFit(users: map<int, User>, subcros: map<int, Subcro>) {
    && (forall k :: k in users ==> FitsInteger(k))
    && (forall k :: k in subcros ==> SubcroRowFits(subcros[k]))
  }

  /**
    PostgreSQL's reading of a text parameter bound to an `integer` column:
    optional surrounding white space, an optional sign, decimal digits.
   */
  function IntegerText(s: string): (r: Option<int>)
    ensures r.Some? ==> Trim(s) != ""
    ensures Trim(s) != "" && AllDigits(Trim(s)) ==> r == Some(DigitsValue(Trim(s)))
  {
    var t := Trim(s);
    if |t| > 1 && t[0] == '-' && AllDigits(t[1..]) then var v: int := DigitsValue(t[1..]); Some(-v)
    else if |t| > 1 && t[0] == '+' && AllDigits(t[1..]) then Some(DigitsValue(t[1..]))
    else if t != "" && AllDigits(t) then Some(DigitsValue(t))
    else None
  }

  /** The decimal text of every integer reads back as that integer. */
  lemma IntegerTextOfIntText(n: int)
    ensures IntegerText(IntText(n)) == Some(n)
  {
    var m: nat := if n < 0 then -n else n;
    var d := NatText(m);
    DigitsValueOfNatText(m);
    var s := IntText(n);
    assert s[|s| - 1] == d[|d| - 1];
    TrimUnspaced(s);
    if n < 0 {
      assert s[1..] == d;
      assert !AllDigits(s) by {
        assert !IsDigit(s[0]);
      }
    } else {
      assert s == d;
    }
  }

  /** Text that neither starts nor ends with white space trims to itself. */
  lemma TrimUnspaced(s: string)
    requires s != [] && (s[0] == '-' || IsDigit(s[0])) && IsDigit(s[|s| - 1])
    ensures Trim(s) == s
  {
    SignOrDigitNotSpace(s[0]);
    SignOrDigitNotSpace(s[|s| - 1]);
    assert TrimStart(s) == s;
    assert TrimEnd(s) == s;
  }

  /** A sign or a digit is not white space. */
  lemma SignOrDigitNotSpace(c: char)
    requires c == '-' || IsDigit(c)
    ensures !IsSpace(c)
  {
  }

  /**
    The `id` a user insert or update sets from a body member: none (the
    serial draws one, or the key stays), a key, NULL (sent as such, which
    the NOT NULL key refuses only in a row it writes), or a value the
    statement cannot bind (a boolean, an array or object, text that is no
    integer).
   */
  datatype KeyField = NoKey | Key(value: int) | NullKey | BadKey

  /** A key field the statement binds: no key, NULL, or a number in the `integer` range. */
  predicate KeyFits(k: KeyField) {
    k.NoKey? || k.NullKey? || (k.Key? && FitsInteger(k.value))
  }

  /** The key field a body member gives; node-postgres sends a number as its decimal text. */
  function KeyOf(v: Option<Json>): (r: KeyField)
    ensures v.None? <==> r.NoKey?
    ensures v.Some? && v.value.Num? ==> r == Key(v.value.n)
    ensures v.Some? && v.value.Str? ==> r == (if IntegerText(v.value.s).Some? then Key(IntegerText(v.value.s).value) else BadKey)
    ensures v == Some(Null) <==> r.NullKey?
    ensures v.Some? && !v.value.Null? && !v.value.Num? && !v.value.Str? ==> r == BadKey
  {
    match v
    case None => NoKey
    case Some(Null) => NullKey
    case Some(Num(n)) => Key(n)
    case Some(Str(s)) => if IntegerText(s).Some? then Key(IntegerText(s).value) else BadKey
    case Some(_) => BadKey
  }

  /**
    The value a text column receives from a body member: its text
    (`String(v)`), or None for a missing or null member, which the NOT NULL
    columns refuse.
   */
  function TextColumn(v: Option<Json>): (r: Option<string>)
    ensures r.None? <==> v.None? || v.value.Null?
    ensures v.Some? && v.value.Str? ==> r == Some(v.value.s)
  {
    if v.None? || v.value.Null? then None else Some(JsString(v.value))
  }

  // ---------------------------------------------------------------------------
  // The key of a new subcro

  /** A finite set of integers holding `x` has a largest element. */
  lemma {:induction false} LargestExists(s: set<int>, x: int)
    requires x in s
    ensures exists m :: m in s && forall k :: k in s ==> k <= m
    decreases |s|
  {
    var rest := s - {x};
    if y :| y in rest {
      LargestExists(rest, y);
      var m :| m in rest && forall k :: k in rest ==> k <= m;
      var top := if x > m then x else m;
      forall k | k in s ensures k <= top {
        if k != x {
          assert k in rest;
        }
      }
    } else {
      forall k | k in s ensures k == x || k in rest {
      }
    }
  }

  /** The id `createSubcro` gives the next row: one above the largest, 1 for an empty table. */
  ghost function NextSubcroId(subcros: map<int, Subcro>): (r: int)
    ensures subcros == map[] ==> r == 1
    ensures (exists w :: w in subcros) ==> r - 1 in subcros && forall k :: k in subcros ==> k < r
  {
    if exists w :: w in subcros then
      var w :| w in subcros;
      LargestExists(subcros.Keys, w);
      var m :| m in subcros && forall k :: k in subcros ==> k <= m;
      m + 1
    else 1
  }

  /** The next id is free, and once taken the one after it is next. */
  lemma NextAfterInsert(m: map<int, Subcro>, v: Subcro)
    ensures NextSubcroId(m) !in m
    ensures NextSubcroId(m[NextSubcroId(m) := v]) == NextSubcroId(m) + 1
  {
    var id := NextSubcroId(m);
    var r := m[id := v];
    assert id in r;
  }

  // ---------------------------------------------------------------------------
  // Looking up a loaded list

  /** `subcros.find(s => s.id === id)`: the first subcro with that id. */
  function FindSubcro(subcros: seq<Subcro>, id: int): (r: Option<Subcro>)
    ensures r.Some? <==> exists i :: 0 <= i < |subcros| && subcros[i].id == id
    ensures r.Some? ==> exists i :: 0 <= i < |subcros| && subcros[i] == r.value && r.value.id == id
                          && forall j :: 0 <= j < i ==> subcros[j].id != id
    decreases |subcros|
  {
    if subcros == [] then None
    else if subcros[0].id == id then Some(subcros[0])
    else
      var r := FindSubcro(subcros[1..], id);
      assert forall i :: 1 <= i < |subcros| ==> subcros[i] == subcros[1..][i - 1];
      r
  }

  /** The subcro at the first index with the id is the one found. */
  lemma {:induction false} FindSubcroFirst(subcros: seq<Subcro>, id: int, i: nat)
    requires i < |subcros| && subcros[i].id == id
    requires forall j :: 0 <= j < i ==> subcros[j].id != id
    ensures FindSubcro(subcros, id) == Some(subcros[i])
    decreases i
  {
    if i > 0 {
      assert subcros[0].id != id;
      FindSubcroFirst(subcros[1..], id, i - 1);
    }
  }

  // ---------------------------------------------------------------------------
  // Inserting a payload

  function NewUser(id: int, u: InsertUser): (r: User)
    ensures r.id == id
    ensures InsertUser(r.username, r.password, r.email, r.maincro) == u
  {
    User(id, u.username, u.password, u.email, u.maincro)
  }

  /** The column value a payload field gives when the row is first inserted. */
  function Initial<T>(f: Field<T>): (r: Option<T>)
    ensures r.Some? <==> f.Given?
    ensures f.Given? ==> r.value == f.value
  {
    if f.Given? then Some(f.value) else None
  }

  /** The column value after `UPDATE ... SET` with the payload: a left-out field keeps the column. */
  function Overwrite<T>(current: Option<T>, f: Field<T>): (r: Option<T>)
    ensures f.Absent? ==> r == current
    ensures !f.Absent? ==> r == Initial(f)
  {
    match f
    case Absent => current
    case NullValue => None
    case Given(v) => Some(v)
  }

  /** The row an insert of `data` with key `id` creates. */
  function NewSubcro(id: int, data: InsertSubcro): (r: Subcro)
    ensures r.id == id && r.maincro == data.maincro && r.subcro == data.subcro
    ensures r.labelText == Initial(data.labelText) && r.flagcro == Initial(data.flagcro)
    ensures r.webcallback == Initial(data.webcallback)
  {
    Subcro(id, data.maincro, data.subcro, Initial(data.labelText), Initial(data.flagcro), Initial(data.webcallback))
  }

  /** The row an update of `row` with `data` leaves: the key is kept. */
  function UpdatedSubcro(row: Subcro, data: InsertSubcro): (r: Subcro)
    ensures r.id == row.id && r.maincro == data.maincro && r.subcro == data.subcro
    ensures r.labelText == Overwrite(row.labelText, data.labelText) && r.flagcro == Overwrite(row.flagcro, data.flagcro)
    ensures r.webcallback == Overwrite(row.webcallback, data.webcallback)
  {
    Subcro(row.id, data.maincro, data.subcro, Overwrite(row.labelText, data.labelText),
           Overwrite(row.flagcro, data.flagcro), Overwrite(row.webcallback, data.webcallback))
  }

  // ---------------------------------------------------------------------------
  // The insert schemas as parsers of a JSON body (unknown members are dropped)

  function StrMember(j: Json, key: string): Option<string> {
    match Member(j, key)
    case Some(Str(s)) => Some(s)
    case _ => None
  }

  function NumMember(j: Json, key: string): Option<int> {
    match Member(j, key)
    case Some(Num(n)) => Some(n)
    case _ => None
  }

  /** An optional, nullable member; None when it is present with the wrong type. */
  function OptionalStr(j: Json, key: string): Option<Field<string>> {
    match Member(j, key)
    case None => Some(Absent)
    case Some(Null) => Some(NullValue)
    case Some(Str(s)) => Some(Given(s))
    case Some(_) => None
  }

  function OptionalNum(j: Json, key: string): Option<Field<int>> {
    match Member(j, key)
    case None => Some(Absent)
    case Some(Null) => Some(NullValue)
    case Some(Num(n)) => Some(Given(n))
    case Some(_) => None
  }

  /** `insertUserSchema.parse`: four required strings. */
  function ParseInsertUser(j: Json): (r: Option<InsertUser>)
    ensures r.Some? <==> && StrMember(j, "username").Some? && StrMember(j, "password").Some?
                         && StrMember(j, "email").Some? && StrMember(j, "maincro").Some?
    ensures r.Some? ==> r.value == InsertUser(StrMember(j, "username").value, StrMember(j, "password").value,
                                              StrMember(j, "email").value, StrMember(j, "maincro").value)
  {
    match (StrMember(j, "username"), StrMember(j, "password"), StrMember(j, "email"), StrMember(j, "maincro"))
    case (Some(u), Some(p), Some(e), Some(m)) => Some(InsertUser(u, p, e, m))
    case _ => None
  }

  /** `insertSubcroSchema.parse`: maincro and subcro required, the rest optional and nullable. */
  function ParseInsertSubcro(j: Json): (r: Option<InsertSubcro>)
    ensures r.Some? <==> && StrMember(j, "maincro").Some? && StrMember(j, "subcro").Some?
                         && OptionalStr(j, "label").Some? && OptionalNum(j, "flagcro").Some?
                         && OptionalNum(j, "webcallback").Some?
    ensures r.Some? ==> && r.value.maincro == StrMember(j, "maincro").value && r.value.subcro == StrMember(j, "subcro").value
                        && r.value.labelText == OptionalStr(j, "label").value
                        && r.value.flagcro == OptionalNum(j, "flagcro").value
                        && r.value.webcallback == OptionalNum(j, "webcallback").value
  {
    match (StrMember(j, "maincro"), StrMember(j, "subcro"),
           OptionalStr(j, "label"), OptionalNum(j, "flagcro"), OptionalNum(j, "webcallback"))
    case (Some(m), Some(s), Some(l), Some(f), Some(w)) => Some(InsertSubcro(m, s, l, f, w))
    case _ => None
  }

  /** `insertHotelSchema.parse`: both the key and the reference are required. */
  function ParseInsertHotel(j: Json): (r: Option<Hotel>)
    ensures r.Some? <==> StrMember(j, "codeHotel").Some? && NumMember(j, "subcroId").Some?
    ensures r.Some? ==> r.value == Hotel(StrMember(j, "codeHotel").value, NumMember(j, "subcroId").value)
  {
    match (StrMember(j, "codeHotel"), NumMember(j, "subcroId"))
    case (Some(c), Some(s)) => Some(Hotel(c, s))
    case _ => None
  }

  // The JSON a client sends for a payload.

  function UserJson(u: InsertUser): Json {
    Obj(map["username" := Str(u.username), "password" := Str(u.password),
            "email" := Str(u.email), "maincro" := Str(u.maincro)])
  }

  function FieldMembers<T>(key: string, f: Field<T>, enc: T -> Json): map<string, Json> {
    match f
    case Absent => map[]
    case NullValue => map[key := Json.Null]
    case Given(v) => map[key := enc(v)]
  }

  function SubcroJson(d: InsertSubcro): Json {
    Obj(map["maincro" := Str(d.maincro), "subcro" := Str(d.subcro)]
        + FieldMembers("label", d.labelText, (s: string) => Str(s))
        + FieldMembers("flagcro", d.flagcro, (n: int) => Num(n))
        + FieldMembers("webcallback", d.webcallback, (n: int) => Num(n)))
  }

  function HotelJson(h: Hotel): Json {
    Obj(map["codeHotel" := Str(h.codeHotel), "subcroId" := Num(h.subcroId)])
  }

  /** Every user payload survives the JSON round trip through the schema. */
  lemma UserRoundTrip(u: InsertUser)
    ensures ParseInsertUser(UserJson(u)) == Some(u)
  {
  }

  /** Every subcro payload, with each optional member left out, null or given, survives the round trip. */
  lemma SubcroRoundTrip(d: InsertSubcro)
    ensures ParseInsertSubcro(SubcroJson(d)) == Some(d)
  {
    SubcroJsonMembers(d);
  }

  /** The payload's JSON, built one field at a time. */
  lemma SubcroJsonLayers(d: InsertSubcro) returns (base: map<string, Json>, m1: map<string, Json>, m2: map<string, Json>)
    ensures base == map["maincro" := Str(d.maincro), "subcro" := Str(d.subcro)]
    ensures m1 == base + FieldMembers("label", d.labelText, (s: string) => Str(s))
    ensures m2 == m1 + FieldMembers("flagcro", d.flagcro, (n: int) => Num(n))
    ensures SubcroJson(d) == Obj(m2 + FieldMembers("webcallback", d.webcallback, (n: int) => Num(n)))
  {
    base := map["maincro" := Str(d.maincro), "subcro" := Str(d.subcro)];
    m1 := base + FieldMembers("label", d.labelText, (s: string) => Str(s));
    m2 := m1 + FieldMembers("flagcro", d.flagcro, (n: int) => Num(n));
  }

  /** Each member of the payload's JSON reads back as the payload's field. */
  lemma SubcroJsonMembers(d: InsertSubcro)
    ensures StrMember(SubcroJson(d), "maincro") == Some(d.maincro)
    ensures StrMember(SubcroJson(d), "subcro") == Some(d.subcro)
    ensures OptionalStr(SubcroJson(d), "label") == Some(d.labelText)
    ensures OptionalNum(SubcroJson(d), "flagcro") == Some(d.flagcro)
    ensures OptionalNum(SubcroJson(d), "webcallback") == Some(d.webcallback)
  {
    SubcroJsonRequired(d);
    SubcroJsonLabel(d);
    SubcroJsonFlag(d);
    SubcroJsonCallback(d);
  }

  lemma SubcroJsonRequired(d: InsertSubcro)
    ensures StrMember(SubcroJson(d), "maincro") == Some(d.maincro)
    ensures StrMember(SubcroJson(d), "subcro") == Some(d.subcro)
  {
    var base, m1, m2 := SubcroJsonLayers(d);
    forall k | k == "maincro" || k == "subcro"
      ensures Member(SubcroJson(d), k) == Some(base[k])
    {
      OtherMemberKept(base, "label", d.labelText, (s: string) => Str(s), k);
      OtherMemberKept(m1, "flagcro", d.flagcro, (n: int) => Num(n), k);
      OtherMemberKept(m2, "webcallback", d.webcallback, (n: int) => Num(n), k);
    }
  }

  lemma SubcroJsonLabel(d: InsertSubcro)
    ensures OptionalStr(SubcroJson(d), "label") == Some(d.labelText)
  {
    var base, m1, m2 := SubcroJsonLayers(d);
    OwnMemberStr(base, "label", d.labelText);
    OtherMemberKept(m1, "flagcro", d.flagcro, (n: int) => Num(n), "label");
    OtherMemberKept(m2, "webcallback", d.webcallback, (n: int) => Num(n), "label");
    assert Member(SubcroJson(d), "label") == Member(Obj(m1), "label");
  }

  lemma SubcroJsonFlag(d: InsertSubcro)
    ensures OptionalNum(SubcroJson(d), "flagcro") == Some(d.flagcro)
  {
    var base, m1, m2 := SubcroJsonLayers(d);
    OtherMemberKept(base, "label", d.labelText, (s: string) => Str(s), "flagcro");
    OwnMemberNum(m1, "flagcro", d.flagcro);
    OtherMemberKept(m2, "webcallback", d.webcallback, (n: int) => Num(n), "flagcro");
    assert Member(SubcroJson(d), "flagcro") == Member(Obj(m2), "flagcro");
  }

  lemma SubcroJsonCallback(d: InsertSubcro)
    ensures OptionalNum(SubcroJson(d), "webcallback") == Some(d.webcallback)
  {
    var base, m1, m2 := SubcroJsonLayers(d);
    OtherMemberKept(base, "label", d.labelText, (s: string) => Str(s), "webcallback");
    OtherMemberKept(m1, "flagcro", d.flagcro, (n: int) => Num(n), "webcallback");
    OwnMemberNum(m2, "webcallback", d.webcallback);
  }

  /** A text field's member reads back as the field when the key was free. */
  lemma OwnMemberStr(m: map<string, Json>, key: string, f: Field<string>)
    requires key !in m
    ensures OptionalStr(Obj(m + FieldMembers(key, f, (s: string) => Str(s))), key) == Some(f)
  {
  }

  /** A number field's member reads back as the field when the key was free. */
  lemma OwnMemberNum(m: map<string, Json>, key: string, f: Field<int>)
    requires key !in m
    ensures OptionalNum(Obj(m + FieldMembers(key, f, (n: int) => Num(n))), key) == Some(f)
  {
  }

  /** Adding the members of one field leaves every other key as it was. */
  lemma OtherMemberKept<T>(m: map<string, Json>, key: string, f: Field<T>, enc: T -> Json, other: string)
    requires other != key
    ensures other in m + FieldMembers(key, f, enc) <==> other in m
    ensures other in m ==> (m + FieldMembers(key, f, enc))[other] == m[other]
  {
  }

  lemma HotelRoundTrip(h: Hotel)
    ensures ParseInsertHotel(HotelJson(h)) == Some(h)
  {
  }

  /**
    Neither insert schema reads an `id` member: a subcro body, which the
    create and update routes parse with it, leaves the key to the server.
    No route parses a user body with its schema: register and the user
    edit pass a body's `id` on (`Auth.AccountOf`, `Routes.UserEdit`).
   */
  lemma IdIsNotPartOfPayload(fields: map<string, Json>, id: Json)
    ensures ParseInsertUser(Obj(fields["id" := id])) == ParseInsertUser(Obj(fields))
    ensures ParseInsertSubcro(Obj(fields["id" := id])) == ParseInsertSubcro(Obj(fields))
  {
    var a, b := Obj(fields["id" := id]), Obj(fields);
    forall k | k != "id" ensures Member(a, k) == Member(b, k) { }
    assert StrMember(a, "maincro") == StrMember(b, "maincro");
    assert StrMember(a, "subcro") == StrMember(b, "subcro");
    assert OptionalStr(a, "label") == OptionalStr(b, "label");
    assert OptionalNum(a, "flagcro") == OptionalNum(b, "flagcro");
    assert OptionalNum(a, "webcallback") == OptionalNum(b, "webcallback");
  }

  /** A subcro body without a string `maincro` or `subcro` is rejected. */
  lemma SubcroRequiredColumns(j: Json)
    requires StrMember(j, "maincro").None? || StrMember(j, "subcro").None?
    ensures ParseInsertSubcro(j).None?
  {
  }
}

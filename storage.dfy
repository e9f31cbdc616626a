/**
  The storage layer: the `users`, `subcro` and `hotel` tables held as maps
  from primary key to row, and the `DatabaseStorage` operations on them.
  A statement the database would refuse (duplicate key, unique username,
  missing referenced subcro, deleting a referenced subcro, a value outside
  the `integer` range, an exhausted serial) leaves the tables as they were
  and yields `Rejected`, which the route handlers turn into a 500 answer.
 */
module Storage {
  import opened Wrappers
  import opened Text
  import opened Schema
  import opened Seqs
  import ViewQuery
  import HotelCodes

  /** The outcome of a statement the database may refuse. */
  datatype Outcome<T> = Ok(value: T) | Rejected

  /** The columns an update of a user sets: `NoKey` keeps the key, a None column keeps its value. */
  datatype UserPatch = UserPatch(id: KeyField, username: Option<string>, password: Option<string>,
                                 email: Option<string>, maincro: Option<string>)

  function Keep(current: string, given: Option<string>): string {
    if given.Some? then given.value else current
  }

  /** The row `UPDATE users SET ...` leaves: a given key and given columns replace the old ones. */
  function Patched(u: User, p: UserPatch): (r: User)
    ensures p.id.Key? ==> r.id == p.id.value
    ensures !p.id.Key? ==> r.id == u.id
    ensures p.username.None? ==> r.username == u.username
    ensures p.username.Some? ==> r.username == p.username.value
    ensures p.password.None? ==> r.password == u.password
    ensures p.password.Some? ==> r.password == p.password.value
    ensures p.email.None? ==> r.email == u.email
    ensures p.email.Some? ==> r.email == p.email.value
    ensures p.maincro.None? ==> r.maincro == u.maincro
    ensures p.maincro.Some? ==> r.maincro == p.maincro.value
  {
    User(if p.id.Key? then p.id.value else u.id, Keep(u.username, p.username), Keep(u.password, p.password),
         Keep(u.email, p.email), Keep(u.maincro, p.maincro))
  }

  /** Some user other than `except` already has this username. */
  predicate UsernameTaken(users: map<int, User>, username: string, except: Option<int>) {
    exists k :: k in users && users[k].username == username && Some(k) != except
  }

  /** Some hotel references the subcro `id`. */
  predicate Referenced(hotels: map<string, Hotel>, id: int) {
    exists c :: c in hotels && hotels[c].subcroId == id
  }

  /** `parseInt(max_id || '0') + 1` on the `MAX(id)` of the subcros: the next id. */
  method ReadNextSubcroId(subcros: map<int, Subcro>) returns (newId: int)
    ensures newId == NextSubcroId(subcros)
  {
    var maxId := LargestId(subcros.Keys);
    var maxText := if subcros == map[] then "0" else IntText(maxId);
    MaxTextParses(subcros, maxId);
    var parsed := ParseInt(maxText);
    newId := parsed.value + 1;
  }

  /** A subcro inserted with a key and flags in range keeps the subcro invariants of the tables. */
  lemma NewSubcroKeepsTables(users: map<int, User>, subcros: map<int, Subcro>, hotels: map<string, Hotel>,
                             id: int, d: InsertSubcro)
    requires SubcrosKeyed(subcros) && TablesFit(users, subcros) && HotelsReferenceSubcros(hotels, subcros)
    requires FitsInteger(id) && SubcroFits(d)
    ensures var s := subcros[id := NewSubcro(id, d)];
      SubcrosKeyed(s) && TablesFit(users, s) && HotelsReferenceSubcros(hotels, s)
  {
  }

  /** The `MAX(id)` text `createSubcro` reads back parses to one below the next id. */
  lemma MaxTextParses(subcros: map<int, Subcro>, maxId: int)
    requires subcros == map[] ==> maxId == 0
    requires subcros != map[] ==> maxId in subcros && forall k :: k in subcros ==> k <= maxId
    ensures ParseInt(if subcros == map[] then "0" else IntText(maxId)) == Some(NextSubcroId(subcros) - 1)
  {
    ParseIntText(maxId);
    if subcros == map[] {
      assert IntText(0) == "0";
    } else {
      assert NextSubcroId(subcros) - 1 <= maxId < NextSubcroId(subcros);
    }
  }

  /** `SELECT MAX(id)`, read back as `parseInt(max_id || '0')`: 0 for an empty table. */
  method LargestId(ids: set<int>) returns (m: int)
    ensures ids == {} ==> m == 0
    ensures ids != {} ==> m in ids && forall k :: k in ids ==> k <= m
  {
    var rest := ids;
    var found := false;
    m := 0;
    while rest != {}
      invariant rest <= ids
      invariant found <==> rest != ids
      invariant found ==> m in ids && forall k :: k in ids && k !in rest ==> k <= m
      invariant !found ==> m == 0
      decreases |rest|
    {
      var k := Pick(rest);
      if !found || k > m {
        m := k;
      }
      found := true;
      rest := rest - {k};
    }
  }

  /** Some element of a non-empty set. */
  method Pick<K>(s: set<K>) returns (k: K)
    requires s != {}
    ensures k in s
  {
    k :| k in s;
  }

  /** The keys of a table, each once, in the unspecified order of a `SELECT` without `ORDER BY`. */
  method KeysInSomeOrder<K>(s: set<K>) returns (ks: seq<K>)
    ensures |ks| == |s| && Distinct(ks)
    ensures forall k :: k in ks <==> k in s
  {
    ks := [];
    var rest := s;
    while rest != {}
      invariant rest <= s
      invariant forall k :: k in ks <==> k in s - rest
      invariant Distinct(ks)
      invariant |ks| + |rest| == |s|
      decreases |rest|
    {
      var k := Pick(rest);
      ks := ks + [k];
      rest := rest - {k};
    }
  }

  /** One entry of the subcro list for a maincro. */
  datatype SubcroChoice = SubcroChoice(id: int, subcro: string)

  function BySubcroName(a: SubcroChoice, b: SubcroChoice): bool {
    Less(a.subcro, b.subcro)
  }

  lemma BySubcroNameStrict()
    ensures StrictOrder(BySubcroName)
  {
    forall a ensures !BySubcroName(a, a) {
      LessIrreflexive(a.subcro);
    }
    forall a, b, c | BySubcroName(a, b) && BySubcroName(b, c) ensures BySubcroName(a, c) {
      LessTransitive(a.subcro, b.subcro, c.subcro);
    }
  }

  class DatabaseStorage {
    var users: map<int, User>
    /** The `users.id` serial sequence: the id the next insert draws. */
    var nextUserId: int
    var subcros: map<int, Subcro>
    var hotels: map<string, Hotel>

    /**
      The key, unique and reference constraints the schema declares, the
      `integer` range of the stored keys and flags, and the serial between
      its start and one past the largest `integer`.
     */
    ghost predicate Valid()
      reads this
    {
      && UsersKeyed(users) && UniqueUsernames(users)
      && 1 <= nextUserId <= MaxInteger + 1
      && SubcrosKeyed(subcros) && TablesFit(users, subcros)
      && HotelsKeyed(hotels) && HotelsReferenceSubcros(hotels, subcros)
    }

    constructor ()
      ensures Valid()
      ensures users == map[] && subcros == map[] && hotels == map[] && nextUserId == 1
    {
      users, subcros, hotels := map[], map[], map[];
      nextUserId := 1;
    }

    // -------------------------------------------------------------------------
    // users

    /** The user `id`; refused for an id outside the `integer` range. */
    method GetUser(id: int) returns (r: Outcome<Option<User>>)
      requires Valid()
      ensures r.Rejected? <==> !FitsInteger(id)
      ensures r.Ok? ==> (r.value.Some? <==> id in users)
      ensures r.Ok? && r.value.Some? ==> r.value.value == users[id] && r.value.value.id == id
    {
      if !FitsInteger(id) {
        return Rejected;
      }
      r := Ok(if id in users then Some(users[id]) else None);
    }

    method GetUserByUsername(username: string) returns (r: Option<User>)
      requires Valid()
      ensures r.None? <==> !UsernameTaken(users, username, None)
      ensures r.Some? ==> r.value.id in users && users[r.value.id] == r.value && r.value.username == username
    {
      var rest := users.Keys;
      while rest != {}
        invariant rest <= users.Keys
        invariant forall k :: k in users.Keys - rest ==> users[k].username != username
        decreases |rest|
      {
        var k := Pick(rest);
        if users[k].username == username {
          return Some(users[k]);
        }
        rest := rest - {k};
      }
      return None;
    }

    /**
      Inserts a user under the given key, or under the next serial value when
      no key is given. `u` is None when the payload misses a NOT NULL column
      or gives null for one. The serial advances whenever it is drawn, even
      when the insert is then refused (a missing column, a taken key or
      username); past the largest `integer` it cannot be drawn and does not
      advance. A given key leaves the serial alone, so a later insert may
      draw that key and fail; a NULL key is given too, and the row it would
      write is refused.
     */
    method CreateUser(u: Option<InsertUser>, key: KeyField) returns (r: Outcome<User>)
      requires Valid()
      modifies this
      ensures Valid()
      ensures subcros == old(subcros) && hotels == old(hotels)
      ensures nextUserId == if key.NoKey? && old(nextUserId) <= MaxInteger then old(nextUserId) + 1 else old(nextUserId)
      ensures var id := if key.Key? then key.value else old(nextUserId);
        && (r.Ok? <==> && u.Some? && KeyFits(key) && !key.NullKey? && FitsInteger(id) && id !in old(users)
                       && !UsernameTaken(old(users), u.value.username, None))
        && (r.Ok? ==> r.value == NewUser(id, u.value) && users == old(users)[id := r.value])
        && (r.Rejected? ==> users == old(users))
    {
      if !KeyFits(key) || key.NullKey? {
        return Rejected;
      }
      var id: int;
      if key.Key? {
        id := key.value;
      } else {
        if nextUserId > MaxInteger {
          return Rejected;
        }
        id := nextUserId;
        nextUserId := nextUserId + 1;
      }
      if u.None? || id in users {
        return Rejected;
      }
      var existing := GetUserByUsername(u.value.username);
      if existing.Some? {
        return Rejected;
      }
      var row := NewUser(id, u.value);
      users := users[id := row];
      return Ok(row);
    }

    method GetAllUsers() returns (r: seq<User>)
      requires Valid()
      ensures |r| == |users|
      ensures forall i :: 0 <= i < |r| ==> r[i].id in users && users[r[i].id] == r[i]
      ensures forall i, j :: 0 <= i < j < |r| ==> r[i].id != r[j].id
      ensures forall k :: k in users ==> users[k] in r
    {
      var ks := KeysInSomeOrder(users.Keys);
      var table := users;
      r := seq(|ks|, i requires 0 <= i < |ks| => table[ks[i]]);
      assert forall i :: 0 <= i < |r| ==> r[i].id == ks[i];
      forall k | k in users ensures users[k] in r {
        var i :| 0 <= i < |ks| && ks[i] == k;
        assert r[i] == users[k];
      }
    }

    /**
      Sets the given columns of the user `id`. Refused at once when `id` or
      a given new key cannot be bound as an `integer`; then nothing happens
      and None comes back when there is no such user; the update is refused
      when the new key is NULL (the row it writes breaks NOT NULL) or belongs
      to another user, or the new username does. A new key moves the row.
     */
    method UpdateUser(id: int, patch: UserPatch) returns (r: Outcome<Option<User>>)
      requires Valid()
      modifies this
      ensures Valid()
      ensures nextUserId == old(nextUserId) && subcros == old(subcros) && hotels == old(hotels)
      ensures r.Rejected? || r == Ok(None) ==> users == old(users)
      ensures !(FitsInteger(id) && KeyFits(patch.id)) ==> r == Rejected
      ensures FitsInteger(id) && KeyFits(patch.id) && id !in old(users) ==> r == Ok(None)
      ensures FitsInteger(id) && KeyFits(patch.id) && id in old(users) ==>
        var row := Patched(old(users)[id], patch);
        && (r.Rejected? <==> patch.id.NullKey? || (row.id != id && row.id in old(users)) || UsernameTaken(old(users), row.username, Some(id)))
        && (r.Ok? ==> r == Ok(Some(row)) && users == (old(users) - {id})[row.id := row])
    {
      if !FitsInteger(id) || !KeyFits(patch.id) {
        return Rejected;
      }
      if id !in users {
        return Ok(None);
      }
      if patch.id.NullKey? {
        return Rejected;
      }
      var row := Patched(users[id], patch);
      if row.id != id && row.id in users {
        return Rejected;
      }
      var clash := GetUserByUsername(row.username);
      if clash.Some? && clash.value.id != id {
        return Rejected;
      }
      users := (users - {id})[row.id := row];
      return Ok(Some(row));
    }

    /** Deletes the user `id`; refused for an id outside the `integer` range. */
    method DeleteUser(id: int) returns (r: Outcome<bool>)
      requires Valid()
      modifies this
      ensures Valid()
      ensures nextUserId == old(nextUserId) && subcros == old(subcros) && hotels == old(hotels)
      ensures r.Rejected? <==> !FitsInteger(id)
      ensures r.Rejected? ==> users == old(users)
      ensures r.Ok? ==> r.value == (id in old(users)) && users == old(users) - {id}
    {
      if !FitsInteger(id) {
        return Rejected;
      }
      r := Ok(id in users);
      users := users - {id};
    }

    // -------------------------------------------------------------------------
    // hotels

    method GetAllHotels() returns (r: seq<Hotel>)
      requires Valid()
      ensures |r| == |hotels|
      ensures forall i :: 0 <= i < |r| ==> r[i].codeHotel in hotels && hotels[r[i].codeHotel] == r[i]
      ensures forall i, j :: 0 <= i < j < |r| ==> r[i].codeHotel != r[j].codeHotel
      ensures forall c :: c in hotels ==> hotels[c] in r
    {
      var ks := KeysInSomeOrder(hotels.Keys);
      var table := hotels;
      r := seq(|ks|, i requires 0 <= i < |ks| => table[ks[i]]);
      assert forall i :: 0 <= i < |r| ==> r[i].codeHotel == ks[i];
      forall c | c in hotels ensures hotels[c] in r {
        var i :| 0 <= i < |ks| && ks[i] == c;
        assert r[i] == hotels[c];
      }
    }

    method GetHotel(codeHotel: string) returns (r: Option<Hotel>)
      requires Valid()
      ensures r.Some? <==> codeHotel in hotels
      ensures r.Some? ==> r.value == hotels[codeHotel] && r.value.codeHotel == codeHotel
    {
      r := if codeHotel in hotels then Some(hotels[codeHotel]) else None;
    }

    /** Inserts a hotel under its own code; refused for a taken code or a missing subcro. */
    method CreateHotel(h: Hotel) returns (r: Outcome<Hotel>)
      requires Valid()
      modifies this
      ensures Valid()
      ensures users == old(users) && nextUserId == old(nextUserId) && subcros == old(subcros)
      ensures r.Rejected? <==> h.codeHotel in old(hotels) || h.subcroId !in subcros
      ensures r.Rejected? ==> hotels == old(hotels)
      ensures r.Ok? ==> r.value == h && hotels == old(hotels)[h.codeHotel := h]
    {
      if h.codeHotel in hotels || h.subcroId !in subcros {
        return Rejected;
      }
      hotels := hotels[h.codeHotel := h];
      return Ok(h);
    }

    /**
      Overwrites the hotel `codeHotel` with `h`, which may carry another code:
      the row then moves to the new key. Refused at once for a subcro id
      outside the `integer` range; then None when there is no such hotel;
      refused when the new code belongs to another hotel or the subcro is missing.
     */
    method UpdateHotel(codeHotel: string, h: Hotel) returns (r: Outcome<Option<Hotel>>)
      requires Valid()
      modifies this
      ensures Valid()
      ensures users == old(users) && nextUserId == old(nextUserId) && subcros == old(subcros)
      ensures !FitsInteger(h.subcroId) ==> r == Rejected
      ensures FitsInteger(h.subcroId) && codeHotel !in old(hotels) ==> r == Ok(None)
      ensures codeHotel in old(hotels) ==>
        (r.Rejected? <==> (h.codeHotel != codeHotel && h.codeHotel in old(hotels)) || h.subcroId !in subcros)
      ensures r.Rejected? || r == Ok(None) ==> hotels == old(hotels)
      ensures codeHotel in old(hotels) && r.Ok? ==>
        r.value == Some(h) && hotels == (old(hotels) - {codeHotel})[h.codeHotel := h]
    {
      if !FitsInteger(h.subcroId) {
        return Rejected;
      }
      if codeHotel !in hotels {
        return Ok(None);
      }
      if (h.codeHotel != codeHotel && h.codeHotel in hotels) || h.subcroId !in subcros {
        return Rejected;
      }
      hotels := (hotels - {codeHotel})[h.codeHotel := h];
      return Ok(Some(h));
    }

    method DeleteHotel(codeHotel: string) returns (deleted: bool)
      requires Valid()
      modifies this
      ensures Valid()
      ensures deleted <==> codeHotel in old(hotels)
      ensures hotels == old(hotels) - {codeHotel}
      ensures users == old(users) && nextUserId == old(nextUserId) && subcros == old(subcros)
    {
      deleted := codeHotel in hotels;
      hotels := hotels - {codeHotel};
    }

    // -------------------------------------------------------------------------
    // subcros

    method GetAllSubcros() returns (r: seq<Subcro>)
      requires Valid()
      ensures |r| == |subcros|
      ensures forall i :: 0 <= i < |r| ==> r[i].id in subcros && subcros[r[i].id] == r[i]
      ensures forall i, j :: 0 <= i < j < |r| ==> r[i].id != r[j].id
      ensures forall k :: k in subcros ==> subcros[k] in r
    {
      var ks := KeysInSomeOrder(subcros.Keys);
      var table := subcros;
      r := seq(|ks|, i requires 0 <= i < |ks| => table[ks[i]]);
      assert forall i :: 0 <= i < |r| ==> r[i].id == ks[i];
      forall k | k in subcros ensures subcros[k] in r {
        var i :| 0 <= i < |ks| && ks[i] == k;
        assert r[i] == subcros[k];
      }
    }

    /** The subcro `id`; refused for an id outside the `integer` range. */
    method GetSubcro(id: int) returns (r: Outcome<Option<Subcro>>)
      requires Valid()
      ensures r.Rejected? <==> !FitsInteger(id)
      ensures r.Ok? ==> (r.value.Some? <==> id in subcros)
      ensures r.Ok? && r.value.Some? ==> r.value.value == subcros[id] && r.value.value.id == id
    {
      if !FitsInteger(id) {
        return Rejected;
      }
      r := Ok(if id in subcros then Some(subcros[id]) else None);
    }

    /**
      Inserts a subcro under the id one above the largest existing one (1 for
      an empty table), read back through `parseInt` of the `MAX(id)` text.
      Refused when that id or a given flag is outside the `integer` range.
     */
    method CreateSubcro(data: InsertSubcro) returns (r: Outcome<Subcro>)
      requires Valid()
      modifies this
      ensures Valid()
      ensures users == old(users) && nextUserId == old(nextUserId) && hotels == old(hotels)
      ensures var id := NextSubcroId(old(subcros));
        && (r.Ok? <==> FitsInteger(id) && SubcroFits(data))
        && (r.Ok? ==> r.value == NewSubcro(id, data) && subcros == old(subcros)[id := r.value])
        && (r.Rejected? ==> subcros == old(subcros))
    {
      var newId := ReadNextSubcroId(subcros);
      if !FitsInteger(newId) || !SubcroFits(data) {
        return Rejected;
      }
      var row := NewSubcro(newId, data);
      NewSubcroKeepsTables(users, subcros, hotels, newId, data);
      subcros := subcros[newId := row];
      return Ok(row);
    }

    /**
      Sets the given columns of the subcro `id`, keeping its key. Refused
      when `id` or a given flag is outside the `integer` range; otherwise
      None when there is no such subcro.
     */
    method UpdateSubcro(id: int, data: InsertSubcro) returns (r: Outcome<Option<Subcro>>)
      requires Valid()
      modifies this
      ensures Valid()
      ensures users == old(users) && nextUserId == old(nextUserId) && hotels == old(hotels)
      ensures !(FitsInteger(id) && SubcroFits(data)) ==> r == Rejected
      ensures FitsInteger(id) && SubcroFits(data) && id !in old(subcros) ==> r == Ok(None)
      ensures r.Rejected? || r == Ok(None) ==> subcros == old(subcros)
      ensures FitsInteger(id) && SubcroFits(data) && id in old(subcros) ==>
        && r == Ok(Some(UpdatedSubcro(old(subcros)[id], data)))
        && subcros == old(subcros)[id := UpdatedSubcro(old(subcros)[id], data)]
    {
      if !FitsInteger(id) || !SubcroFits(data) {
        return Rejected;
      }
      if id !in subcros {
        return Ok(None);
      }
      var row := UpdatedSubcro(subcros[id], data);
      subcros := subcros[id := row];
      return Ok(Some(row));
    }

    /** Deletes the subcro `id`; refused for an id outside the `integer` range, or while a hotel references it. */
    method DeleteSubcro(id: int) returns (r: Outcome<bool>)
      requires Valid()
      modifies this
      ensures Valid()
      ensures users == old(users) && nextUserId == old(nextUserId) && hotels == old(hotels)
      ensures r.Rejected? <==> !FitsInteger(id) || Referenced(hotels, id)
      ensures r.Rejected? ==> subcros == old(subcros)
      ensures r.Ok? ==> r.value == (id in old(subcros)) && subcros == old(subcros) - {id}
    {
      if !FitsInteger(id) || Referenced(hotels, id) {
        return Rejected;
      }
      r := Ok(id in subcros);
      subcros := subcros - {id};
    }

    // -------------------------------------------------------------------------
    // views and lists

    /**
      Reads the `hotel_maincro_subcro` view (its rows are given) with the
      statement the filters build: the rows equal to every supplied filter.
     */
    method GetHotelMaincroSubcroView(view: seq<HotelViewRow>, maincro: Option<string>, subcroName: Option<string>)
      returns (rows: seq<HotelViewRow>)
      ensures forall r :: r in rows <==>
        && r in view
        && (ViewQuery.Supplied(maincro) ==> r.maincro == maincro.value)
        && (ViewQuery.Supplied(subcroName) ==> r.subcro == subcroName.value)
    {
      var query, params := ViewQuery.BuildViewQuery(ViewQuery.HotelViewBase, maincro, subcroName, ViewQuery.Equals);
      var cs := ViewQuery.Conditions(maincro, subcroName, ViewQuery.Equals);
      rows := Where(view, (r: HotelViewRow) => |cs| == |params| && ViewQuery.Selects(cs, params, r.maincro, r.subcro));
      forall r | r in view {
        ViewQuery.HotelViewSelects(maincro, subcroName, r.maincro, r.subcro);
      }
    }

    /**
      Reads the `user_maincro_subcro` view (its rows are given): the maincro
      filter is a `LIKE '%m%'` match, which for a filter without `LIKE`
      wildcards means "contains".
     */
    method GetUserMaincroSubcroView(view: seq<UserViewRow>, maincro: Option<string>, subcroName: Option<string>)
      returns (rows: seq<UserViewRow>)
      ensures forall r :: r in rows <==>
        && r in view
        && (ViewQuery.Supplied(maincro) ==> ViewQuery.LikeMatch(r.maincro, "%" + maincro.value + "%"))
        && (ViewQuery.Supplied(subcroName) ==> r.subcro == subcroName.value)
      ensures ViewQuery.Supplied(maincro) && ViewQuery.NoWildcard(maincro.value) ==>
        forall r :: r in rows <==>
          && r in view
          && Contains(r.maincro, maincro.value)
          && (ViewQuery.Supplied(subcroName) ==> r.subcro == subcroName.value)
    {
      var query, params := ViewQuery.BuildViewQuery(ViewQuery.UserViewBase, maincro, subcroName, ViewQuery.Like);
      var cs := ViewQuery.Conditions(maincro, subcroName, ViewQuery.Like);
      rows := Where(view, (r: UserViewRow) => |cs| == |params| && ViewQuery.Selects(cs, params, r.maincro, r.subcro));
      forall r | r in view
        ensures r in rows <==>
          && (ViewQuery.Supplied(maincro) ==> ViewQuery.LikeMatch(r.maincro, "%" + maincro.value + "%"))
          && (ViewQuery.Supplied(subcroName) ==> r.subcro == subcroName.value)
        ensures ViewQuery.Supplied(maincro) && ViewQuery.NoWildcard(maincro.value) ==>
          (ViewQuery.LikeMatch(r.maincro, "%" + maincro.value + "%") <==> Contains(r.maincro, maincro.value))
      {
        ViewQuery.SelectsFilters(maincro, subcroName, ViewQuery.Like, r.maincro, r.subcro);
        if ViewQuery.Supplied(maincro) {
          assert ViewQuery.MaincroParam(maincro.value, ViewQuery.Like) == "%" + maincro.value + "%";
        }
        if ViewQuery.Supplied(maincro) && ViewQuery.NoWildcard(maincro.value) {
          ViewQuery.LikeContains(r.maincro, maincro.value);
        }
      }
    }

    /** `SELECT DISTINCT maincro FROM subcro ORDER BY maincro`. */
    method GetDistinctMaincros() returns (r: seq<string>)
      requires Valid()
      ensures StrictlyAscending(r)
      ensures forall m :: m in r <==> exists k :: k in subcros && subcros[k].maincro == m
    {
      StringBeforeStrict();
      r := [];
      var rest := subcros.Keys;
      while rest != {}
        invariant rest <= subcros.Keys
        invariant SortedBy(r, StringBefore) && Distinct(r)
        invariant forall m :: m in r <==> exists k :: k in subcros && k !in rest && subcros[k].maincro == m
        decreases |rest|
      {
        var k := Pick(rest);
        var m := subcros[k].maincro;
        ghost var before := r;
        if m !in r {
          InsertSorted(m, r, StringBefore);
          InsertDistinct(m, r);
          var next := Insert(m, r, StringBefore);
          assert forall y :: y in next <==> y in multiset(r) + multiset{m};
          r := next;
        }
        assert forall y :: y in r <==> y in before || y == m;
        rest := rest - {k};
      }
      SortedDistinctAscending(r);
    }

    /** `SELECT id, subcro FROM subcro WHERE maincro = $1 ORDER BY subcro`. */
    method GetSubcrosByMaincro(maincro: string) returns (r: seq<SubcroChoice>)
      requires Valid()
      ensures SortedBy(r, BySubcroName)
      ensures forall i :: 0 <= i < |r| ==>
        r[i].id in subcros && subcros[r[i].id].maincro == maincro && subcros[r[i].id].subcro == r[i].subcro
      ensures forall k :: k in subcros && subcros[k].maincro == maincro ==> SubcroChoice(k, subcros[k].subcro) in r
      ensures Distinct(r)
    {
      var ks := KeysInSomeOrder(subcros.Keys);
      var found: seq<SubcroChoice> := [];
      var i := 0;
      while i < |ks|
        invariant 0 <= i <= |ks|
        invariant forall e :: e in found ==>
          e.id in subcros && subcros[e.id].maincro == maincro && subcros[e.id].subcro == e.subcro
        invariant forall j :: 0 <= j < i && subcros[ks[j]].maincro == maincro ==>
          SubcroChoice(ks[j], subcros[ks[j]].subcro) in found
        invariant forall e :: e in found ==> e.id in ks[..i]
        invariant Distinct(found)
      {
        var k := ks[i];
        assert ks[..i + 1] == ks[..i] + [k];
        if subcros[k].maincro == maincro {
          assert k !in ks[..i];
          found := found + [SubcroChoice(k, subcros[k].subcro)];
        }
        i := i + 1;
      }
      BySubcroNameStrict();
      SortBySorted(found, BySubcroName);
      r := SortBy(found, BySubcroName);
      PermutationDistinct(found, r);
      assert forall e :: e in r <==> e in found by {
        assert forall e :: e in r <==> e in multiset(r);
        assert forall e :: e in found <==> e in multiset(found);
      }
      forall k | k in subcros && subcros[k].maincro == maincro
        ensures SubcroChoice(k, subcros[k].subcro) in r
      {
        var j :| 0 <= j < |ks| && ks[j] == k;
      }
    }

    /**
      The unused hotel codes: none at all when the query fails (`failed`),
      otherwise the first 100 of 000..999 that no hotel has, ascending.
     */
    method GetAvailableHotelCodes(failed: bool) returns (r: seq<string>)
      requires Valid()
      ensures failed ==> r == []
      ensures !failed ==> r == HotelCodes.AvailableCodes(hotels.Keys)
      ensures |r| <= 100 && StrictlyAscending(r)
      ensures forall i :: 0 <= i < |r| ==> |r[i]| == 3 && AllDigits(r[i]) && r[i] !in hotels
    {
      if failed {
        return [];
      }
      r := HotelCodes.AvailableCodes(hotels.Keys);
    }
  }
}

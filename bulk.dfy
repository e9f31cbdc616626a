/**
  The bulk uploads of POST /api/user/bulk and POST /api/subcro/bulk: the
  validated records are inserted one after another, each insert on its own;
  a refused insert is counted and described, and the loop goes on.
 */
module Bulk {
  import opened Wrappers
  import opened Json
  import opened Schema
  import opened Storage

  /** The `{ success, failed, errors }` object the bulk routes answer with. */
  datatype Tally = Tally(success: nat, failed: nat, errors: seq<string>)

  function TallyJson(t: Tally): (r: Json)
    ensures Member(r, "success") == Some(Num(t.success)) && Member(r, "failed") == Some(Num(t.failed))
    ensures Member(r, "errors").Some? && Member(r, "errors").value.Arr?
    ensures |Member(r, "errors").value.items| == |t.errors|
  {
    Obj(map["success" := Num(t.success), "failed" := Num(t.failed),
            "errors" := Arr(seq(|t.errors|, i requires 0 <= i < |t.errors| => Str(t.errors[i])))])
  }

  /** The error line of a user the database refused; `reason` is the database error's message. */
  function UserFailure(username: string, reason: string): string {
    "Failed to create user " + username + ": " + reason
  }

  // ---------------------------------------------------------------------------
  // Users

  /** The users table, the serial sequence and the tally after a batch. */
  datatype UserBatch = UserBatch(users: map<int, User>, nextId: int, tally: Tally)

  /** The tally with one more failure, described with `line`. */
  function Failed(t: Tally, line: string): (r: Tally)
    ensures r.success == t.success && r.failed == t.failed + 1 && r.errors == t.errors + [line]
  {
    Tally(t.success, t.failed + 1, t.errors + [line])
  }

  /**
    One insert of the loop: the record draws the next serial value. The
    insert is refused, and described with `reason`, when the serial is used
    up (it then stays where it is), when the drawn value is already a key
    (one a register request chose itself), or when the username is stored.
   */
  function UserStep(prev: UserBatch, u: InsertUser, reason: string): (r: UserBatch)
    ensures r.nextId == if prev.nextId <= MaxInteger then prev.nextId + 1 else prev.nextId
  {
    if prev.nextId > MaxInteger then
      UserBatch(prev.users, prev.nextId, Failed(prev.tally, UserFailure(u.username, reason)))
    else if prev.nextId in prev.users || UsernameTaken(prev.users, u.username, None) then
      UserBatch(prev.users, prev.nextId + 1, Failed(prev.tally, UserFailure(u.username, reason)))
    else
      UserBatch(prev.users[prev.nextId := NewUser(prev.nextId, u)], prev.nextId + 1,
                prev.tally.(success := prev.tally.success + 1))
  }

  /** Inserting `records` in order, starting from the table `users` and the serial value `nextId`. */
  function BulkUsers(users: map<int, User>, nextId: int, records: seq<InsertUser>, reason: string): (r: UserBatch)
    ensures r.tally.success + r.tally.failed == |records|
    ensures |r.tally.errors| == r.tally.failed
    ensures nextId <= MaxInteger + 1 ==>
      r.nextId == if nextId + |records| <= MaxInteger + 1 then nextId + |records| else MaxInteger + 1
    decreases |records|
  {
    if records == [] then UserBatch(users, nextId, Tally(0, 0, []))
    else UserStep(BulkUsers(users, nextId, records[..|records| - 1], reason), records[|records| - 1], reason)
  }

  /** What `createUser` did, with the tally counting it, is the next step of the batch. */
  lemma CreatedUserIsStep(before: UserBatch, u: InsertUser, reason: string, created: Outcome<User>, after: UserBatch)
    requires after.nextId == if before.nextId <= MaxInteger then before.nextId + 1 else before.nextId
    requires created.Ok? <==> before.nextId <= MaxInteger && before.nextId !in before.users
                              && !UsernameTaken(before.users, u.username, None)
    requires created.Ok? ==>
      created.value == NewUser(before.nextId, u) && after.users == before.users[before.nextId := created.value]
    requires created.Rejected? ==> after.users == before.users
    requires created.Ok? ==> after.tally == before.tally.(success := before.tally.success + 1)
    requires created.Rejected? ==> after.tally == Failed(before.tally, UserFailure(u.username, reason))
    ensures after == UserStep(before, u, reason)
  {
  }

  /** One more record of the batch is one more step. */
  lemma BulkUsersStep(users: map<int, User>, nextId: int, records: seq<InsertUser>, i: nat, reason: string)
    requires i < |records|
    ensures BulkUsers(users, nextId, records[..i + 1], reason)
      == UserStep(BulkUsers(users, nextId, records[..i], reason), records[i], reason)
  {
    assert records[..i + 1][..i] == records[..i];
  }

  /** The loop of the bulk user route: `storage.createUser` for each record, counting the outcomes. */
  method BulkCreateUsers(db: DatabaseStorage, records: seq<InsertUser>, reason: string) returns (t: Tally)
    requires db.Valid()
    modifies db
    ensures db.Valid()
    ensures db.subcros == old(db.subcros) && db.hotels == old(db.hotels)
    ensures UserBatch(db.users, db.nextUserId, t) == BulkUsers(old(db.users), old(db.nextUserId), records, reason)
  {
    ghost var users0, next0 := db.users, db.nextUserId;
    t := Tally(0, 0, []);
    var i := 0;
    while i < |records|
      invariant 0 <= i <= |records|
      invariant db.Valid()
      invariant db.subcros == old(db.subcros) && db.hotels == old(db.hotels)
      invariant UserBatch(db.users, db.nextUserId, t) == BulkUsers(users0, next0, records[..i], reason)
    {
      var u := records[i];
      BulkUsersStep(users0, next0, records, i, reason);
      ghost var before := UserBatch(db.users, db.nextUserId, t);
      var created := db.CreateUser(Some(u), NoKey);
      if created.Ok? {
        t := t.(success := t.success + 1);
      } else {
        t := Failed(t, UserFailure(u.username, reason));
      }
      CreatedUserIsStep(before, u, reason, created, UserBatch(db.users, db.nextUserId, t));
      i := i + 1;
    }
    assert records[..|records|] == records;
  }

  /**
    `r` is what a batch of `records` can leave: every earlier user kept,
    one row added per success, each added row the record at its position
    under the serial value it drew, password and all; the serial advanced
    once per record until it was used up.
   */
  ghost predicate Grown(users: map<int, User>, nextId: int, records: seq<InsertUser>, r: UserBatch) {
    && nextId <= r.nextId <= nextId + |records| && r.nextId <= MaxInteger + 1
    && (r.nextId < nextId + |records| ==> r.nextId == MaxInteger + 1)
    && (forall k :: k in users ==> k in r.users && r.users[k] == users[k])
    && |r.users| == |users| + r.tally.success
    && (forall k :: k in r.users && k !in users ==>
          nextId <= k < r.nextId && r.users[k] == NewUser(k, records[k - nextId]))
  }

  lemma UserStepGrows(users: map<int, User>, nextId: int, init: seq<InsertUser>, prev: UserBatch, u: InsertUser, reason: string)
    requires Grown(users, nextId, init, prev)
    ensures Grown(users, nextId, init + [u], UserStep(prev, u, reason))
  {
    var records := init + [u];
    assert forall i :: 0 <= i < |init| ==> records[i] == init[i];
    if prev.nextId <= MaxInteger && prev.nextId !in prev.users && !UsernameTaken(prev.users, u.username, None) {
      assert prev.nextId == nextId + |init|;
      assert records[prev.nextId - nextId] == u;
    }
  }

  /** Every batch grows the table that way. */
  lemma {:induction false} BulkUsersShape(users: map<int, User>, nextId: int, records: seq<InsertUser>, reason: string)
    requires nextId <= MaxInteger + 1
    ensures Grown(users, nextId, records, BulkUsers(users, nextId, records, reason))
    decreases |records|
  {
    if records != [] {
      var init := records[..|records| - 1];
      BulkUsersShape(users, nextId, init, reason);
      UserStepGrows(users, nextId, init, BulkUsers(users, nextId, init, reason), records[|records| - 1], reason);
      assert init + [records[|records| - 1]] == records;
    }
  }

  /**
    A key taken by an earlier request at the serial's next value makes the
    next record fail, though its username is free: the serial does not
    skip taken keys.
   */
  lemma TakenKeyFailsRecord(prev: UserBatch, u: InsertUser, reason: string)
    requires prev.nextId <= MaxInteger && prev.nextId in prev.users
    ensures UserStep(prev, u, reason) == UserBatch(prev.users, prev.nextId + 1, Failed(prev.tally, UserFailure(u.username, reason)))
  {
  }

  /** No two records share a username, and none is stored yet. */
  predicate FreshUsernames(users: map<int, User>, records: seq<InsertUser>) {
    && (forall i, j :: 0 <= i < j < |records| ==> records[i].username != records[j].username)
    && (forall i :: 0 <= i < |records| ==> !UsernameTaken(users, records[i].username, None))
  }

  /** After a batch of fresh usernames, a username that none of them and no earlier user has is still free. */
  lemma FreshStaysFree(users: map<int, User>, nextId: int, init: seq<InsertUser>, prev: UserBatch, name: string)
    requires Grown(users, nextId, init, prev)
    requires !UsernameTaken(users, name, None)
    requires forall i :: 0 <= i < |init| ==> init[i].username != name
    ensures !UsernameTaken(prev.users, name, None)
  {
    forall k | k in prev.users ensures prev.users[k].username != name {
      if k !in users {
        assert prev.users[k] == NewUser(k, init[k - nextId]);
      }
    }
  }

  /**
    Every record of the batch stored under its own serial value, its
    password as sent (not hashed), and none refused.
   */
  ghost predicate AllStored(nextId: int, records: seq<InsertUser>, r: UserBatch) {
    && r.tally == Tally(|records|, 0, [])
    && forall i :: 0 <= i < |records| ==>
         && nextId + i in r.users && r.users[nextId + i] == NewUser(nextId + i, records[i])
         && r.users[nextId + i].password == records[i].password
  }

  /** A free username stores one more record under the next serial value. */
  lemma FreshUserStep(nextId: int, init: seq<InsertUser>, prev: UserBatch, u: InsertUser, reason: string)
    requires AllStored(nextId, init, prev) && prev.nextId == nextId + |init|
    requires prev.nextId <= MaxInteger && prev.nextId !in prev.users
    requires !UsernameTaken(prev.users, u.username, None)
    ensures AllStored(nextId, init + [u], UserStep(prev, u, reason))
  {
    var records := init + [u];
    assert forall i :: 0 <= i < |init| ==> records[i] == init[i];
    assert records[|init|] == u;
  }

  /**
    A batch of new, distinct usernames, with no key at or above the serial
    and serial values enough for all of them, is stored whole: nothing
    fails, and the record at position i is the user with id `nextId + i`,
    its password stored as sent (not hashed).
   */
  lemma {:induction false} BulkUsersFresh(users: map<int, User>, nextId: int, records: seq<InsertUser>, reason: string)
    requires forall k :: k in users ==> k < nextId
    requires nextId + |records| <= MaxInteger + 1
    requires FreshUsernames(users, records)
    ensures AllStored(nextId, records, BulkUsers(users, nextId, records, reason))
    decreases |records|
  {
    if records != [] {
      var n := |records| - 1;
      var init := records[..n];
      assert FreshUsernames(users, init);
      BulkUsersFresh(users, nextId, init, reason);
      BulkUsersShape(users, nextId, init, reason);
      var prev := BulkUsers(users, nextId, init, reason);
      FreshStaysFree(users, nextId, init, prev, records[n].username);
      assert prev.nextId !in prev.users;
      FreshUserStep(nextId, init, prev, records[n], reason);
      assert init + [records[n]] == records;
    }
  }

  // ---------------------------------------------------------------------------
  // Subcros

  /** The error line of a subcro the database refused; `reason` is the database error's message. */
  function SubcroFailure(subcro: string, reason: string): string {
    "Failed to create subcro " + subcro + ": " + reason
  }

  /** The subcro table and the tally after a batch. */
  datatype SubcroBatch = SubcroBatch(subcros: map<int, Subcro>, tally: Tally)

  /**
    One insert of the loop: the record goes under the next id; it is
    refused, and described with `reason`, when that id or one of its flags
    is outside the `integer` range.
   */
  ghost function SubcroStep(prev: SubcroBatch, d: InsertSubcro, reason: string): SubcroBatch {
    var id := NextSubcroId(prev.subcros);
    if FitsInteger(id) && SubcroFits(d) then
      SubcroBatch(prev.subcros[id := NewSubcro(id, d)], prev.tally.(success := prev.tally.success + 1))
    else
      SubcroBatch(prev.subcros, Failed(prev.tally, SubcroFailure(d.subcro, reason)))
  }

  /** The subcro table and the tally after inserting `records` in order. */
  ghost function BulkSubcros(subcros: map<int, Subcro>, records: seq<InsertSubcro>, reason: string): (r: SubcroBatch)
    ensures r.tally.success + r.tally.failed == |records|
    ensures |r.tally.errors| == r.tally.failed
    decreases |records|
  {
    if records == [] then SubcroBatch(subcros, Tally(0, 0, []))
    else SubcroStep(BulkSubcros(subcros, records[..|records| - 1], reason), records[|records| - 1], reason)
  }

  /** What `createSubcro` did, with the tally counting it, is the next step of the batch. */
  lemma CreatedIsStep(before: SubcroBatch, d: InsertSubcro, reason: string, created: Outcome<Subcro>, after: SubcroBatch)
    requires created.Ok? <==> FitsInteger(NextSubcroId(before.subcros)) && SubcroFits(d)
    requires created.Ok? ==>
      && created.value == NewSubcro(NextSubcroId(before.subcros), d)
      && after.subcros == before.subcros[NextSubcroId(before.subcros) := created.value]
      && after.tally == before.tally.(success := before.tally.success + 1)
    requires created.Rejected? ==>
      after.subcros == before.subcros && after.tally == Failed(before.tally, SubcroFailure(d.subcro, reason))
    ensures after == SubcroStep(before, d, reason)
  {
  }

  /** One more record of the batch is one more step. */
  lemma BulkSubcrosStep(subcros: map<int, Subcro>, records: seq<InsertSubcro>, i: nat, reason: string)
    requires i < |records|
    ensures BulkSubcros(subcros, records[..i + 1], reason)
      == SubcroStep(BulkSubcros(subcros, records[..i], reason), records[i], reason)
  {
    assert records[..i + 1][..i] == records[..i];
  }

  /** One turn of the loop: insert the record and count the outcome. */
  method CreateAndCount(db: DatabaseStorage, d: InsertSubcro, reason: string, t: Tally) returns (next: Tally)
    requires db.Valid()
    modifies db
    ensures db.Valid()
    ensures db.users == old(db.users) && db.nextUserId == old(db.nextUserId) && db.hotels == old(db.hotels)
    ensures SubcroBatch(db.subcros, next) == SubcroStep(SubcroBatch(old(db.subcros), t), d, reason)
  {
    var created := db.CreateSubcro(d);
    if created.Ok? {
      next := t.(success := t.success + 1);
    } else {
      next := Failed(t, SubcroFailure(d.subcro, reason));
    }
    CreatedIsStep(SubcroBatch(old(db.subcros), t), d, reason, created, SubcroBatch(db.subcros, next));
  }

  /** The loop of the bulk subcro route: `storage.createSubcro` for each record, counting the outcomes. */
  method BulkCreateSubcros(db: DatabaseStorage, records: seq<InsertSubcro>, reason: string) returns (t: Tally)
    requires db.Valid()
    modifies db
    ensures db.Valid()
    ensures db.users == old(db.users) && db.nextUserId == old(db.nextUserId) && db.hotels == old(db.hotels)
    ensures SubcroBatch(db.subcros, t) == BulkSubcros(old(db.subcros), records, reason)
  {
    t := Tally(0, 0, []);
    var i := 0;
    while i < |records|
      invariant 0 <= i <= |records|
      invariant db.Valid()
      invariant db.users == old(db.users) && db.nextUserId == old(db.nextUserId) && db.hotels == old(db.hotels)
      invariant SubcroBatch(db.subcros, t) == BulkSubcros(old(db.subcros), records[..i], reason)
    {
      BulkSubcrosStep(old(db.subcros), records, i, reason);
      t := CreateAndCount(db, records[i], reason, t);
      i := i + 1;
    }
    assert records[..|records|] == records;
  }

  /** A record with a flag outside the `integer` range is counted a failure and stores nothing. */
  lemma OutOfRangeRecordFails(subcros: map<int, Subcro>, records: seq<InsertSubcro>, i: nat, reason: string)
    requires i < |records| && !SubcroFits(records[i])
    ensures var before := BulkSubcros(subcros, records[..i], reason);
      BulkSubcros(subcros, records[..i + 1], reason)
        == SubcroBatch(before.subcros, Failed(before.tally, SubcroFailure(records[i].subcro, reason)))
  {
    BulkSubcrosStep(subcros, records, i, reason);
  }

  /** The record at position i is stored under `n + i`: each key from `n` on holds the record at its offset. */
  ghost predicate StoredFrom(n: int, records: seq<InsertSubcro>, r: map<int, Subcro>) {
    forall k :: n <= k < n + |records| ==> k in r && r[k] == NewSubcro(k, records[k - n])
  }

  /** Every record fits its columns, and the ids the batch needs fit the key column. */
  ghost predicate BatchFits(subcros: map<int, Subcro>, records: seq<InsertSubcro>) {
    && MinInteger <= NextSubcroId(subcros) && NextSubcroId(subcros) + |records| <= MaxInteger + 1
    && forall i :: 0 <= i < |records| ==> SubcroFits(records[i])
  }

  /**
    `r` is what a batch of `records` leaves when it fits: the existing
    subcros kept, and the record at position i stored under
    `NextSubcroId(subcros) + i`, consecutive ids above the largest one, and
    nothing else; every record a success.
   */
  ghost predicate SubcrosGrown(subcros: map<int, Subcro>, records: seq<InsertSubcro>, r: SubcroBatch) {
    var n := NextSubcroId(subcros);
    && r.tally == Tally(|records|, 0, [])
    && |r.subcros| == |subcros| + |records|
    && (forall k :: k in subcros ==> k in r.subcros && r.subcros[k] == subcros[k])
    && StoredFrom(n, records, r.subcros)
    && (forall k :: k in r.subcros && k !in subcros ==> n <= k < n + |records|)
    && NextSubcroId(r.subcros) == n + |records|
  }

  /** Storing one more record under the next position keeps the earlier ones in place. */
  lemma StoredFromInsert(n: int, init: seq<InsertSubcro>, m: map<int, Subcro>, d: InsertSubcro)
    requires StoredFrom(n, init, m)
    ensures StoredFrom(n, init + [d], m[n + |init| := NewSubcro(n + |init|, d)])
  {
    var r := m[n + |init| := NewSubcro(n + |init|, d)];
    forall k | n <= k < n + |init + [d]|
      ensures k in r && r[k] == NewSubcro(k, (init + [d])[k - n])
    {
      if k < n + |init| {
        assert (init + [d])[k - n] == init[k - n];
      }
    }
  }

  lemma SubcroStepPositions(n: int, init: seq<InsertSubcro>, prev: SubcroBatch, d: InsertSubcro, reason: string)
    requires NextSubcroId(prev.subcros) == n + |init| && FitsInteger(n + |init|) && SubcroFits(d)
    requires StoredFrom(n, init, prev.subcros)
    ensures StoredFrom(n, init + [d], SubcroStep(prev, d, reason).subcros)
  {
    StoredFromInsert(n, init, prev.subcros, d);
  }

  lemma SubcroStepGrows(subcros: map<int, Subcro>, init: seq<InsertSubcro>, prev: SubcroBatch, d: InsertSubcro, reason: string)
    requires SubcrosGrown(subcros, init, prev)
    requires FitsInteger(NextSubcroId(subcros) + |init|) && SubcroFits(d)
    ensures SubcrosGrown(subcros, init + [d], SubcroStep(prev, d, reason))
  {
    var n := NextSubcroId(subcros);
    var id := NextSubcroId(prev.subcros);
    NextAfterInsert(prev.subcros, NewSubcro(id, d));
    SubcroStepPositions(n, init, prev, d, reason);
  }

  /** Every batch that fits grows the table that way. */
  lemma {:induction false} BulkSubcrosIds(subcros: map<int, Subcro>, records: seq<InsertSubcro>, reason: string)
    requires BatchFits(subcros, records)
    ensures SubcrosGrown(subcros, records, BulkSubcros(subcros, records, reason))
    decreases |records|
  {
    if records != [] {
      var init, last := records[..|records| - 1], records[|records| - 1];
      assert init + [last] == records;
      BatchFitsInit(subcros, records);
      BulkSubcrosIds(subcros, init, reason);
      SubcroStepGrows(subcros, init, BulkSubcros(subcros, init, reason), last, reason);
    }
  }

  /** A batch that fits without its last record still fits, and so does that record at the next position. */
  lemma BatchFitsInit(subcros: map<int, Subcro>, records: seq<InsertSubcro>)
    requires records != [] && BatchFits(subcros, records)
    ensures BatchFits(subcros, records[..|records| - 1])
    ensures FitsInteger(NextSubcroId(subcros) + |records| - 1) && SubcroFits(records[|records| - 1])
  {
    var init := records[..|records| - 1];
    assert forall i :: 0 <= i < |init| ==> init[i] == records[i];
  }
}

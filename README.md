# Hotel / subcro administration console, modelled in Dafny

The console manages three tables and the people who edit them:

- users, with a serial id, a unique username, a hashed password, an e-mail and a maincro tag;
- subcros (sub-affiliate codes), whose integer id the server assigns as one above the largest, with a maincro, a subcro code, an optional label and two optional integer flags (`flagcro`, `webcallback`);
- hotels, keyed by a `codeHotel` text (the free-code list offers three-digit codes, but any text is stored) and referencing one subcro.

An Express server exposes the tables over a JSON API. A session login guards the query console, the user administration and the bulk uploads. A React client shows the tables, a dashboard, a filtered hotel view, an SQL console and a CSV/JSON importer.

The model covers the server and the client logic, file by file:

- `schema.dfy` (module `Schema`): the records, the insert payloads as the zod schemas parse them, and the table invariants. Usernames are unique, and every hotel references a stored subcro.
- `storage.dfy` (module `Storage`): the `DatabaseStorage` class over three maps. Each CRUD method states exactly which entry changes; `createSubcro` takes the largest id plus one.
- `viewquery.dfy` (module `ViewQuery`): the two view query builders. Each builds its SQL text and `$n` parameters step by step.
- `hotelcodes.dfy` (module `HotelCodes`): the free hotel codes.
- `credentials.dfy`, `auth.dfy`, `middleware.dfy`: the password format, the login strategy, registration, logout and the session user; the request log line and the error handler.
- `routes.dfy` (module `Routes`): the route table in registration order and Express's first-match routing. It also holds each handler's checks before it calls storage: the session, the `:id` parse, the body schema.
- `server.dfy` (module `Server`): each handler's storage call and reply, and `Handle`, which runs one request end to end.
- `bulk.dfy` (module `Bulk`): the two bulk upload loops and the batch specifications they meet.
- Client modules:
  - `csvimport.dfy`: the file importer;
  - `datatable.dfy` and `csvexport.dfy`: the generic table's filter, sort, pages and CSV export;
  - `sqleditor.dfy`: the SQL console;
  - `dashboard.dfy`: the dashboard counts and chart;
  - `viewfilter.dfy`: the hotel view's filter state;
  - `usertable.dfy`, `hoteltable.dfy`, `subcrotable.dfy` and `flagswitch.dfy`: the three table pages and the flag switch they share.
- Shared helpers: `text.dfy` (modules `Wrappers` and `Text`), `json.dfy`, `http.dfy` and `seqs.dfy`.

Things the code does that the model proves, and that a reader might not expect:

- GET /api/subcro/list never reaches its own handler. GET /api/subcro/:id is registered first and answers 400 "Invalid ID format" (`Routes.SubcroListAnswersInvalidId`), so the hotel view's subcro selector never gets any choices (`ViewFilter.SubcroChoicesNeverLoad`).
- GET /api/hotel/codes is likewise taken by GET /api/hotel/:codeHotel (`Routes.HotelCodesLooksUpHotel`).
- A failed user insert still uses up a serial value, and bulk users are stored with their passwords as sent, not hashed (`Bulk.BulkUsersFresh`).
- The `id`, `subcroId`, `flagcro` and `webcallback` columns are 32-bit `integer`s. An id or flag outside -2147483648..2147483647 makes the database call fail, so the handler answers 500 where a small unknown id would give 404 (`Server.DeleteUser`, `Server.UpdateSubcro` and the others). `createSubcro` fails once the largest id is 2147483647, and the user serial stops there (`Storage.DatabaseStorage.CreateSubcro`, `Storage.DatabaseStorage.CreateUser`).
- Register inserts the whole body. An `id` member chooses the key without drawing the serial (a null one is refused), and the serial later fails on that key (`Auth.Register`, `Bulk.TakenKeyFailsRecord`). A number given as `email` or `maincro` is stored as its text (`Auth.AccountOf`).
- The user edit sets every column the body names except the password. An `id` member moves the user to that key, and the edit fails when the key is taken. A null `id` makes the edit of a stored user fail on the NOT NULL key, while an unknown user still gets 404, because no row is written (`Routes.UserEdit`, `Server.UpdateUser`).
- Login reads each credential from the query string when the body has no usable value (`Routes.Credential`, `Routes.LoginReadsQuery`).
- The two subcro dialog schemas treat an unset flag differently (`SubcroTable.SchemasDifferOnUnset`): the hotel page's schema turns it into 0, the subcro page's leaves it out, so the server would store NULL. Neither dialog can hold an unset flag, because both open with the flags at 0 and the switch writes only 0 or 1; the difference lies in the schemas alone.
- `comparePasswords` throws instead of refusing a malformed stored value. It throws when the value has no "." or its first part does not decode to 64 bytes (`Credentials.NotAHashThrows`). The login strategy then answers with an error, not a 401 (`Auth.PlainPasswordFails`).
- The subcro flags hold any 32-bit integer, not only 0 and 1. Only the value 1 shows as "Enabled".

## Model

| member | source | states |
|---|---|---|
| Storage.Patched | server/storage.ts:91-98 | the updated row takes the patch's key when it gives one and keeps its id otherwise; each of username, password, email and maincro is replaced when the patch gives it and kept otherwise |
| Storage.LargestId | server/storage.ts:146-147 | the `MAX(id)` read: 0 for an empty table, otherwise an id of the table that no id exceeds |
| Storage.DatabaseStorage.constructor | server/storage.ts:61-69 | a new store has empty tables, the user serial at 1, and its invariants (unique usernames, hotels referencing existing subcros) hold |
| Storage.DatabaseStorage.GetUser | server/storage.ts:72-75 | refused exactly when the id is outside the `integer` range; otherwise the user with that id exactly when one is stored |
| Storage.DatabaseStorage.GetUserByUsername | server/storage.ts:77-80 | nothing exactly when no user has the name; otherwise the stored user with that name |
| Storage.DatabaseStorage.CreateUser | server/storage.ts:82-85 | a given key is used as is and leaves the serial alone; without one the next serial value is drawn, and the serial advances even when the insert fails, unless it is past the `integer` range; the insert succeeds exactly when the payload has every NOT NULL column, the key is not NULL, fits, is free and the username is not taken, and then exactly that row is added; otherwise nothing is stored |
| Storage.DatabaseStorage.GetAllUsers | server/storage.ts:87-89 | every stored user exactly once, in some order |
| Storage.DatabaseStorage.UpdateUser | server/storage.ts:91-98 | refused when the id or a new key cannot be bound as an `integer`; an unknown id gives none, even for a NULL key; refused when the new key is NULL or belongs to another user, or the new username does; otherwise the row is patched and moves to its new key, the rest of the table unchanged |
| Storage.DatabaseStorage.DeleteUser | server/storage.ts:100-103 | refused, with nothing changed, exactly when the id is outside the `integer` range; otherwise true exactly when the id was stored, and afterwards it is gone and every other row is unchanged |
| Storage.DatabaseStorage.GetAllHotels | server/storage.ts:106-108 | every stored hotel exactly once, in some order |
| Storage.DatabaseStorage.GetHotel | server/storage.ts:110-113 | the hotel with that code exactly when one is stored |
| Storage.DatabaseStorage.CreateHotel | server/storage.ts:115-118 | refused exactly when the code is taken or the subcro does not exist, with nothing changed; otherwise exactly that row is added |
| Storage.DatabaseStorage.UpdateHotel | server/storage.ts:120-127 | refused for a subcro id outside the `integer` range; an unknown code gives none and changes nothing; refused when the new code belongs to another hotel or the subcro is missing; otherwise the row is replaced, and moves to its new code |
| Storage.DatabaseStorage.DeleteHotel | server/storage.ts:129-132 | true exactly when the code was stored; afterwards it is gone and every other row is unchanged |
| Storage.DatabaseStorage.GetAllSubcros | server/storage.ts:135-137 | every stored subcro exactly once, in some order |
| Storage.DatabaseStorage.GetSubcro | server/storage.ts:139-142 | refused exactly when the id is outside the `integer` range; otherwise the subcro with that id exactly when one is stored |
| Storage.DatabaseStorage.CreateSubcro | server/storage.ts:144-157 | the new id is 1 for an empty table and otherwise one above the largest id; the insert succeeds exactly when that id and the given flags fit the `integer` range, and then the row holds the caller's fields; otherwise nothing changes |
| Storage.DatabaseStorage.UpdateSubcro | server/storage.ts:159-166 | refused when the id or a given flag is outside the `integer` range; an unknown id gives none; otherwise only that row changes, keeping its id; nothing changes when refused or unknown |
| Storage.DatabaseStorage.DeleteSubcro | server/storage.ts:168-171 | refused, with nothing changed, exactly when the id is outside the `integer` range or a hotel references it; otherwise true exactly when the id was stored, and it is gone |
| Storage.DatabaseStorage.GetHotelMaincroSubcroView | server/storage.ts:174-195 | a view row is returned exactly when it equals every supplied filter |
| Storage.DatabaseStorage.GetUserMaincroSubcroView | server/storage.ts:197-219 | a view row is returned exactly when its maincro matches `%maincro%` and its subcro equals the subcro filter; for a filter without wildcards that match is "contains" |
| Storage.DatabaseStorage.GetDistinctMaincros | server/storage.ts:241-244 | strictly ascending, holding exactly the maincros of the stored subcros |
| Storage.DatabaseStorage.GetSubcrosByMaincro | server/storage.ts:246-252 | sorted by subcro name, each (id, subcro) pair once, holding exactly the pairs of the subcros with that maincro |
| Storage.DatabaseStorage.GetAvailableHotelCodes | server/storage.ts:254-274 | `[]` when the query fails; otherwise the first 100 unused codes: three digits each, unused, strictly ascending, at most 100 |
| Storage.ReadNextSubcroId | server/storage.ts:146-148 | the id read back from `MAX(id)` and `parseInt(max_id \|\| '0') + 1` is exactly `Schema.NextSubcroId`: 1 for an empty table, else one above the largest id |
| ViewQuery.BuildViewQuery | server/storage.ts:174-191 | the text and parameters built step by step are the rendering of the supplied filters' conditions and their parameters |
| ViewQuery.QueryShape | server/storage.ts:178-191 | the statement has no `WHERE` exactly when neither filter is supplied; there is one parameter per supplied filter and one placeholder per parameter |
| ViewQuery.BothFiltersText | server/storage.ts:181-190 | with both filters the clause is ` WHERE maincro = $1 AND subcro = $2` (`LIKE $1` for the user view) with parameters in that order |
| ViewQuery.MaincroText | server/storage.ts:182 | the maincro condition is `$1`, compared with `=` or `LIKE` |
| ViewQuery.SubcroText | server/storage.ts:188 | the subcro condition is numbered one past the parameters already pushed |
| ViewQuery.RenderTwo | server/storage.ts:187-188 | two conditions are numbered 1 and 2 and joined by ` AND` |
| ViewQuery.SelectsAppend | server/storage.ts:187 | conditions joined by `AND` select a row exactly when both parts do |
| ViewQuery.SelectsFilters | server/storage.ts:178-191 | the built statement selects a row exactly when it satisfies each supplied filter's comparison |
| ViewQuery.HotelViewSelects | server/storage.ts:174-195 | the hotel view statement selects exactly the rows equal to every supplied filter |
| ViewQuery.UserViewSelects | server/storage.ts:197-219 | the user view statement selects exactly the rows whose maincro contains the filter (no wildcards in it) and whose subcro equals the subcro filter |
| ViewQuery.LikeAnything | server/storage.ts:207 | `%` matches every text |
| ViewQuery.LikePrefix | server/storage.ts:207 | a literal followed by `%` matches exactly the texts that start with it |
| ViewQuery.LikeContains | server/storage.ts:205-207 | `LIKE '%m%'` holds exactly when the text contains `m`, for `m` without wildcards |
| ViewQuery.Conditions | server/storage.ts:178-191 | no contract of its own; see `ViewQuery.QueryShape` and `ViewQuery.SelectsFilters` |
| ViewQuery.Params | server/storage.ts:178-191 | no contract of its own; see `ViewQuery.QueryShape` and `ViewQuery.SelectsFilters` |
| ViewQuery.Render | server/storage.ts:178-191 | no contract of its own; see `ViewQuery.RenderOne`, `ViewQuery.RenderTwo` and `ViewQuery.BuildViewQuery` |
| HotelCodes.Lpad | server/storage.ts:260 | `lpad` yields text of the requested width |
| HotelCodes.LpadContents | server/storage.ts:260 | a text at least `width` long is cut to its first `width` characters; a shorter one is fill characters followed by the text itself |
| HotelCodes.CodeDigits | server/storage.ts:260-261 | the code of n is its three decimal digits, hundreds first |
| HotelCodes.CodeIsThreeDigits | server/storage.ts:260-261 | every code has three digits whose value is the number |
| HotelCodes.CodeOrder | server/storage.ts:265 | `ORDER BY code` agrees with numeric order |
| HotelCodes.FreeNumbers | server/storage.ts:259-266 | at most the limit, each number in 0..999 with its code unused, strictly ascending |
| HotelCodes.FreeNumbersComplete | server/storage.ts:263-266 | no unused number is skipped: one left out lies above every listed number, and then the list is full |
| HotelCodes.AvailableCodes | server/storage.ts:258-269 | the listed codes are three digits, unused, strictly ascending and at most 100 |
| HotelCodes.CodesOfAscending | server/storage.ts:260-265 | the codes of ascending numbers below 1000 are three digits and ascend as text |
| HotelCodes.AvailableCodesComplete | server/storage.ts:258-269 | every unused code is listed unless 100 smaller ones already are |
| Schema.NewUser | shared/schema.ts:6-22 | a stored user holds the id it was given and exactly the four payload fields |
| Schema.ParseInsertUser | shared/schema.ts:14-19 | a user body parses exactly when username, password, email and maincro are strings, and then gives those four values |
| Schema.ParseInsertSubcro | shared/schema.ts:38 | a subcro body parses exactly when maincro and subcro are strings and label, flagcro and webcallback are each absent, null or of their type; the payload holds exactly those values |
| Schema.ParseInsertHotel | shared/schema.ts:54 | a hotel body parses exactly when `codeHotel` is a string and `subcroId` a number, and then gives that hotel |
| Schema.IntegerText | shared/schema.ts:7 | PostgreSQL reads a text parameter for an `integer` column only when it holds something besides white space, and reads trimmed decimal digits as their value |
| Schema.IntegerTextOfIntText | shared/schema.ts:7 | the decimal text of every integer reads back as that integer |
| Schema.KeyOf | dist/index.js:319-322 | a body without `id` gives no key; null gives the NULL key; a number is the key; a text is the key PostgreSQL reads from it, or a bad key; any other value is a bad key |
| Schema.TextColumn | dist/index.js:319-322 | a missing or null member gives no value, which a NOT NULL column refuses; a string is stored as itself |
| Schema.LargestExists | server/storage.ts:144-157 | a non-empty table has a largest id |
| Schema.NextSubcroId | server/storage.ts:144-157 | the new id is 1 for an empty table and one above the largest otherwise |
| Schema.NextAfterInsert | server/storage.ts:144-157 | the next id is free, and once taken the one after it is next |
| Schema.Initial | shared/schema.ts:29-31 | a nullable column holds a value exactly when the payload gives one |
| Schema.Overwrite | server/storage.ts:159-166 | `UPDATE ... SET` keeps a column the payload leaves out and writes any other |
| Schema.NewSubcro | shared/schema.ts:25-38 | the inserted row has the supplied id, the two required columns as sent, and the nullable ones as the payload gives them |
| Schema.UpdatedSubcro | server/storage.ts:159-166 | the updated row keeps its id, takes the required columns, and overwrites only the nullable columns the payload names |
| Schema.UserRoundTrip | shared/schema.ts:14-19 | every user payload survives encoding to JSON and parsing by the insert schema |
| Schema.SubcroRoundTrip | shared/schema.ts:25-39 | every subcro payload (each nullable member left out, null or given) survives encoding and parsing |
| Schema.HotelRoundTrip | shared/schema.ts:42-55 | every hotel payload, code and subcro id included, survives encoding and parsing |
| Schema.IdIsNotPartOfPayload | shared/schema.ts:14-38 | neither insert schema reads an `id` member, so a subcro body parsed by the create and update routes leaves the key to the server (register and the user edit do not use these schemas; see `Auth.AccountOf` and `Routes.UserEdit`) |
| Schema.SubcroRequiredColumns | shared/schema.ts:27-28 | a subcro body without a string `maincro` or `subcro` is refused |
| Schema.UniqueUsernames | shared/schema.ts:8 | no contract of its own (the `unique()` constraint on `username`): no two stored users share a username; it is part of `Storage.DatabaseStorage.Valid`, which every storage method keeps |
| Schema.HotelsReferenceSubcros | shared/schema.ts:44 | no contract of its own (the foreign key `hotel.subcroId` → `subcro.id`): every stored hotel's `subcroId` is a stored subcro id; part of `Storage.DatabaseStorage.Valid`, which every storage method keeps |
| Credentials.HashPassword | dist/index.js:259-263 | the stored value is 161 characters: 128 hex digits of the key, a single ".", and the 32 hex digits of the salt |
| Credentials.ComparePasswords | dist/index.js:264-269 | the comparison gives an answer only for a stored value with a "." and at least 128 characters; otherwise it throws |
| Credentials.CompareHashed | dist/index.js:264-269 | against a stored hash, the comparison is exactly "the supplied password derives the same key with that salt" |
| Credentials.ComparePasswordsRoundTrip | dist/index.js:259-269 | a password compares equal to its own hash |
| Credentials.NotAHashThrows | dist/index.js:264-268 | a stored value without "." or too short for a 64-byte key makes the comparison throw |
| Auth.Verify | dist/index.js:290-302 | the strategy authenticates exactly when the user exists and the password compares equal, and fails exactly when the comparison throws |
| Auth.RegisteredPasswordLogsIn | dist/index.js:290-302 | a user whose stored password is the hash of a password logs in with it |
| Auth.OtherPasswordRefused | dist/index.js:290-302 | another password is refused unless it derives the same key with that salt |
| Auth.PlainPasswordFails | dist/index.js:290-302 | a user stored with a plain password can never log in: every attempt throws |
| Auth.Thrown | dist/index.js:852-855 | an error thrown without a status of its own is answered with 500 |
| Auth.LoginReply | dist/index.js:331-333 | 200 with the user, and the user in the session, exactly on success; a refusal is a 401 that leaves the session as it was |
| Auth.Login | dist/index.js:290-333 | an unknown username gets 401 and the session is kept; a password that is no string throws once the user is found; otherwise the answer is the strategy's verdict on the stored user |
| Auth.Logout | dist/index.js:334-339 | 200 and no user in the session |
| Auth.SessionUser | dist/index.js:304-312 | refused (the lookup throws) exactly when the session holds an id outside the `integer` range; otherwise the session's user exactly when that id is still stored |
| Auth.CurrentUser | dist/index.js:304-312 | the request has a user exactly when the session names a stored id, and then it is the row stored there |
| Auth.AccountOf | dist/index.js:319-322 | register goes ahead exactly when the password is a string; the key is the one the body's `id` gives; the user is complete exactly when username, email and maincro are present and not null, and holds their text |
| Auth.Hashed | dist/index.js:319-322 | the stored payload keeps username, email and maincro, and its password compares equal to the one sent |
| Auth.Register | dist/index.js:313-330 | a taken username gets 400 "Username already exists" and nothing changes; a password that is no string throws and nothing changes; otherwise the serial is drawn when the body gives no key, and the user is stored under the given key or the serial value, with the hashed password, answered 201 and logged in, exactly when the body is complete and the key is not null, fits and is free; else a thrown error with the users unchanged |
| Auth.NameTaken | dist/index.js:315-316 | no contract of its own; `Auth.Register` states that a taken name gets 400 and changes nothing |
| Auth.UsernameExists | dist/index.js:317 | no contract of its own: the 400 reply; see `Auth.Register` |
| Middleware.Truncate | dist/index.js:842-844 | a logged line is at most 80 characters; a short one is kept, a long one keeps its first 79 and ends in "…" |
| Middleware.FullLine | dist/index.js:838-841 | the line starts with the method and the path, and ends with ` :: ` and the JSON of a truthy body that was sent, or with "ms" otherwise |
| Middleware.LogLine | dist/index.js:826-847 | a line is logged exactly for paths starting with "/api", and it is the full line cut to 80 characters |
| Middleware.ErrorReply | dist/index.js:852-855 | the status is `err.status`, else `err.statusCode`, else 500; the message defaults to "Internal Server Error" |
| Middleware.ErrorStatus | dist/index.js:853-854 | the status is taken from the error when it has one, and is 500 with the default message otherwise |
| Routes.FindFrom | server/routes.ts:10-436 | the route chosen is the first registered one that matches the method and path; none before it matches, and None means no route matches |
| Routes.Decide | server/routes.ts:15-426 | a handler's checks never leave a request unrouted; a storage call they allow is the call of that handler; GET /api/user always answers from the session |
| Routes.Dispatch | server/routes.ts:10-436 | a request is unrouted exactly when no route matches it; a storage call is the call of the matched route's handler |
| Routes.UserEdit | server/routes.ts:283-290 | the edit goes ahead exactly when username, email and maincro are truthy; it never sets the password, sets the key the body's `id` gives, and stores the three members as text |
| Routes.Credential | dist/index.js:290-302 | a credential is the body member when it is a truthy value other than an object or array, otherwise the query parameter when it is not empty, otherwise absent |
| Routes.LoginDecision | dist/index.js:331-333 | login reaches the strategy only with both credentials, and answers 400 otherwise |
| Routes.BulkUsersDecision | server/routes.ts:327-349 | a bulk user body gives a bulk user call or a 400 |
| Routes.BulkSubcrosDecision | server/routes.ts:382-405 | a bulk subcro body gives a bulk subcro call or a 400 |
| Routes.LoginReadsQuery | dist/index.js:331-333 | with an empty body, login uses the query's username and password, and answers 400 when one of them is empty |
| Routes.LoginBodyCredentials | dist/index.js:290-333 | a truthy number as password reaches the strategy as no string; an empty password with none in the query answers 400 |
| Routes.Bounded | server/routes.ts:200-202 | a member passes `z.string().min(lo).max(hi)` exactly when it is a string of that many characters, and then it is returned as sent |
| Routes.BulkUser | server/routes.ts:339-346 | an accepted bulk user has a username of 3 to 50 characters, a password of at least 6, an e-mail, and a maincro of 1 to 10 |
| Routes.BulkSubcro | server/routes.ts:394-402 | an accepted bulk subcro has maincro and subcro of 1 to 10 characters, a label of at most 100 when present, and never a `null` member |
| Routes.ParseEach | server/routes.ts:349 | the array parses exactly when every element parses; the result keeps each element's parse, in order |
| Routes.GuardedNeedSession | server/routes.ts:194-198 | without a session every guarded handler (query, user list, user edit and delete, both bulk uploads) answers 401 before anything else; with one it never answers 401 |
| Routes.TablesIgnoreSession | server/routes.ts:15-192 | the hotel, subcro and view handlers answer alike with or without a logged-in user |
| Routes.BadIdRejected | server/routes.ts:96-99 | an `:id` parameter with no leading integer answers 400 "Invalid ID format", for subcro and user alike |
| Routes.IdCallsCarryParsedId | server/routes.ts:96-101 | every storage call of an `:id` route is made with `parseInt` of the parameter |
| Routes.QueryBounds | server/routes.ts:194-205 | the statement runs exactly when there is a session and `sql` is a string of 1 to 10000 characters; with a session anything else is a 400 |
| Routes.BulkUsersChecked | server/routes.ts:327-349 | a body that is not a non-empty array answers 400 "Request must contain an array of users"; one bad element refuses the whole batch; otherwise every element is sent to storage in order |
| Routes.BulkSubcrosChecked | server/routes.ts:382-405 | the same for subcros, with "Request must contain an array of subcros" |
| Routes.UserEditIgnoresPassword | server/routes.ts:282-290 | the `password` member of an edit is ignored; the edit goes ahead exactly when username, email and maincro are all truthy, and never sets a password |
| Routes.ShadowedByEarlier | server/routes.ts:94-245 | a literal route that an earlier parameter route also matches is never chosen |
| Routes.ListUnreachable | server/routes.ts:228-237 | GET /api/subcro/list is never handled by its own handler: GET /api/subcro/:id, registered first, takes it |
| Routes.CodesUnreachable | server/routes.ts:245-253 | GET /api/hotel/codes is never handled by its own handler: GET /api/hotel/:codeHotel takes it |
| Routes.CreateSubcroDecided | server/routes.ts:112-116 | POST /api/subcro stores exactly what the schema parse of the body gives, or answers 400 |
| Routes.UpdateSubcroDecided | server/routes.ts:127-135 | PUT /api/subcro/:id checks the id first, then the body, and updates that id with the parsed body |
| Routes.DeleteSubcroDecided | server/routes.ts:150-157 | DELETE /api/subcro/:id deletes the parsed id, or answers 400 |
| Routes.UpdateUserDecided | server/routes.ts:271-290 | with a session, PUT /api/user/:id checks the id, then the three fields ("Missing required fields"), and updates that id |
| Routes.DeleteUserDecided | server/routes.ts:303-314 | with a session, DELETE /api/user/:id deletes the parsed id, or answers 400 |
| Routes.FirstMatchSubcroParam | server/routes.ts:94 | every GET /api/subcro/<x> with one non-empty segment is first matched by GET /api/subcro/:id |
| Routes.FirstMatchHotelParam | server/routes.ts:25 | every GET /api/hotel/<x> with one non-empty segment is first matched by GET /api/hotel/:codeHotel |
| Routes.SubcroParamRouted | server/routes.ts:94 | that request goes to the `:id` handler with <x> as the parameter |
| Routes.SubcroPathsGoToIdRoute | server/routes.ts:94-110 | every GET /api/subcro/<x> goes to the `:id` handler, "list" included |
| Routes.SubcroBadIdPath | server/routes.ts:94-99 | a GET /api/subcro/<x> whose <x> has no leading integer answers 400 "Invalid ID format" |
| Routes.SubcroListAnswersInvalidId | server/routes.ts:228-237 | GET /api/subcro/list answers 400 "Invalid ID format" and never lists the subcros of a maincro |
| Routes.HotelPathsGoToCodeRoute | server/routes.ts:25-36 | every GET /api/hotel/<x> goes to the `:codeHotel` handler, "codes" included |
| Routes.HotelCodesLooksUpHotel | server/routes.ts:245-253 | GET /api/hotel/codes looks up a hotel coded "codes" instead of listing the free codes |
| Server.ServerError | server/routes.ts:19-22 | a database failure is answered 500 |
| Server.ListHotels | server/routes.ts:15-23 | 200 with one row per stored hotel, each exactly once |
| Server.GetHotel | server/routes.ts:25-36 | 200 with the hotel of that code, or 404 "Hotel not found" |
| Server.CreateHotel | server/routes.ts:38-51 | 201 and the row stored under its code, or 500 and nothing stored when the code is taken or the subcro does not exist |
| Server.UpdateHotel | server/routes.ts:53-69 | 500 and no change for a subcro id outside the `integer` range; 404 for an unknown code; 500 and no change when the new code is another row's or the subcro does not exist; otherwise 200 and the row replaced, possibly under a new code |
| Server.DeleteHotel | server/routes.ts:71-82 | the code is gone afterwards; 204 when it was there, 404 otherwise |
| Server.ListSubcros | server/routes.ts:84-92 | 200 with one row per stored subcro, each exactly once |
| Server.GetSubcro | server/routes.ts:101-108 | 500 for an id outside the `integer` range; otherwise 200 with the subcro of that id, or 404 "Subcro not found" |
| Server.CreateSubcro | server/routes.ts:112-124 | 201 with the row stored under the next id, nothing else changed, exactly when that id and the flags fit the `integer` range; otherwise 500 and no change |
| Server.UpdateSubcro | server/routes.ts:134-147 | 500 and no change when the id or a flag is outside the `integer` range; 404 for an unknown id; otherwise 200 and only that row updated with the body |
| Server.DeleteSubcro | server/routes.ts:157-165 | 500 and no change for an id outside the `integer` range or while a hotel references the subcro; otherwise the id is gone, 204 when it was there and 404 otherwise |
| Server.HotelView | server/routes.ts:168-179 | the rows are exactly the view rows equal to each supplied filter |
| Server.UserView | server/routes.ts:181-192 | the rows are exactly the view rows whose maincro contains the maincro filter and whose subcro equals the subcro filter |
| Server.RunQuery | server/routes.ts:204-214 | the statement's result is answered 200; a failure is a 500 carrying the database's message |
| Server.Maincros | server/routes.ts:217-225 | 200 with each maincro of the subcro table once, ascending |
| Server.SubcrosByMaincro | server/routes.ts:228-242 | the choices are exactly the subcros of that maincro, each once, with their ids, ordered by subcro name |
| Server.AvailableCodes | server/routes.ts:245-253 | 200 with the free hotel codes, or an empty list when the read fails |
| Server.AllUsers | server/routes.ts:256-268 | 200 with one row per stored user, password hashes included |
| Server.UpdateUser | server/routes.ts:282-299 | 500 and no change for an id or body key that cannot be bound as an `integer`; 404 for an unknown id, a null body key included; 500 and no change when the body key is null or another user's, or the username is; otherwise 200 and the user patched, moved to the new key when the body gives one |
| Server.DeleteUser | server/routes.ts:309-323 | 500 and no change for an id outside the `integer` range; otherwise the id is gone afterwards, 204 when it was there, 404 otherwise |
| Server.BulkUsers | server/routes.ts:350-370 | 201 with the tally, and the users table and serial are those the batch specification gives |
| Server.BulkSubcros | server/routes.ts:406-426 | 201 with the tally of the batch, and the subcro table is the batch specification's: a record whose id or flag does not fit is counted a failure |
| Server.Read | server/routes.ts:15-268 | a reading call changes nothing but the session, and only login and logout change that |
| Server.Write | server/routes.ts:38-426 | a writing call keeps the tables valid, and only register changes the session |
| Server.Perform | server/routes.ts:15-436 | a reading call leaves the tables unchanged; only login, logout and register change the session |
| Server.Handle | server/routes.ts:10-436 | a session id outside the `integer` range gives the error handler's 500 and changes nothing; otherwise an unrouted request and an answer from the checks change nothing, and a guarded route without a logged-in user is answered 401 with nothing changed |
| Bulk.TallyJson | server/routes.ts:352-356 | the reply carries the success and failure counts and one error per failure |
| Bulk.UserStep | server/routes.ts:358-368 | each record draws the next serial value, even when its insert is refused; a used-up serial stays where it is |
| Bulk.BulkUsers | server/routes.ts:358-368 | every record counts once, as a success or a failure with one error message, and the serial advances once per record until the `integer` range is used up |
| Bulk.CreatedUserIsStep | server/storage.ts:82-85 | what one `createUser` does, with the tally counting it, is the next step of the batch specification |
| Bulk.BulkUsersStep | server/routes.ts:358-368 | one record more is one step more |
| Bulk.BulkCreateUsers | server/routes.ts:358-368 | the loop leaves the users table, the serial and the tally exactly as the batch specification gives, and leaves the other tables alone |
| Bulk.UserStepGrows | server/routes.ts:358-368 | each step only adds users, under serial values from the start of the batch |
| Bulk.BulkUsersShape | server/routes.ts:358-368 | a batch keeps every earlier user and adds only under the serials it drew |
| Bulk.TakenKeyFailsRecord | server/storage.ts:82-85 | a key an earlier register chose at the serial's next value makes the next record fail, though its username is free |
| Bulk.FreshStaysFree | server/routes.ts:358-368 | a username no earlier user and no earlier record has is still free |
| Bulk.FreshUserStep | server/storage.ts:82-85 | a free username is stored under the next serial |
| Bulk.BulkUsersFresh | server/routes.ts:358-368 | a batch of new, distinct usernames, with no key at or above the serial and enough serial values, is stored whole: the record at position i is the user with id `nextId + i`, with its password as sent |
| Bulk.BulkSubcros | server/routes.ts:414-424 | inserting the records in order counts each once, as a success or a failure carrying one error message |
| Bulk.CreatedIsStep | server/storage.ts:144-157 | the row `createSubcro` adds is the next step of the batch specification |
| Bulk.CreateAndCount | server/routes.ts:416-422 | one turn of the loop is one step of the batch specification, and the other tables are left alone |
| Bulk.BulkSubcrosStep | server/routes.ts:414-424 | one record more is one step more |
| Bulk.BulkCreateSubcros | server/routes.ts:414-424 | the loop leaves the subcro table and the tally exactly as the batch specification gives, every record counted once and a failure carrying one error, and leaves the other tables alone |
| Bulk.OutOfRangeRecordFails | server/routes.ts:414-424 | a record with a flag outside the `integer` range is counted a failure and stores nothing |
| Bulk.SubcroStepPositions | server/storage.ts:144-157 | after one more record, the records still sit at consecutive ids |
| Bulk.SubcroStepGrows | server/routes.ts:414-424 | a step whose id and flags fit keeps every earlier row and stores the record under the next id |
| Bulk.StoredFromInsert | server/storage.ts:144-157 | storing one more record under the next position keeps the earlier ones in place |
| Bulk.BulkSubcrosIds | server/routes.ts:414-424 | a batch whose ids and flags fit counts every record a success, keeps every earlier row and stores the records at consecutive ids above the largest |
| Bulk.SubcroStep | server/routes.ts:414-424 | no contract of its own: the specification of one loop step; see `Bulk.CreatedIsStep`, `Bulk.SubcroStepPositions` and `Bulk.SubcroStepGrows` |
| Bulk.UserFailure | server/routes.ts:363-366 | no contract of its own: the error line of a refused user; see `Bulk.TakenKeyFailsRecord` |
| Bulk.SubcroFailure | server/routes.ts:419-422 | no contract of its own: the error line of a refused subcro; see `Bulk.CreatedIsStep` and `Bulk.OutOfRangeRecordFails` |
| CsvImport.Fields | client/src/components/ui/file-upload.tsx:35 | one trimmed field per comma-separated piece of the line, none holding a comma |
| CsvImport.RecordOf | client/src/components/ui/file-upload.tsx:36-40 | the record has exactly the header names as keys |
| CsvImport.RecordOfValue | client/src/components/ui/file-upload.tsx:38-40 | a header not repeated later gets the value in its own column, or "" when the line is short |
| CsvImport.RecordOfNoComma | client/src/components/ui/file-upload.tsx:35-40 | no value of a record holds a comma: there is no quoting |
| CsvImport.Kept | client/src/components/ui/file-upload.tsx:33 | the lines kept are exactly the non-blank ones, in order |
| CsvImport.FillRecord | client/src/components/ui/file-upload.tsx:36-40 | the `forEach` loop builds the record of the specification |
| CsvImport.RecordsStep | client/src/components/ui/file-upload.tsx:32-43 | each further data line adds its record unless it is blank |
| CsvImport.ParseCsv | client/src/components/ui/file-upload.tsx:25-46 | the loop returns exactly the records of the specification |
| CsvImport.RecordsOfKept | client/src/components/ui/file-upload.tsx:32-43 | one record per non-blank data line, in order |
| CsvImport.CsvShape | client/src/components/ui/file-upload.tsx:25-46 | fewer than two lines give no records; otherwise one record per non-blank data line, in order, under the trimmed header fields |
| CsvImport.RecordJson | client/src/components/ui/file-upload.tsx:79 | a record is handed on as an object with the same keys, every value a string |
| CsvImport.RecordsJson | client/src/components/ui/file-upload.tsx:79 | the records are handed on one for one, in order |
| CsvImport.Load | client/src/components/ui/file-upload.tsx:64-82 | a ".json" file gives its array or its `data` array, and `null` or bad JSON fails with the engine's error; otherwise a ".csv" file gives its parsed records, and any other name fails with "Unsupported file format" |
| CsvImport.LoadRefusesOtherJson | client/src/components/ui/file-upload.tsx:66-73 | JSON that is neither an array nor an object with a `data` array fails with "JSON file must contain an array of objects" |
| CsvImport.CellAt | client/src/components/ui/file-upload.tsx:38-40 | no contract of its own; `CsvImport.RecordOfValue` states that each header gets the value at its index, or "" past the end |
| CsvImport.Blank | client/src/components/ui/file-upload.tsx:33 | no contract of its own; `CsvImport.Kept` and `CsvImport.RecordsOfKept` state that blank lines give no record |
| CsvImport.Records | client/src/components/ui/file-upload.tsx:32-43 | no contract of its own; `CsvImport.RecordsStep`, `CsvImport.RecordsOfKept` and `CsvImport.ParseCsv` state it: one record per non-blank line, in order |
| CsvImport.CsvRecords | client/src/components/ui/file-upload.tsx:25-46 | no contract of its own; `CsvImport.ParseCsv` computes it and `CsvImport.CsvShape` states its shape |
| DataTable.Filtered | client/src/components/ui/data-table.tsx:62-69 | the rows shown are exactly the rows that pass every filter, and no more than there are rows |
| DataTable.FilteredInOrder | client/src/components/ui/data-table.tsx:62-69 | the filter keeps the rows' order: filtering two runs is filtering each and joining, and one row is kept exactly when it passes |
| DataTable.EmptyFiltersKeepAll | client/src/components/ui/data-table.tsx:64 | empty filters are ignored: every row is kept, in order |
| DataTable.ZeroCellMissesZeroFilter | client/src/components/ui/data-table.tsx:67 | because `0 \|\| ''` is "", a cell holding 0 never matches the filter "0" |
| DataTable.RowBeforeStrict | client/src/components/ui/data-table.tsx:74-86 | the comparator used for the sort is a strict order |
| DataTable.SortedIsOrderedPermutation | client/src/components/ui/data-table.tsx:72-87 | the sorted rows are a permutation of the filtered rows; unsorted they keep their order; sorted, no row comes after one it goes before |
| DataTable.NextSort | client/src/components/ui/data-table.tsx:104-112 | sorting the same column again flips the direction; another column starts ascending |
| DataTable.SortTwiceRestores | client/src/components/ui/data-table.tsx:104-112 | sorting the same column twice restores the first direction |
| DataTable.TotalPages | client/src/components/ui/data-table.tsx:115 | the fewest pages of 10 that hold every row |
| DataTable.PageRows | client/src/components/ui/data-table.tsx:116-117 | page p holds at most 10 rows, the rows from position 10(p-1) on; page 0 is empty |
| DataTable.RowOnItsPage | client/src/components/ui/data-table.tsx:115-117 | row i is at place i % 10 of page i / 10 + 1, which is at most the last page |
| DataTable.ActiveOf | client/src/components/ui/data-table.tsx:94-96 | the active filters are exactly the keys whose filter is not empty |
| DataTable.TableView.constructor | client/src/components/ui/data-table.tsx:51-55 | no sort, page 1, no filters |
| DataTable.TableView.ChangeFilter | client/src/components/ui/data-table.tsx:56-59 | one filter set and the rest kept; the active list recomputed; back to page 1; the sort kept |
| DataTable.TableView.ClearFilters | client/src/components/ui/data-table.tsx:56-59 | no filters, none active, page 1, the sort kept |
| DataTable.TableView.SortOn | client/src/components/ui/data-table.tsx:104-112 | the sort becomes the next sort for that column and nothing else changes |
| DataTable.TableView.PrevPage | client/src/components/ui/data-table.tsx:119-121 | one page back, never below 1 |
| DataTable.TableView.NextPage | client/src/components/ui/data-table.tsx:123-125 | one page on, never past the last page of the rows shown |
| DataTable.TableView.ExportCsv | client/src/components/ui/data-table.tsx:131-142 | the CSV holds every row of the data, unfiltered and in its own order |
| DataTable.NextPageOnNothingShown | client/src/components/ui/data-table.tsx:115-125 | with no row shown there are no pages, and the next-page button moves to page 0, which is empty |
| DataTable.CellText | client/src/components/ui/data-table.tsx:67 | no contract of its own; `DataTable.ZeroCellMissesZeroFilter` states its edge: a cell that is missing or falsy (0 included) reads as "" |
| DataTable.Passes | client/src/components/ui/data-table.tsx:63-69 | no contract of its own; `DataTable.Filtered` and `DataTable.FilteredInOrder` state its meaning: a row is kept exactly when it passes |
| DataTable.CellBefore | client/src/components/ui/data-table.tsx:76-86 | no contract of its own; `DataTable.RowBeforeStrict` states that the order it induces on rows is strict |
| DataTable.RowBefore | client/src/components/ui/data-table.tsx:74-86 | no contract of its own; see `DataTable.RowBeforeStrict` (a strict order, in either direction) |
| DataTable.Sorted | client/src/components/ui/data-table.tsx:72-87 | no contract of its own; see `DataTable.SortedIsOrderedPermutation` (a permutation of the filtered rows, in comparator order, unchanged without a sort column) |
| DataTable.TableView.Shown | client/src/components/ui/data-table.tsx:63-87 | no contract of its own: the filtered rows, sorted; see `DataTable.Filtered` and `DataTable.SortedIsOrderedPermutation` |
| DataTable.TableView.Visible | client/src/components/ui/data-table.tsx:115-117 | no contract of its own: the current page of the shown rows; see `DataTable.PageRows` and `DataTable.RowOnItsPage` |
| CsvExport.CsvCell | client/src/components/ui/data-table.tsx:138-140 | a string is written in double quotes, with no escaping; `null` and `undefined` are written empty |
| CsvExport.Export | client/src/components/ui/data-table.tsx:131-142 | the loop builds the document: the header line, then one line per row |
| CsvExport.RowLinesStep | client/src/components/ui/data-table.tsx:136-142 | each `output +=` appends the next row's line |
| CsvExport.Lines | client/src/components/ui/data-table.tsx:137-141 | the line of each row, in row order |
| CsvExport.RowLinesTerminated | client/src/components/ui/data-table.tsx:136-142 | every row line ends with a newline |
| CsvExport.ExportLines | client/src/components/ui/data-table.tsx:131-142 | split on newlines, a document whose cells hold no newline gives the header line, each row's line in order, and a final empty line |
| CsvExport.Cell | client/src/components/ui/data-table.tsx:138 | no contract of its own: `row[col.key]`, undefined for a missing key; how it is written is stated by `CsvExport.CsvCell` |
| CsvExport.CsvLine | client/src/components/ui/data-table.tsx:137-141 | no contract of its own; `CsvExport.Lines` and `CsvExport.ExportLines` state that each row gives one line |
| CsvExport.RowLines | client/src/components/ui/data-table.tsx:136-142 | no contract of its own; see `CsvExport.RowLinesStep` and `CsvExport.RowLinesTerminated` (the row lines in order, each ended by a newline) |
| CsvExport.Document | client/src/components/ui/data-table.tsx:131-142 | no contract of its own; `CsvExport.Export` computes it and `CsvExport.ExportLines` states that it splits into the header line, one line per row and a final empty piece |
| SqlEditor.Editor.constructor | client/src/components/ui/sql-editor.tsx:14-18 | the editor starts with the given statement, no result, no error, not loading |
| SqlEditor.Editor.Execute | client/src/components/ui/sql-editor.tsx:43-71 | a blank statement sends nothing and changes nothing; otherwise the request is sent, and afterwards the result is kept with no error, or the error is kept beside the old result, and loading is over |
| SqlEditor.Editor.Clear | client/src/components/ui/sql-editor.tsx:73-80 | empty statement, no result, no error |
| SqlEditor.Editor.ExportCsv | client/src/components/ui/sql-editor.tsx:82-106 | nothing to export without a result or with no rows; otherwise the column names, then every row with its cells in column order |
| SqlEditor.Display | client/src/components/ui/sql-editor.tsx:215-217 | a null or missing cell shows "NULL"; a string shows as itself |
| SqlEditor.DisplayAgainstExport | client/src/components/ui/sql-editor.tsx:101-106 | screen and download differ only in the quotes around strings and in null cells, written "NULL" on screen and empty in the file |
| Dashboard.Tally | client/src/pages/home-page.tsx:61-67 | the keys listed are exactly the maincros counted |
| Dashboard.CountByMaincro | client/src/pages/home-page.tsx:62-67 | the `forEach` loop gives the counts of the specification |
| Dashboard.MatchedAny | client/src/pages/home-page.tsx:63-64 | at most every hotel has a subcro |
| Dashboard.CountOneOf | client/src/pages/home-page.tsx:65 | one more hotel adds one under its maincro and nothing elsewhere |
| Dashboard.CountOneWellFormed | client/src/pages/home-page.tsx:65 | each key is listed once and has a count |
| Dashboard.CountOneSum | client/src/pages/home-page.tsx:65 | one more hotel with a maincro adds one to the total |
| Dashboard.CountOneExact | client/src/pages/home-page.tsx:62-67 | one more hotel keeps every count exact |
| Dashboard.MatchedStep | client/src/pages/home-page.tsx:63-65 | the last hotel adds one under its maincro, when it has a subcro |
| Dashboard.TallyCounts | client/src/pages/home-page.tsx:61-67 | each maincro's count is the number of hotels whose subcro has it; hotels without a subcro are skipped, so the total is at most the number of hotels |
| Dashboard.Items | client/src/pages/home-page.tsx:69-70 | one item per counted maincro with its count |
| Dashboard.TopSorted | client/src/pages/home-page.tsx:71-72 | at most ten items, in decreasing count, each one of the items |
| Dashboard.TopKeepsLargest | client/src/pages/home-page.tsx:71-72 | no item left out has a larger count than one shown |
| Dashboard.ChartShape | client/src/pages/home-page.tsx:61-74 | at most ten maincros with their exact hotel counts, largest first, none left out counted more than one shown |
| Dashboard.Dedupe | client/src/pages/home-page.tsx:189 | each value once, none lost or added |
| Dashboard.SortedDistinct | client/src/pages/home-page.tsx:189 | sorting distinct strings gives them strictly ascending, none lost or added |
| Dashboard.Badges | client/src/pages/home-page.tsx:189 | the maincro badges are each maincro of the subcros once, strictly ascending |
| Dashboard.Recent | client/src/pages/home-page.tsx:207 | the first five subcros, or all when fewer |
| Dashboard.DistinctIds | client/src/pages/home-page.tsx:56 | the user count is at most the number of view rows |
| Dashboard.Home.constructor | client/src/pages/home-page.tsx:18-25 | all counts 0 and an empty chart |
| Dashboard.Home.Refresh | client/src/pages/home-page.tsx:48-76 | nothing changes unless all three lists are non-empty; then hotels and subcros are counted, users and maincros once each, and the chart is the top ten maincros by hotel count |
| Dashboard.MaincroOf | client/src/pages/home-page.tsx:63 | no contract of its own; `HotelTable.ChartAgreesWithTable` states that it is the maincro the hotel table shows |
| Dashboard.CountOne | client/src/pages/home-page.tsx:64-65 | no contract of its own; see `Dashboard.CountOneOf` (one more for that maincro, nothing else changes) and `Dashboard.CountOneWellFormed` |
| Dashboard.Matched | client/src/pages/home-page.tsx:61-67 | no contract of its own; the reference count that `Dashboard.TallyCounts` and `Dashboard.ChartShape` compare the tally against |
| Dashboard.MoreFirst | client/src/pages/home-page.tsx:71 | no contract of its own: the order of `b.count - a.count`; see `Dashboard.TopSorted` |
| Dashboard.Top | client/src/pages/home-page.tsx:69-72 | no contract of its own; see `Dashboard.TopSorted` and `Dashboard.TopKeepsLargest` |
| Dashboard.Chart | client/src/pages/home-page.tsx:69-72 | no contract of its own; see `Dashboard.ChartShape` (at most ten bars, each a maincro with its exact count) |
| Dashboard.SortDistinct | client/src/pages/home-page.tsx:189 | sorting a list without repeats gives a list without repeats |
| ViewFilter.ViewParams | client/src/components/views/hotel-maincro-subcro-view.tsx:47-49 | `maincro` then `subcro`, each exactly when its filter is not empty |
| ViewFilter.QueryOf | client/src/components/views/hotel-maincro-subcro-view.tsx:51 | the query the server reads has exactly the parameters' keys; the page never repeats a key |
| ViewFilter.ViewQueryOf | client/src/components/views/hotel-maincro-subcro-view.tsx:46-51 | the query holds each filter under its own name exactly when it is not empty |
| ViewFilter.SubcroRequest | client/src/components/views/hotel-maincro-subcro-view.tsx:27-36 | the subcro choices are requested, from /api/subcro/list with the maincro, exactly when a maincro is chosen |
| ViewFilter.SubcroOptions | client/src/components/views/hotel-maincro-subcro-view.tsx:23-37 | there are no choices while no maincro is chosen or after a reply that is not 2xx |
| ViewFilter.SubcroChoices | client/src/components/views/hotel-maincro-subcro-view.tsx:132-144 | "all-subcros" first, then each listed subcro name |
| ViewFilter.NextSubcroFilter | client/src/components/views/hotel-maincro-subcro-view.tsx:119-127 | a disabled select changes nothing; otherwise "all-subcros" clears the filter and any other value sets it |
| ViewFilter.FilterState.constructor | client/src/components/views/hotel-maincro-subcro-view.tsx:11-12 | both filters empty |
| ViewFilter.FilterState.ChooseMaincro | client/src/components/views/hotel-maincro-subcro-view.tsx:87-94 | "all-maincros" clears the maincro filter, another value sets it, and the subcro filter is cleared |
| ViewFilter.FilterState.ChooseSubcro | client/src/components/views/hotel-maincro-subcro-view.tsx:119-127 | the maincro filter is kept and the subcro filter follows the select |
| ViewFilter.FilterState.Reset | client/src/components/views/hotel-maincro-subcro-view.tsx:63-69 | both filters cleared |
| ViewFilter.HotelViewFound | server/routes.ts:168 | GET /api/hotel-view is handled by its own route, the first that matches |
| ViewFilter.ViewPathRouted | server/routes.ts:168 | the path "/api/hotel-view" is routed to the view read with no path parameter |
| ViewFilter.ViewDecided | server/routes.ts:168-175 | the view read passes the two query values on, whoever asks |
| ViewFilter.ViewDispatch | server/routes.ts:168-175 | any GET /api/hotel-view reaches the view read with its `maincro` and `subcro` query values |
| ViewFilter.Sent | client/src/components/views/hotel-maincro-subcro-view.tsx:48-49 | a filter reaches the server exactly when it is not empty, with the page's value |
| ViewFilter.ViewRequestCarriesFilters | client/src/components/views/hotel-maincro-subcro-view.tsx:44-57 | the view request reaches the view read with exactly the page's non-empty filters |
| ViewFilter.SubcroChoicesNeverLoad | client/src/components/views/hotel-maincro-subcro-view.tsx:27-36 | whatever maincro is chosen the subcro request answers 400 "Invalid ID format", so the select offers only "all-subcros" |
| ViewFilter.SubcroFilterStaysEmpty | client/src/components/views/hotel-maincro-subcro-view.tsx:119-127 | from the choices offered, the subcro filter can only be cleared, never set |
| ViewFilter.ViewRequest | client/src/components/views/hotel-maincro-subcro-view.tsx:44-57 | no contract of its own; see `ViewFilter.ViewRequestCarriesFilters` |
| Schema.FindSubcro | client/src/components/tables/hotel-table.tsx:234 | a subcro is found exactly when one has the id, and then it is the first that has it |
| Schema.FindSubcroFirst | client/src/components/tables/hotel-table.tsx:234 | the subcro at the first index with the id is the one found |
| HotelTable.OrZero | client/src/components/tables/hotel-table.tsx:239-240 | `x \|\| 0` on a nullable integer: the value when there is one (0 stays 0), else 0 |
| HotelTable.LabelShown | client/src/components/tables/hotel-table.tsx:238 | the label shown is never blank; it is 'N/A' exactly for a missing or empty label or the label "N/A" |
| HotelTable.GetSubcroInfo | client/src/components/tables/hotel-table.tsx:233-242 | null exactly when no loaded subcro has the id; otherwise the names of the first that has it, its label or 'N/A', and its flags or 0 |
| HotelTable.SubcroCell | client/src/components/tables/hotel-table.tsx:262-266 | no contract of its own; see `HotelTable.CellsOfRow` ('N/A' without a loaded subcro of that id, else the first such subcro's name) |
| HotelTable.MaincroCell | client/src/components/tables/hotel-table.tsx:268-273 | no contract of its own; see `HotelTable.CellsOfRow` and `HotelTable.ChartAgreesWithTable` |
| HotelTable.CellsOfRow | client/src/components/tables/hotel-table.tsx:260-274 | both cells read 'N/A' when no loaded subcro has the hotel's `subcroId`, and otherwise show the names of the first that has it |
| HotelTable.ChartAgreesWithTable | client/src/pages/home-page.tsx:63-65 | the dashboard counts a hotel under the maincro its "MainCro" cell shows, and skips a hotel whose cell reads 'N/A' for want of a subcro |
| HotelTable.FormFlag | client/src/components/tables/hotel-table.tsx:21-24 | an unset flag is 0; any other value goes through `Number()`, and `NaN` is refused |
| HotelTable.SubcroFormData | client/src/components/tables/hotel-table.tsx:21-24 | the dialog passes exactly when both flags coerce; the texts are kept and both flags are given |
| HotelTable.CreateSubcroRequest | client/src/components/tables/hotel-table.tsx:59-62 | a request is sent exactly when the dialog passes its schema |
| HotelTable.DialogSubcroHasFlags | client/src/components/tables/hotel-table.tsx:59-62 | the server creates the subcro the dialog holds, with a label and both flags set; the schema would turn an unset flag into 0, a state no dialog reaches |
| HotelTable.DialogDefaultsPass | client/src/components/tables/hotel-table.tsx:86-95 | the dialog opens with empty texts and both flags 0, which the schema passes unchanged |
| HotelTable.HotelFormData | client/src/components/tables/hotel-table.tsx:166-172 | the hotel form passes exactly when the subcro id is a number, and then gives the typed code and id |
| HotelTable.SelectCreated | client/src/components/tables/hotel-table.tsx:69 | the add form keeps its code and takes the id of the subcro the server sent back |
| HotelTable.AddSubcroFromHotelDialog | client/src/components/tables/hotel-table.tsx:59-72 | a refused dialog changes nothing; a row the server refuses (id or flag outside the `integer` range) gives 500 and leaves the form; otherwise the subcro is stored under the next id and the add-hotel form holds that id, so the hotel it adds references the new subcro |
| HotelTable.HotelPath | client/src/components/tables/hotel-table.tsx:123 | no contract of its own; `HotelTable.EditTargetsEditedHotel` states that a code without '/' arrives whole as the route parameter |
| HotelTable.EditDefaults | client/src/components/tables/hotel-table.tsx:184-191 | the edit form opens on the edited hotel and passes its schema unchanged |
| HotelTable.EditRequest | client/src/components/tables/hotel-table.tsx:121-124 | a PUT to the edited hotel's code exactly when a hotel is being edited and the form passes |
| HotelTable.DeleteRequest | client/src/components/tables/hotel-table.tsx:144-147 | a DELETE to the chosen hotel's code exactly when one is chosen |
| HotelTable.EditTargetsEditedHotel | client/src/components/tables/hotel-table.tsx:197-204 | the edit updates the hotel stored under the edited row's code with the form's data; a code without '/' arrives whole as the route parameter |
| HotelTable.EditKeepsCode | client/src/components/tables/hotel-table.tsx:394-404 | the dialog's code field is disabled and opens on the edited hotel's code, so the edit PUTs to that code and stores the hotel under the same code with the chosen subcro: it never renames |
| UserTable.MaincroOptions | client/src/components/tables/user-table.tsx:35 | the maincro choices are exactly the listed maincros that are not blank |
| UserTable.CheckCreate | client/src/components/tables/user-table.tsx:53-59 | the add form passes exactly when the two passwords agree; otherwise "Passwords do not match" under `confirmPassword` |
| UserTable.RegisterSendsForm | client/src/components/tables/user-table.tsx:62-68 | a request is sent exactly when the passwords agree; its body has no `confirmPassword` and no `id`, so the server draws the serial, and it reads back the four fields typed |
| UserTable.EditDefaults | client/src/components/tables/user-table.tsx:177-184 | the edit form opens on the edited user's username, email and maincro |
| UserTable.EditRequest | client/src/components/tables/user-table.tsx:191-197 | a PUT to the edited user's id exactly when a user is being edited |
| UserTable.DeleteRequest | client/src/components/tables/user-table.tsx:200-204 | a DELETE to the chosen user's id exactly when one is chosen |
| UserTable.EditBodyPatch | client/src/components/tables/user-table.tsx:191-197 | with the three fields filled the server sets those three columns and never the password; an empty field is refused |
| UserTable.EditUpdatesOnlyForm | client/src/components/tables/user-table.tsx:191-197 | with a session, the edit updates the edited user's id with the form's three fields, never the password |
| UserTable.DeleteTargetsChosenUser | client/src/components/tables/user-table.tsx:200-204 | with a session, the confirmation deletes exactly the chosen user's id |
| UserTable.NormalizeOne | client/src/components/tables/user-table.tsx:209-214 | each uploaded record is sent with exactly the four fields |
| UserTable.Normalize | client/src/components/tables/user-table.tsx:206-216 | nothing is sent when a record is `null`; otherwise every record is normalised, in order |
| UserTable.MissingUsernameRefused | client/src/components/tables/user-table.tsx:210 | a record with a missing or empty username is sent with username "", which the server refuses |
| UserTable.OneMissingUsernameRefusesBatch | client/src/components/tables/user-table.tsx:206-216 | one uploaded record without a username makes the server refuse the whole batch |
| UserTable.RegisterRequest | client/src/components/tables/user-table.tsx:62-68 | no contract of its own; see `UserTable.RegisterSendsForm` |
| UserTable.EditBody | client/src/components/tables/user-table.tsx:191-197 | no contract of its own; see `UserTable.EditBodyPatch` and `UserTable.EditUpdatesOnlyForm` |
| UserTable.UserPath | client/src/components/tables/user-table.tsx:89 | no contract of its own; see `UserTable.UserPathParts` (the id arrives as the route parameter) |
| UserTable.FieldOr | client/src/components/tables/user-table.tsx:210-213 | no contract of its own; `UserTable.NormalizeOne` states the record it builds |
| FlagSwitch.TextNumber | client/src/components/tables/subcro-table.tsx:20-21 | blank text is 0, decimal digits are their value, and a negative result comes only from a leading '-' |
| FlagSwitch.NumberOf | client/src/components/tables/subcro-table.tsx:20-21 | a number is itself, `null` is 0, a boolean is 1 or 0, and text goes through the text rule |
| FlagSwitch.TextNumberOfIntText | client/src/components/tables/subcro-table.tsx:20-21 | the decimal text of every integer coerces back to it |
| FlagSwitch.Toggle | client/src/components/tables/subcro-table.tsx:285-286 | the switch reads on exactly when it was switched on, and writes 1 or 0 |
| FlagSwitch.SwitchRoundTrip | client/src/components/tables/subcro-table.tsx:285-286 | a flag written by the switch reads back as its position; a value that shows on is 1; the text "1" coerces to 1 but shows off |
| SubcroTable.FlagText | client/src/components/tables/subcro-table.tsx:201-212 | a cell reads "Enabled" for exactly the value 1 and "Disabled" otherwise |
| SubcroTable.FormFlag | client/src/components/tables/subcro-table.tsx:20-21 | an unset flag stays unset; any other value goes through `Number()`, and `NaN` is refused |
| SubcroTable.FormData | client/src/components/tables/subcro-table.tsx:18-22 | the dialog passes exactly when both flags coerce; the texts are kept and each flag is what its schema gives |
| SubcroTable.SchemasDifferOnUnset | client/src/components/tables/hotel-table.tsx:21-24 | the two pages' schemas agree on every set flag; unset, the hotel page's schema gives 0 and this page's leaves it out (no dialog holds an unset flag) |
| SubcroTable.CreateRequest | client/src/components/tables/subcro-table.tsx:40-44 | a request is sent exactly when the dialog passes |
| SubcroTable.UnsetFlagStoredNull | client/src/components/tables/subcro-table.tsx:40-44 | the server creates the dialog's subcro; a flag the schema left out would not be in the body and would be stored NULL, shown "Disabled" |
| SubcroTable.EditDefaults | client/src/components/tables/subcro-table.tsx:132-142 | the edit dialog opens on the row's names, its label or "", and its flags or 0 |
| SubcroTable.EditSwitchesMatchCells | client/src/components/tables/subcro-table.tsx:201-212 | the dialog's switches are on exactly where the row's cells read "Enabled" |
| SubcroTable.HotelInfoAgreesWithEditForm | client/src/components/tables/hotel-table.tsx:238-240 | the hotel page's `\|\| 0` and this page's `?? 0` give the same flags; the label differs only when blank |
| SubcroTable.UnchangedEditKeepsCells | client/src/components/tables/subcro-table.tsx:132-152 | saving the dialog as it opened keeps the row's id, names and both cells, writing 0 over a NULL flag and "" over a NULL label |
| SubcroTable.UpdateRequest | client/src/components/tables/subcro-table.tsx:148-155 | a PUT to the edited row's id exactly when a row is being edited and the dialog passes |
| SubcroTable.DeleteRequest | client/src/components/tables/subcro-table.tsx:157-161 | a DELETE to the chosen row's id exactly when one is chosen |
| SubcroTable.UpdateTargetsChosenRow | client/src/components/tables/subcro-table.tsx:148-155 | the edit updates the row chosen in the table, by its id, with the dialog's data |
| SubcroTable.DeleteTargetsChosenRow | client/src/components/tables/subcro-table.tsx:157-161 | the confirmation deletes exactly the chosen row's id |
| SubcroTable.SubcroPath | client/src/components/tables/subcro-table.tsx:65 | no contract of its own; see `SubcroTable.SubcroPathParts` (the id arrives as the route parameter) |
| Text.Trim | client/src/components/ui/file-upload.tsx:35 | the result is no longer than the input and neither starts nor ends with white space |
| Text.TrimIsMiddle | client/src/components/ui/file-upload.tsx:35 | the trimmed text is the input with a white-space prefix and a white-space suffix removed; with its own ends not white space, exactly the edge white space goes |
| Text.TrimEmptyIffAllSpace | client/src/components/ui/file-upload.tsx:33 | a line trims to "" exactly when it is all white space |
| Text.Split | client/src/components/ui/file-upload.tsx:26 | a split gives at least one part and no part holds the separator |
| Text.JoinSplit | client/src/components/ui/file-upload.tsx:26 | joining the parts of a split with the separator gives back the text |
| Text.SplitJoin | client/src/components/ui/file-upload.tsx:26 | splitting a join of separator-free parts gives back the parts |
| Text.Lower | client/src/components/ui/data-table.tsx:67-68 | `toLowerCase` keeps the length and lowers each ASCII letter |
| Text.ParseIntText | server/routes.ts:96 | `parseInt` reads back the decimal text of every integer |
| Text.HexEncode | dist/index.js:262 | two hex digits per byte, never a "." |
| Text.HexDecode | dist/index.js:266 | at most one byte per two characters |
| Text.HexRoundTrip | dist/index.js:259-269 | decoding the hex text of a key gives back the key |

## Left out

- The database engine. PostgreSQL and Drizzle are replaced by the three in-memory maps. A constraint failure (a duplicate key, a missing referenced subcro, deleting a referenced subcro) becomes a refused call. The SQL text of `getAvailableHotelCodes`, `getDistinctMaincros` and `getSubcrosByMaincro` is replaced by its result over the maps.
- The rows of the two database views. They are computed by the database from a join this code does not define, so they are inputs; the model states which of them the filters keep.
- `executeQuery` (server/storage.ts:222-239). It runs arbitrary SQL, so its outcome is an input (`Server.Env.queryResult`), and so are its `executionTime` and the query console's timing display.
- The read-then-insert race of `createSubcro`. Only one writer at a time is modelled.
- scrypt, `randomBytes` and `timingSafeEqual`. The key derivation is a deterministic function parameter, the salt is an input, and the comparison is plain equality: constant time cannot be expressed.
- Sessions and server setup: passport, express-session and its PostgreSQL store, cookies, the database pool. A session is the id of a user or nothing, and `req.login`/`req.logout` never fail.
- Wall-clock time: `Date.now()`, log durations and `toFixed`. The duration in a log line is an input.
- zod's error messages and its e-mail format check. Every schema failure is one 400 reply with an unspecified message, and the e-mail check is a function parameter.
- `JSON.parse`, `JSON.stringify`, `FileReader`, `Blob` downloads, `fetch`, React Query caching, toasts and JSX rendering. `JSON.stringify` of a logged body is an input of the log line, and a parse failure is an input of the importer.
- The JSON branch of both export buttons, which is a single `JSON.stringify`, and the page-number button window of the table.
- URL encoding. Client paths are built by concatenation, as the code does, and a hotel code holding "/" is not split the way a browser would send it.
- Express's case-insensitive and trailing-slash route matching. Paths match segment by segment, exactly.
- Unicode. `toLowerCase` lowers ASCII letters only. `trim` removes the JavaScript white-space set, but lengths (the zod bounds, the log line's 80) count code points where JavaScript counts UTF-16 units. Strings compare by code point where JavaScript's `<` compares UTF-16 units; the two differ only beyond the Basic Multilingual Plane.
- Database collation. The `ORDER BY` of `getDistinctMaincros` and `getSubcrosByMaincro` is modelled as code-point order, which is what the C collation gives; a database with another collation orders differently.
- `Number()` on text other than an optional sign and decimal digits: fractions, exponents, "0x"/"0b"/"0o" prefixes and "Infinity" are treated as `NaN`, and so are arrays and objects. Floating-point numbers are left out throughout: every JSON number is an integer.
- `<` between values of different kinds in the table sort. The sort orders a number against a number and a string against a string; every other pair is a tie, whereas JavaScript converts and may order them.
- `Object.entries` ordering for integer-like keys, and keys inherited from `Object.prototype`. A record's keys keep the order in which they were first set.
- The 500 replies of the read handlers when the database connection fails. An id outside the `integer` range, which the database refuses, is modelled for every handler; other failures of a read are not. `getAvailableHotelCodes`'s own fallback to [] is modelled.
- The error handler re-throwing the error after it has answered.
- Text.Trim: its own ensures give the length bound and the non-blank ends; that the result is the input's middle, with exactly the edge white space removed, is stated by `Text.TrimIsMiddle`.
- HotelCodes.Lpad: its own ensures give the width; the cut or padded contents are stated by `HotelCodes.LpadContents`.
- Bulk.BulkUsers: a failed record's error text is one input (`reason`) for the whole batch, whereas each failure in the source carries the message of its own database error (a duplicate key and a duplicate username read differently). Which records fail, and the counts, are modelled exactly; `Server.BulkUsers` passes the one text on.
- Bulk.BulkSubcros: likewise one error text for every failed record of the batch (`Server.BulkSubcros` passes it on).
- Arrays and objects where text is expected. node-postgres sends an array as an array literal and an object as JSON text; `Schema.TextColumn` gives every value its `String()` text, and `Schema.KeyOf` refuses an array, object or boolean key. A null member is sent as NULL, not as text: `Schema.TextColumn` gives no value, which the NOT NULL columns refuse, and `Schema.KeyOf` gives the NULL key, which fails only when a row is written. A login username that is not a string is looked up by its `String()` text.
- Repeated query keys. Express's query parser gives an array for a key that appears twice; the model keeps one text per key (`ViewFilter.QueryOf`, `Routes.Credential`). The pages never repeat a key.
- ViewFilter.QueryOf: states the keys only, and a repeated key is not modelled (see the line above).
- The drizzle-zod version. The model takes the insert schemas to accept any integer for `flagcro`, `webcallback` and `subcroId`, so an out-of-range value reaches the database and is answered 500; a version whose schemas bound integers to 32 bits would answer 400 instead.
- Schema.IntegerText: PostgreSQL also reads integer text with `_` separators and `0x`/`0o`/`0b` prefixes, and its white space is the C `isspace` set; the model reads plain decimal digits and trims the JavaScript white-space set.
- The hotel edit dialog's information block about the selected subcro (client/src/components/tables/hotel-table.tsx:445-470). It shows what `HotelTable.GetSubcroInfo` gives and nothing more.
- Routes.BulkUser: states the bounds an accepted element meets, not that every element meeting them is accepted. `Routes.BulkUsersChecked` states the batch-level if-and-only-if over this function.
- Routes.BulkSubcro: likewise, one direction only.
- Server.Handle: for a request that reaches storage with a session that fits, it states only that there is a reply. What that reply is, and how the tables change, is stated for each handler by the `Server` methods it calls.
- Server.Perform: states only which calls leave the tables unchanged and which change the session. The effects of each call are stated by the `Server` method it runs.
- Server.Read: likewise, only the session.
- Server.Write: likewise, only the session and the invariants.
- Bulk.UserStep: states only how the serial moves. The effect of a step on the table and the tally is stated by `Bulk.CreatedUserIsStep`, `Bulk.UserStepGrows`, `Bulk.FreshUserStep` and `Bulk.TakenKeyFailsRecord`.
- Dashboard.Tally: states only that the keys listed are the keys counted. The counts are stated by `Dashboard.TallyCounts`.
- Text.HexDecode: states only its length bound. Its meaning is stated by `Text.HexRoundTrip`.

# hrms_web leave requests, modelled in Dafny

hrms_web is a small HR web application. Employees sign up, log in to receive a one-hour JWT,
file leave requests and list their own requests. Admins list every pending request together
with its owner's email and approve or reject it. The server side is a handful of Next.js API
handlers over two tables, `users` and `leave_requests`. They talk to PostgreSQL when one is
reachable and otherwise to a SQLite file through a small adapter in `hrms_web/lib/db.js`.

This project models that server side as pure functions. A handler takes the following and
returns an `Exchange`:
- the backend in use;
- the crypto oracles (`Jwt`, `Hasher`);
- the database state;
- the request;
- the clock or salt.

An `Exchange` holds the response, the new state and the SQL statements sent to storage. An
empty statement list means storage was neither read nor written.

Modules follow the source files:

| module | file | what it holds |
|---|---|---|
| `JsText` | (JavaScript built-ins) | `\d`, `\s`, `\w`, `trim`, `toLowerCase`, `split`, `join` |
| `Placeholders` | `hrms_web/lib/db.js` | `toSqlite`, plus an independent lexer-based reading of the same rule |
| `Adapter` | `hrms_web/lib/db.js` | JS values and rows, statement classification, RETURNING stripping, result shapes per backend |
| `Store` | `hrms_web/lib/db.js` | the schema's tables and constraints, and the effect of each statement the handlers issue |
| `Oracles` | (bcryptjs, jsonwebtoken) | signing, verification and hashing as function-valued parameters, with soundness predicates |
| `Http` | (Next.js) | requests, responses, exchanges, JS falsiness |
| `Auth` | `lib/auth.js` | the `auth` helper |
| `Signup` | `pages/api/signup.js` | the sign-up handler |
| `Login` | `pages/api/login.js` | the login handler |
| `EmployeeRequests` | `pages/api/requests.js` | create and list-own |
| `AdminRequests` | `pages/api/admin/requests.js` | the admin gate, list-pending and resolve |

Choosing the backend happens at start-up and depends on the environment, so it is the
parameter `Backend = Postgres | Sqlite`. PostgreSQL's driver returns `rows` and `rowCount` for
every statement, and a RETURNING clause yields every column it names. The handlers were written
against that shape. The SQLite adapter returns less, and two handlers behave differently because
of it (see Findings).

The tables, constraints and engine behaviour (`Store`) are those of the SQLite schema in
`hrms_web/lib/db.js:39-57`: unique emails, a nullable `reason`, and an owner that must exist.
`Store` is used with both backends, and only the result shape depends on the backend (see
"Store" under Left out for where PostgreSQL's engine differs). Two consequences of the code are kept
as they are:
- Approved and rejected are not terminal states. The resolve statement never checks the current
  status, so a decided request can be decided again (`AdminRequests.ReResolve`). It can never
  return to `pending` (`AdminRequests.NeverBackToPending`).
- A request may be filed without a reason. It is then stored as NULL.

## Model

| member | source | states |
|---|---|---|
| JsText.Lower | hrms_web/lib/db.js:73 | `toLowerCase` on ASCII: the length is kept, every capital `A`-`Z` becomes the letter 32 code points above it, every other character is kept, and no capital is left |
| JsText.LowerIdempotent | hrms_web/lib/db.js:73 | lower-casing an already lower-cased text changes nothing |
| JsText.LowerSlice | hrms_web/lib/db.js:73 | lower-casing commutes with taking a slice, so a prefix of the lower-cased statement is the lower-cased prefix |
| JsText.LowerOfSmall | hrms_web/lib/db.js:73 | a text with no capital letter is unchanged by lower-casing |
| JsText.TrimStart | hrms_web/lib/db.js:73 | the result is a suffix of the input, everything dropped is white space, and the result does not start with white space |
| JsText.TrimEnd | hrms_web/lib/db.js:73 | the result is a prefix of the input, everything dropped is white space, and the result does not end with white space |
| JsText.Split | lib/auth.js:6 | `split` on one character yields one more part than there are separators, and no part contains the separator |
| JsText.JoinSplit | lib/auth.js:6 | splitting loses nothing: joining the parts with the separator gives back the header |
| JsText.SplitJoin | lib/auth.js:6 | splitting the join of separator-free parts gives back exactly those parts |
| JsText.SplitAtOnlySeparator | lib/auth.js:6-8 | a string with one separator splits into the text before it and the text after it |
| Placeholders.DigitRun | hrms_web/lib/db.js:63 | `\d+` is greedy: the run is all digits and is followed by a non-digit or the end |
| Placeholders.ToSqlite | hrms_web/lib/db.js:62-64 | the result is no longer than the input and contains no `$` followed by a digit; its first character is `?` when the input starts with a placeholder and is otherwise the input's own first character |
| Placeholders.ToSqliteKeepsPlain | hrms_web/lib/db.js:62-64 | a statement without `$n` parameters is left unchanged |
| Placeholders.ToSqliteShrinks | hrms_web/lib/db.js:62-64 | a statement with a parameter gets strictly shorter |
| Placeholders.ToSqliteFixedPoints | hrms_web/lib/db.js:62-64 | `toSqlite` leaves a statement unchanged if and only if the statement has no `$n` parameter |
| Placeholders.ToSqliteIdempotent | hrms_web/lib/db.js:62-64 | rewriting twice equals rewriting once |
| Placeholders.Lex | hrms_web/lib/db.js:63 | the decomposition into literal characters and maximal `$digits` parameters is well formed |
| Placeholders.UnlexLex | hrms_web/lib/db.js:63 | the decomposition spells out the original statement |
| Placeholders.LexUnique | hrms_web/lib/db.js:63 | any well-formed decomposition of a statement is the one `Lex` finds |
| Placeholders.ToSqliteBindsPieces | hrms_web/lib/db.js:62-64 | `toSqlite` keeps every literal piece in order and turns every parameter into one `?` |
| Placeholders.ToSqliteSpec | hrms_web/lib/db.js:62-64 | for every well-formed piece sequence, rewriting its text binds exactly its parameters |
| Adapter.ColumnListRun | hrms_web/lib/db.js:82 | `[\w\*,\s]+` is greedy: the run is all class characters and is followed by a non-class character or the end |
| Adapter.FirstClause | hrms_web/lib/db.js:82 | finds the leftmost index where `returning\s+[\w\*,\s]+` matches, or reports that none exists |
| Adapter.StripReturning | hrms_web/lib/db.js:82 | the first match is cut out, at least 11 characters long and running to the end of the column list; without a match the text is unchanged |
| Adapter.StripReturningShortensIff | hrms_web/lib/db.js:81-82 | the text gets shorter if and only if the RETURNING pattern matches somewhere |
| Adapter.StripReturningKeepsNoPlaceholder | hrms_web/lib/db.js:82 | the cut never joins a `$` to a digit |
| Adapter.Prepared | hrms_web/lib/db.js:72-88 | no `$n` parameter reaches SQLite, and only an insert loses more than parameter digits |
| Adapter.Classify | hrms_web/lib/db.js:73-81 | the dispatcher's test on the trimmed, lower-cased text; its behaviour is stated by `ClassifyIgnoresPadding`, `ClassifySelect`, `ClassifyInsertReturning`, `ClassifyInsertPlain` and `ClassifyOther` |
| Adapter.Query | hrms_web/lib/db.js:71-91 | the result `query` resolves to: the classification picks the branch and the backend picks the shape; stated by `Shape`, `SqliteSelectHasNoRowCount` and `SqliteReturningKeepsOnlyId` |
| Adapter.Shape | hrms_web/lib/db.js:74-90 | Postgres gives `rows` and `rowCount`. SQLite gives `rows` only for a select or a returning insert, and `rowCount` only otherwise. A select keeps its rows. A returning insert gets exactly one row whose only key is `id`, holding the last insert row id |
| Adapter.SqliteSelectHasNoRowCount | hrms_web/lib/db.js:74-78 | a SQLite select resolves to `{rows}` alone, so `rowCount === 0` is never true |
| Adapter.SqliteReturningKeepsOnlyId | hrms_web/lib/db.js:79-85 | under SQLite every column of a RETURNING clause other than `id` reads as `undefined` |
| Adapter.ClassifyIgnoresPadding | hrms_web/lib/db.js:73 | leading and trailing white space does not change how a statement is classified |
| Adapter.TrimPadded | hrms_web/lib/db.js:73 | padding a statement with white space on either side does not change what `trim` returns |
| Adapter.ClassifySelect | hrms_web/lib/db.js:73-74 | a statement that does not start with white space and whose first six characters read `select` in any case is a select, whatever follows, trailing white space included |
| Adapter.ClassifyInsertReturning | hrms_web/lib/db.js:79-81 | an insert with no surrounding white space that contains `returning` in any case followed by a white-space character other than its last character is a returning insert (a trailing space is trimmed away before the regular expression runs) |
| Adapter.ClassifyInsertPlain | hrms_web/lib/db.js:79-86 | an insert with no surrounding white space in which `returning`, in any case, is never followed by a white-space character is a plain insert (`Insert(false)`), the kind for which `Shape` gives SQLite's `{ rowCount }` |
| Adapter.ClassifyOther | hrms_web/lib/db.js:73-88 | a statement that does not start with white space and is shorter than six characters, or whose first six characters read neither `select` nor `insert` in any case, falls through to the `rowCount` branch; the empty statement included |
| Store.FreshIsValid | hrms_web/lib/db.js:39-57 | an empty database satisfies the schema's constraints |
| Store.InsertUser | hrms_web/lib/db.js:41-47 | the insert fails, with the UNIQUE violation, if and only if the email is taken. On success it appends one user with the next AUTOINCREMENT id and the role or its default, and the constraints still hold |
| Store.InsertRequest | hrms_web/lib/db.js:48-56 | the insert succeeds if and only if the owner is an existing user id and both dates are present. A null owner violates NOT NULL. On success it appends one row with the next id and the status or its default, and the constraints still hold |
| Store.UsersByEmail | pages/api/login.js:11 | the lookup returns exactly the users with that email, and is empty if and only if the email is not registered |
| Store.AtMostOneUserPerEmail | hrms_web/lib/db.js:43 | because of the UNIQUE constraint, the lookup by email finds at most one user |
| Store.UsersByEmailAfterInsert | pages/api/login.js:11 | right after a user with a new email is inserted, looking that email up finds exactly that user |
| Store.OwnRequests | pages/api/requests.js:16 | `where user_id = $1` keeps exactly the requests owned by that id, each as often as it is stored |
| Store.OwnRows | pages/api/requests.js:16 | `select *` of the caller's requests: a row for every owned request and nothing else, each request's row occurring as often as the request is stored |
| Store.OwnerRows | pages/api/admin/requests.js:11 | for one request the join yields as many rows as there are users whose id is its owner, and those rows are exactly the request joined with each such user's email |
| Store.OneOwner | hrms_web/lib/db.js:50 | because `user_id` is NOT NULL and references `users(id)`, and ids are distinct, every stored request has exactly one owner and the join yields exactly one row for it |
| Store.PendingRows | pages/api/admin/requests.js:11-12 | the pending join yields exactly the pending requests paired with their owners' emails |
| Store.PendingRowsCount | pages/api/admin/requests.js:11-12 | when every request has exactly one owner, the join has as many rows as there are pending requests |
| Store.PendingRowsDistinct | pages/api/admin/requests.js:11-12 | with distinct request ids and one owner each, no joined row occurs twice |
| Store.PendingOncePerRequest | pages/api/admin/requests.js:11-12 | in a valid state the pending join lists every pending request exactly once: one row per pending request, none repeated |
| Store.PendingRowId | pages/api/admin/requests.js:11 | a joined row carries the request's own id |
| Store.PendingRowsArePending | pages/api/admin/requests.js:11-12 | every joined row has status `pending` |
| Store.SetStatus | pages/api/admin/requests.js:18 | the update sets the status of the rows with that id, and leaves every other row and field as it was |
| Store.UpdateStatus | pages/api/admin/requests.js:18 | the update leaves users and counters alone, keeps the row count, and keeps the constraints |
| Auth.Authenticate | lib/auth.js:3-16 | exactly one of two outcomes: a payload and nothing written, or no payload and one 401. The 401 says "Missing" for a falsy header, "Malformed" unless the header holds exactly one space, and "Invalid token" when verification fails. Otherwise the result is the verified payload of the second part |
| Auth.SchemeIgnored | lib/auth.js:6-8 | any space-free scheme word authenticates exactly as `Bearer` does, and the token is all of the text after the space |
| Auth.HeaderArity | lib/auth.js:6-7 | `split(' ')` gives two parts if and only if the header holds exactly one space |
| Auth.BearerRoundTrip | lib/auth.js:8-15 | a header carrying a signed token yields the signed claims before expiry, and 401 "Invalid token" from expiry on |
| Signup.NormaliseRole | pages/api/signup.js:10-11 | the role is always `admin` or `employee`. A supplied valid role is kept, anything else becomes `employee` |
| Signup.NormaliseRoleIdempotent | pages/api/signup.js:10-11 | normalising twice equals normalising once |
| Signup.SignupSqlIsReturningInsert | pages/api/signup.js:16-19 | the adapter treats the sign-up statement as a returning insert |
| Signup.Reply | pages/api/signup.js:20 | the response carries the new id, and the role only when the backend returns the columns the RETURNING clause names |
| Signup.Handle | pages/api/signup.js:5-23 | 405 for any method but POST and 400 for a falsy email or password, both without storage access. 201 if and only if the email is free, adding exactly the new user with the hashed password. A taken email gives a 500 UNIQUE violation and no change |
| Signup.SignupTwice | pages/api/signup.js:16-23 | a second sign-up with an email that already succeeded fails with 500 and adds nobody |
| Signup.SignupPreservesValid | pages/api/signup.js:5-23 | sign-up keeps the schema's constraints |
| Signup.SignupStoresUser | pages/api/signup.js:7-19 | a 201 means both fields were non-empty, the email was free, and exactly the new user was appended |
| Signup.SignupStoresHash | pages/api/signup.js:15-18 | the stored password is the hasher's output for the password sent at cost 10, the email is the one sent, the stored role is valid, and no request changes |
| Signup.SignupOmitsRoleOnSqlite | pages/api/signup.js:20 | under SQLite a sign-up with a new email and both fields set answers 201 with the new id and an undefined role |
| Signup.SignupReportsRoleOnPostgres | pages/api/signup.js:20 | for the same input, the full RETURNING shape puts the stored, normalised role in the response |
| Login.LoginSqlIsSelect | pages/api/login.js:11 | the adapter treats the lookup as a select |
| Login.Lookup | pages/api/login.js:11 | the lookup returns the rows of the users with that email. `rowCount` is reported only by Postgres |
| Login.Handle | pages/api/login.js:6-20 | covers every outcome: 405 for any method but POST; 400 for a falsy field; a known user whose password matches gets 200 with a token for that user's id, the email as supplied and the stored role, expiring in an hour; a wrong password gets 401 "Invalid credentials"; an unknown email gets 401 under Postgres and 500 under SQLite. The state never changes |
| Login.LoginUnknownEmailOnSqlite | pages/api/login.js:12-14 | under SQLite an unknown email fails reading `password_hash` of no row and gets 500 |
| Login.LoginUnknownEmailOnPostgres | pages/api/login.js:12 | with `rowCount` reported, an unknown email gets the same 401 as a wrong password |
| Login.LoginKnownUser | pages/api/login.js:11-17 | a unique user whose hash the password matches gets the token for that user's claims |
| Login.LoginAfterInsert | pages/api/login.js:11-17 | logging in right after a user was inserted under a new email succeeds with that user's claims |
| Login.LoginAfterSignup | pages/api/login.js:11-17 | after a successful sign-up, logging in with the same email and password succeeds with either result shape, if the hasher accepts that password's hash |
| Login.SignupThenLogin | pages/api/login.js:11-17 | the same round trip for any sound hasher. The token carries the new id, the email and the normalised role |
| Login.LoginThenAuthenticate | pages/api/login.js:16-17 | a token from a successful login, sent back as a bearer header within the hour, authenticates as the user it was issued to |
| EmployeeRequests.CreateSqlIsReturningInsert | pages/api/requests.js:10-13 | the adapter treats the create statement as a returning insert |
| EmployeeRequests.OwnSqlIsSelect | pages/api/requests.js:16 | the adapter treats the listing as a select |
| EmployeeRequests.Reply | pages/api/requests.js:14 | the 201 body carries the new request's id with either result shape, since the RETURNING clause names only `id` |
| EmployeeRequests.Create | pages/api/requests.js:8-14 | 201 if and only if the caller's `sub` is an existing user and both dates are present. The request is then appended as `pending`, owned by `sub`, and the response holds its new id with either result shape. Otherwise the result is 500 with no change |
| EmployeeRequests.ListOwn | pages/api/requests.js:15-17 | 200 with exactly the stored requests whose owner is the caller, at any status, each as often as it is stored, and no change |
| EmployeeRequests.Handle | pages/api/requests.js:4-19 | a failed `auth` ends the call with its 401 and no storage access; otherwise the call is dispatched on the method with the token's `sub` |
| EmployeeRequests.UnauthenticatedIsInert | pages/api/requests.js:5-6 | without a verified token the answer is 401, with no statement issued and no change |
| EmployeeRequests.OtherMethodsRefused | pages/api/requests.js:19 | after authentication, any method but POST and GET gets 405 with no storage access |
| EmployeeRequests.CreateAppendsOne | pages/api/requests.js:9-14 | a create appends exactly one row and leaves the existing ones unchanged. The new row is owned by `sub`, is pending and holds the dates and reason as sent, with no check of their order or emptiness |
| EmployeeRequests.ListOwnIsOwnersOnly | pages/api/requests.js:16-17 | every listed row has `user_id` equal to the caller's `sub` |
| EmployeeRequests.RoleIgnored | pages/api/requests.js:5-8 | two tokens with the same subject are treated identically, whatever their roles |
| EmployeeRequests.CreateThenList | pages/api/requests.js:9-17 | a request just filed shows up, pending, in the filer's own list |
| EmployeeRequests.HandlePreservesValid | pages/api/requests.js:4-19 | the handler keeps the schema's constraints |
| AdminRequests.PendingSqlIsSelect | pages/api/admin/requests.js:10-13 | the adapter treats the pending listing as a select |
| AdminRequests.ResolveSqlIsOther | pages/api/admin/requests.js:18 | the adapter treats the update as neither select nor insert |
| AdminRequests.Decide | pages/api/admin/requests.js:17 | the decision is never `pending`. It is `approved` if and only if the action is exactly `approve`, so every other action, or none, rejects |
| AdminRequests.ListPending | pages/api/admin/requests.js:9-14 | 200 with exactly the pending requests joined with their owners' emails, and no change; in a valid state one row per pending request and no row twice |
| AdminRequests.Resolve | pages/api/admin/requests.js:15-19 | every row with the given id gets the decided status and nothing else changes anywhere. The answer is 200 with that status |
| AdminRequests.Handle | pages/api/admin/requests.js:4-21 | a failed `auth` ends the call with its 401 and no storage access; otherwise the call depends only on the token's role, the method and the body |
| AdminRequests.UnauthenticatedIsInert | pages/api/admin/requests.js:5-6 | without a verified token the answer is 401, before the role check, with no statement issued |
| AdminRequests.NonAdminForbidden | pages/api/admin/requests.js:7 | a verified caller whose role is not `admin` gets 403 for every method, and storage is neither read nor written |
| AdminRequests.AdminOtherMethodsRefused | pages/api/admin/requests.js:21 | an admin using any method but GET or POST gets 405 with no storage access |
| AdminRequests.ResolvedNeverListed | pages/api/admin/requests.js:10-14 | an approved or rejected request never appears in the pending list |
| AdminRequests.ResolveUnknownId | pages/api/admin/requests.js:18-19 | resolving an id that no request has still answers 200 with the decided status and changes nothing |
| AdminRequests.ReResolve | pages/api/admin/requests.js:17-18 | the current status is not checked, so a decided request takes the new decision |
| AdminRequests.NeverBackToPending | pages/api/admin/requests.js:17-18 | a request that has left `pending` never returns to it |
| AdminRequests.ResolveLeavesPendingList | pages/api/admin/requests.js:10-18 | after a decision on an id, no row with that id is in the pending list |
| AdminRequests.ResolveShownToOwner | pages/api/admin/requests.js:18 | after a decision, the owner's own list (the GET of `pages/api/requests.js`) shows the request with the decided status |
| AdminRequests.HandlePreservesValid | pages/api/admin/requests.js:4-21 | the handler keeps the schema's constraints |

## Left out

- Backend choice: `tryPostgres` and `getBackend`, the connection pool, `connect`/`release` and the fallback. These are start-up I/O, so the backend is a parameter. Logging and the `created_at` time stamps are also left out.
- Store: the engine modelled is the SQLite database that `hrms_web/lib/db.js:39-57` creates, and it is used for both backends; only the result shape depends on the backend. PostgreSQL's own schema comes from the Knex migration, which is not modelled. That migration types `start_date` and `end_date` as `date` and makes `id` a serial (`hrms_web/migrations/002_create_leave_requests.js:3-6`). PostgreSQL's engine behaviour therefore differs from the model in four ways, none of which is modelled: it parses dates, returns `date` columns as JS `Date` objects, consumes a serial value on a failed insert, and parses text bound to an integer column.
- EmployeeRequests.Create: under PostgreSQL an empty or malformed date is rejected with a 500; the model answers 201 for any present date text, as SQLite's TEXT columns do.
- EmployeeRequests.ListOwn: under PostgreSQL the date columns come back as `Date` objects; the model's rows hold the stored text, as SQLite returns it.
- AdminRequests.ListPending: under PostgreSQL the joined rows' date columns come back as `Date` objects; the model's rows hold the stored text, as SQLite returns it.
- AdminRequests.Resolve: under PostgreSQL a non-numeric text `id` makes the update fail with a 500; the model answers 200 and changes nothing, as SQLite does.
- Signup.Handle: the new id is `lastUserId + 1`, as SQLite's AUTOINCREMENT gives it (a failed insert is rolled back and consumes no id). A PostgreSQL serial also advances on a failed insert, so after a rejected duplicate sign-up its next id can be larger.
- Signup.SignupStoresHash: it does not promise that the stored value differs from the plain-text password. That is a property of bcrypt, and the hasher is an oracle here.
- Concurrency: several requests in flight, and two admins resolving the same row. Each call is modelled as one atomic step.
- JSON bodies: every body field is a string, null or absent, the last two both modelled as `None`. An admin's `id` is undefined, null, an integer or a string. A missing body, and body fields of any other JSON type (fractions, booleans, arrays, objects), are not modelled, nor is the JS falsiness of `0` or `false`.
- SQLite numeric affinity: a textual id such as `"5"` is compared as text, so it matches no integer id and is no valid owner. SQLite's INTEGER affinity would convert it first.
- An `undefined` bound parameter is taken to be stored as NULL.
- Unicode: case mapping is ASCII only. It cannot change whether a statement starts with `select` or `insert` or contains `returning`.
- Crypto internals: bcrypt's 72-byte truncation, token formats and the signing secret stay inside the `Hasher` and `Jwt` oracles. The clock and the salt are parameters.
- Error text: the wording of engine and runtime errors in 500 responses. The model records which constraint or runtime error occurred.
- Result order: rows come back in storage order. The statements have no ORDER BY.
- The pages, the navigation component, browser-side token handling and the smoke-test script. These are presentation or I/O.
- `ON DELETE CASCADE`: nothing in the core deletes a user.

## Findings

| source | as written | input that shows it | evidently intended | confidence | as-written member | corrected member |
|---|---|---|---|---|---|---|
| hrms_web/lib/db.js:74-77 | a SQLite select resolves to `{ rows }` with no `rowCount`, so login's `result.rowCount === 0` never holds and an unknown email reads `password_hash` of `undefined` | POST /api/login with `{email: "nobody@x", password: "p"}` on the SQLite backend with no such user: 500 | the same 401 "Invalid credentials" as a wrong password, as the PostgreSQL shape gives | not executed | Login.LoginUnknownEmailOnSqlite | Login.LoginUnknownEmailOnPostgres |
| hrms_web/lib/db.js:79-85 | the RETURNING emulation returns only `{ id }`, so sign-up's `insert.rows[0].role` is `undefined` and the response has no `role` | POST /api/signup with `{email: "a@x", password: "p", role: "admin"}` on the SQLite backend: 201 `{id: 1}` | 201 `{id: 1, role: "admin"}`, the columns named by `returning id, role` | not executed | Signup.SignupOmitsRoleOnSqlite | Signup.SignupReportsRoleOnPostgres |

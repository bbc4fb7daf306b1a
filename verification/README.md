# Film API authentication core, in Dafny

This project models the credential bookkeeping of the film API's Express
server: the `POST /auth/register`, `POST /auth/register-admin` and
`POST /auth/login` handlers and the generic error handler they fall through
to. The model is a functional state machine over the `users` table:

- `AccountStore` — the table as a `map` from lowercased username to
  `Account(id, username, passwordHash, role)` plus the next value of the id
  sequence. It has an atomic insert-if-absent (a uniqueness violation leaves
  the table untouched) and a lookup.
- `Credentials` — bcrypt as a `Hasher` value: `hash(password, salt)` and
  `verify(password, storedHash)`. Both are left uninterpreted. The salt that
  bcrypt draws at random is an input. End-to-end properties assume only
  `Sound(h)`: a password verifies against any hash made from it.
- `Casing` — username normalisation (`toLowerCase`), folding ASCII capitals.
- `Utf16` — JavaScript's `length`, which counts UTF-16 code units. The
  six-character minimum is measured in those units.
- `Jwt` — the token payload `{ user: { id, username, role } }` with
  `iat` = the clock truncated to seconds and `exp = iat + 3600`.
- `Http` — body fields (`Missing` or `Given(text)`), the per-request context
  (database health, bcrypt salt, clock in milliseconds) and the response with
  its status: 201/400/409/500 for registration, 200/401/500 for login. It also
  holds the trace of calls a handler makes into bcrypt and the database. The
  trace makes "validation comes before hashing and storage" and "login never
  writes" checkable statements.
- `AccountService`, `Session` — the three handlers.
- `Server` — one `Step` per request. `Serve` runs a sequence of requests and
  proves that the table only grows, by one row per 201. It also proves that
  each new row was created by a registration whose route fixed its role.

The error handler at server.js:83-86 answers every thrown error or rejected
promise with 500 `Terjadi kesalahan pada server`. In the model, three paths
reach it:

- a database query that fails with anything other than a uniqueness
  violation (`Backend = Failing`);
- `toLowerCase` on a missing username at login;
- bcrypt's compare called with a missing password.

The server has other paths to that 500 which the model leaves out (see
"Left out"): a truthy non-string username at registration, where
`toLowerCase` throws (server.js:29); a non-string password without a
`length`, which passes the guard at server.js:22 and makes `bcrypt.hash`
throw (server.js:27); and an unset `JWT_SECRET`, which makes `jwt.sign`
throw on a successful login (server.js:72).

Behaviour of the handlers worth noting:

- The password minimum counts UTF-16 code units: three characters outside
  the Basic Multilingual Plane already pass it.
- Registration answers `{id, username}` with the lowercased username; the
  stored hash and the role are not echoed.
- A missing login username is not validated; it becomes a 500.
- `JWT_SECRET` is read once at load (server.js:11) with no check that it is set.
- An unknown username and a wrong password give the same 401 response.
  However, the unknown-username path makes no bcrypt call (compare the
  `effects` of the two outcomes), so the two paths are not uniform in timing.

## Model

| member | source | states |
|---|---|---|
| Casing.ToLower | server.js:29 | the normalised username has the same length, contains no ASCII capital, and matches the input character by character ignoring case |
| Casing.ToLowerEqualIffSameIgnoringCase | server.js:62 | two usernames are stored and looked up under the same key if and only if they are equal ignoring ASCII case, which makes matching case-insensitive |
| Casing.LowerCaseIffFixedPoint | server.js:48 | a username is already normalised exactly when lowercasing leaves it unchanged; lowercasing twice is lowercasing once |
| Utf16.Length | server.js:22 | `password.length` lies between the number of characters and twice that; it equals the number of characters exactly when every character is in the Basic Multilingual Plane, and twice it exactly when none is; one character counts one unit inside that plane and two outside |
| Utf16.LengthAppend | server.js:22 | `length` is additive over concatenation, so with the one-character case it is one unit per character plus one per character outside the Basic Multilingual Plane |
| AccountService.AcceptsInput | server.js:22 | a body passes exactly when the username is a non-empty string and the password a non-empty string of at least six UTF-16 code units; the admin route uses the same guard (server.js:41) |
| AccountService.AcceptsInputByCharacters | server.js:22 | the register guard in characters: six or more always pass, fewer than three never do; for passwords inside the Basic Multilingual Plane the bound is exactly six characters, and for passwords made only of characters outside it exactly three |
| AccountService.AcceptsThreeAstralCharacters | server.js:22 | a password of three emoji passes the six-unit minimum, while five ASCII letters do not |
| AccountStore.RoleName | server.js:48 | the role column holds exactly `"user"` or `"admin"`, and `"admin"` exactly for the admin role |
| AccountStore.Insert | server.js:28-34 | the insert reports a duplicate exactly when the username is present, and then leaves the table unchanged; otherwise it adds one row with the given username, hash and role and a fresh id, and keeps the table well formed |
| AccountStore.Find | server.js:61-63 | the lookup finds a row exactly when the key is present, and the row it returns carries that username |
| AccountStore.InsertKeepsOtherRows | server.js:28-29 | an insert keeps every existing row and changes no other username's lookup |
| Session.TokenFor | server.js:71-72 | the token's claims are the row's id, username and role text (`user` or `admin`); `iat` is the clock floored to whole seconds and `exp = iat + 3600` |
| Jwt.Sign | server.js:71-72 | the token carries the given claims, its issue time is the clock truncated to whole seconds, and it expires 3600 seconds later |
| AccountService.RegisterAs | server.js:20-37 | invalid input is a 400 with no hashing and no table access; otherwise bcrypt runs, then one insert under the lowercased key; 500 exactly when the database fails, 409 exactly when the key exists, and both leave the table unchanged; a 201 carries only the new id and the lowercased username, and the stored row holds `hash(password, salt)` and the route's role (that this is not the plaintext rests on bcrypt, which the model leaves uninterpreted) |
| AccountService.StoredHashVerifies | server.js:26-29 | after a 201 the stored password field is the bcrypt hash of the submitted password, and that password verifies against it |
| AccountService.Register | server.js:20-37 | every account `/auth/register` adds has role `user`; statuses are 201/400/409/500; 201 exactly when one row was added |
| AccountService.RegisterAdmin | server.js:39-56 | every account `/auth/register-admin` adds has role `admin`, with no check on the caller; statuses are 201/400/409/500; 201 exactly when one row was added |
| AccountService.AdminRouteDiffersOnlyInRole | server.js:39-56 | both registration routes give the same response, the same calls and the same usernames, and keep existing rows alike; the row a route adds is the same except that its role is `admin` on the admin route |
| Session.Login | server.js:58-77 | login never changes the table and never hashes or inserts; a missing username is a 500 before any query; the answer is 200 exactly when the database works, the lowercased username exists and the password verifies, and the token then holds the stored id, lowercased username and role text and expires one hour after issue; 401 (always `Kredensial tidak valid`) exactly for an unknown username or a present wrong password |
| Session.FailuresLookAlike | server.js:64-70 | with a password present, an unknown username and a known one with a wrong password get the identical response |
| Session.MissingPasswordRevealsAccount | server.js:67 | as written, a login without a password answers 500 for a registered username and 401 for an unregistered one |
| Session.LoginUniform | server.js:58-77 | the corrected login: every refusal of a named user while the database works is the one 401, and success is unchanged |
| Session.UniformHidesRegistration | server.js:64-70 | with the correction, a login that does not authenticate gets the same response from any two tables, so the response does not reveal whether a username is registered |
| Server.Step | server.js:20-86 | with `RouteRole` standing for the role argument hard-coded at server.js:29 and :48, one request keeps the table well formed, lowercased and non-empty-keyed; it only adds rows, one per 201; a 400 has no effects; login leaves the table as it was; each new row is named by the 201 and has the route's role |
| Server.LoginAfterRegister | server.js:26-73 | after a successful registration on either route, logging in with the same password and any casing of the username returns 200 with a token for the new id, the lowercased username and that route's role text (`user` or `admin`) |
| Server.DuplicateIgnoringCase | server.js:29-34 | after "Alice" registers, any valid registration of a case variant on either route is a 409 that leaves the table unchanged |
| Server.Serve | server.js:20-77 | over any sequence of requests the table stays well formed and only grows; its size grows by the number of 201 answers; every login answer is 200, 401 or 500; every new row traces to a registration that answered 201 for it, with that route's role |

## Left out

- Express plumbing is not modelled: routing, `cors`, `express.json`, the `/status` route, the 404 fallback, `dotenv` and `app.listen` are framework wiring and I/O.
- The imported `authenticateToken` / `authorizeRole` middleware is not modelled: no route uses it, and its source is not part of this model.
- Error logging (`console.error`) is output only and is not modelled.
- The bcrypt internals are not modelled: salt generation, the cost factor 10, and the fact that two hashes of one password differ. The salt is an input and `hash`/`verify` are uninterpreted. A bcrypt failure on a string password is not modelled.
- JWT encoding, the HMAC signature and `JWT_SECRET` are not modelled. Login success assumes the secret is set; with it unset, `jwt.sign` would throw and the request would get a 500.
- The Postgres driver, the SQL text and error code `23505` are reduced to a map with atomic insert-if-absent plus a `Failing` flag for any other query error. This assumes a unique constraint on `users.username`, which is not shown. The id counter does not advance on a rejected insert, whereas a serial column consumes a value; the model promises only that ids are fresh.
- Concurrent registrations of one username are not modelled: each request is one atomic step, and the uniqueness race belongs to the database.
- Non-string JSON values in the body (numbers, objects, arrays) are not modelled: a field is either missing/null or a string. So the 500s they cause inside `bcrypt.hash` (server.js:27) or `toLowerCase` (server.js:29) are not modelled either.
- Strings holding lone surrogates are not modelled: a Dafny `char` is a Unicode scalar value, so every character outside the Basic Multilingual Plane counts as a full surrogate pair in `Utf16.Length`.
- Casing.ToLower: folds ASCII capitals only, not the full Unicode case mapping of JavaScript's `toLowerCase`.
- The 500 for a missing login password assumes that bcryptjs's compare rejects a non-string argument. That library is not part of this model.

## Findings

| source | as written | input that shows it | evidently intended | confidence | as-written member | corrected member |
|---|---|---|---|---|---|---|
| server.js:67 | with no password, `bcrypt.compare` is called only after a row was found, and it rejects, so the answer is 500; with no row, the answer is 401 | after "alice" is registered, `POST /auth/login {"username":"alice"}` gets 500 while `{"username":"bob"}` gets 401, which reveals that "alice" exists | every failed login for a named user gets the same 401 `Kredensial tidak valid` | medium; not executed; depends on bcryptjs rejecting a non-string password | Session.MissingPasswordRevealsAccount | Session.LoginUniform |

`Server.Step` and `Server.Serve` keep the handler as written (`Session.Login`), because they model the server as it behaves. `Session.LoginUniform` is the corrected handler, and `Session.UniformHidesRegistration` proves the intended property about it.

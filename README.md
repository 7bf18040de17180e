# Auth handlers of the task-management backend, in Dafny

This project models the authentication router of a small REST backend: the
`POST /register`, `POST /login` and `GET /me` handlers in `routes/auth.js`.
It treats them as a state machine over an abstract user table.

- The table (the Prisma `user` model) is a `map` from email to `UserRecord`,
  plus the next id the store hands out (`Users.Db`). The register handler
  runs as a method of the class `Auth.UserTable`. That method inserts into
  the map held in a field. `Auth.RegisterStep` is the same handler written
  on values, and the method is proved equal to it.
- bcryptjs is a `Crypto.Hasher`, a pair of functions `hash` and `verify`
  given as a parameter. The one fact the handlers rely on,
  `verify(p, hash(p))`, is the predicate `Crypto.Sound`. Lemmas that need
  it take it as a precondition.
- jsonwebtoken is reduced to a `Crypto.Token`: the claims `{userId, role}`
  and the secret used to sign them. The secret is `process.env.JWT_SECRET`
  when that is set and non-empty, and otherwise a fallback. Register falls
  back to `"your-secret-key"` and login to `"secretkey"`. The two are kept
  distinct, and `FallbackSecretsDiffer` shows that without the environment
  variable the two handlers sign with different secrets.
- A response is the JSON envelope with its HTTP status: `status`,
  `success`, `message`, `user` and `token`. A user in a response is a
  `PublicUser`, a type with no password field.

The model follows what the code does, not what it appears to intend. The
comment "Validate role if provided" (routes/auth.js:22) and the
`role || "USER"` default (routes/auth.js:51) suggest the role was meant to
be optional. But the test `!role` at line 16 rejects a request with no
role, so the default never applies. `RegisterStoresRequestedRole` proves
that the stored role is always the one requested.

Request fields are `Option<string>`. `None` is a field that is absent, and
JavaScript truthiness (`!name`) is "absent or the empty string"
(`Auth.Truthy`).

## Model

| member | source | states |
|---|---|---|
| `Auth.UserTable.Register` | routes/auth.js:14-74 | The handler's step-by-step ladder, proved equal to `RegisterStep` on the table's old state. It keeps the table valid. A rejection leaves the fields unchanged. A 201 adds exactly one record under the new email, with the hashed password, and returns that record without its password. |
| `Auth.RegisterStep` | routes/auth.js:14-74 | Missing-fields 400 exactly when some field is falsy. Invalid-role 400 exactly when the role is not USER or ADMIN. Duplicate 400 exactly when the email is already stored. 201 exactly when all checks pass. Every rejection leaves the table as it was. A 201 ("User registered successfully") adds one record (id = next id, hash of the password, requested role) and changes no other record. It returns that record minus its password, with claims `{userId: id, role}` signed with the register secret. It preserves the table's validity (unique emails and ids). |
| `Auth.Login` | routes/auth.js:92-137 | 400 exactly when email or password is falsy. The single `InvalidCredentials` response (401) exactly when the email is unknown or the password does not verify. 200 exactly when the credentials check out, and then "Login successful", the stored record minus its password and claims `{userId, role}` signed with the login secret. Every failure has no user and no token. |
| `Auth.Me` | routes/auth.js:153-158 | 200 with the attached user minus its password, no token. |
| `Users.Strip` | routes/auth.js:128 | Object-rest removal of the password (also the shape of the `select` at lines 53-58 and of the strip at line 153): putting the record's own hash back on the result gives the record again, so only the password is dropped. |
| `Users.RoleFrom` | routes/auth.js:23 | A role string is accepted exactly when it equals `"USER"` or `"ADMIN"`. |
| `Crypto.SecretFor` | routes/auth.js:63 | `JWT_SECRET \|\| fallback`: the environment value when set and non-empty, else the fallback. |
| `AuthProperties.StripLosesOnlyPassword` | routes/auth.js:128 | Removing the password and putting the same hash back gives the record again. Changing the hash does not change the projection. |
| `AuthProperties.MeHidesPassword` | routes/auth.js:153-158 | The profile response does not depend on the password hash of the attached user. |
| `AuthProperties.RegisterResponseIgnoresHasher` | routes/auth.js:44-74 | The register response is the same for every hasher: the hash goes into the table, never into the response. |
| `AuthProperties.LoginIgnoresStoredHash` | routes/auth.js:112-136 | The login response depends on a user's stored hash only through whether the password verifies against it. |
| `AuthProperties.LoginUniformFailure` | routes/auth.js:105-119 | An unknown email and a wrong password give the identical response, `InvalidCredentials()`: 401, `success = false`, "Invalid email or password", no user, no token. |
| `AuthProperties.LoginReturnsOwnEmail` | routes/auth.js:101-134 | In a valid table, the user returned by a successful login has the email that was asked for. |
| `AuthProperties.LoginDependsOnlyOnOwnRecord` | routes/auth.js:101-103 | Login looks at nothing but the record stored under the given email. |
| `AuthProperties.RegisterThenLogin` | routes/auth.js:44-126 | With a sound hasher, logging in with the credentials of a successful register gives 200, the same public user and the same claims. The two tokens share a secret exactly when `JWT_SECRET` is set and non-empty. |
| `AuthProperties.FallbackSecretsDiffer` | routes/auth.js:122-126 | The register and login secrets coincide exactly when `JWT_SECRET` is set and non-empty (register's fallback is at line 63). |
| `AuthProperties.RegisterStoresRequestedRole` | routes/auth.js:51 | On a successful register the stored role is the requested one, which is `"USER"` or `"ADMIN"`. The `"USER"` default is unreachable. |
| `AuthProperties.RegisterAllValid` | routes/auth.js:31-59 | Any run of registrations keeps every record under its own email and all ids distinct. |
| `AuthProperties.RegisterAllKeepsRecords` | routes/auth.js:46-59 | Later registrations never change or remove an existing record. |
| `AuthProperties.RegisterAllCount` | routes/auth.js:46-59 | After a run, the table has grown by exactly the number of 201 responses. |
| `AuthProperties.RegisterAllRejectsTaken` | routes/auth.js:31-40 | A request for an email already in the table gets a 400 wherever it comes in a run, and exactly `DuplicateEmail()` ("User with this email already exists") when it passes the field and role checks. |
| `AuthProperties.RegisterAllAcceptsEmailOnce` | routes/auth.js:31-40 | Once a request for an email has been accepted, every later request for that email in the run gets a 400, and exactly `DuplicateEmail()` when it passes the field and role checks. |

## Left out

- The catch-all 500 paths of register and login (routes/auth.js:78-85, 139-146) are omitted. They handle exceptions thrown by the database or the libraries, which the model has no notion of.
- The 500 path of `/me` (routes/auth.js:159-166) is omitted. There it can only come from destructuring a missing `req.user` at line 153, and `Me` always receives a user.
- The shape of the response body is flattened. `/me` sends the user directly as `data` (routes/auth.js:157), while register and login send `data: { user, token }` (lines 70-73, 133-136). The model puts all three users in `Response.user`, so that difference in shape is not captured.
- Request fields that are JSON values other than strings (numbers, booleans, objects) are not modelled. Every field is absent or a string.
- Password hashing: the bcrypt salt (which is random) and the cost factor of 10 are inside the abstract `hash` function. So the model's hash of a password is a function of the password alone, while bcrypt's is not. `bcrypt.compare` is the abstract `verify`.
- Token expiry (24 hours), signature cryptography and token verification are not modelled. A token is its claims and its secret. Clocks are left out.
- The authentication middleware (`middleware/auth.js`) is not part of this model. `Me` takes the user it attaches as a parameter, assumed to be a full record.
- A stored user is assumed to have exactly five columns: id, name, email, password and role (`Users.UserRecord`). The Prisma schema is not part of this model. Login returns the whole stored row minus its password (routes/auth.js:128) and `/me` passes through whatever the middleware attaches (routes/auth.js:153), while register returns only the four columns its `select` names (routes/auth.js:53-58). Any further columns (timestamps, say) would appear in the login and `/me` responses but not in the register one. The model hides that difference, and `RegisterThenLogin`'s equality of the two users holds only under this assumption.
- How the database assigns ids (`lib/prisma.js` and the schema are not part of this model) is abstracted to a counter. It gives distinct ids, and `UserTable`'s constructor takes the first one.
- The store's own unique constraint and concurrent requests are not modelled. Requests run one at a time against the map.
- `server.js` (Express wiring, CORS, body parsing, the documentation page, the 404 and error middlewares, `listen`), `routes/tasks.js`, logging, and HTTP serialisation are out of scope. The unused module-level `JWT_SECRET` constant (routes/auth.js:8) plays no part in either handler, since both re-read the environment.

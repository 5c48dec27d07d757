# Credential bookkeeping of an Express login server

This project models the core of a small username/email + password
authentication server. It covers the user store kept in one JSON file
(`models/User.js`) and the request logic of the `/api/auth` routes
(`routes/auth.js`).

- `UserModel` (user_model.dfy). The file's content is a `Backing` value,
  held in the `file` field of a `Database` object. `FindAll` reads it:
  a missing or unparseable file reads as no users. A document whose
  `users` property is not an array reads as `None`. The three lookups
  are one keyed first-match search, `FindBy`, built on `Find`, which
  models `Array.prototype.find`. `User` is a class whose `Save` method
  hashes the password in place and appends the user's record to the
  file. `ComparePassword` asks the hashing scheme.
- `Bcrypt` (bcrypt.dfy). The hashing library stays uninterpreted: a
  `Scheme` is a pair of functions, `hash` and `compare`. The one fact
  the server relies on is `Sound`: a plaintext always matches its own
  hash, whatever the salt. It appears only as a hypothesis of the
  lemmas that need it.
- `JsValues` (js_values.dfy). Request-body fields are `undefined`,
  `null` or a string. JavaScript truthiness counts `undefined`, `null`
  and `""` as absent.
- `AuthRoutes` (auth_routes.dfy).
  - `/register` and `/login` are ordered validation chains with early
    returns, specified by the pure functions `Registration` and
    `LoginReply`.
  - They are implemented by the methods `Register` and `Login`. Each
    method builds a `User` object as the handler does, and is proved
    equal to its function.
  - A signed token is modelled by its payload `{userId, username}`.
  - `/profile` and `/verify` are projections of the user record that
    the token resolved to.

Properties proved include the following:

- the error precedence of both handlers;
- the store is unchanged on every refusal;
- a successful registration appends exactly one record, with the
  password hashed;
- registration keeps usernames pairwise distinct and emails pairwise
  distinct (the store itself never checks this);
- an unknown user and a wrong password get the identical 401 reply;
- right after registering, logging in by username or by email returns
  the same token and user as the registration.

Ids are clock readings, and `findById` returns the first match. So when
two users register in the same millisecond, the second user's token
resolves by `findById` to the first account
(`IdCollisionResolvesToOtherUser`).

The code catches only read failures, parse failures and a document
that is `null` (models/User.js:18-23).
For a parsed document whose `users` property is not an array, `findAll`
returns that property as it is (often `undefined`), and the next `.find`
or `.push` throws. The model follows this: such a file
makes both handlers answer 500 and leaves the file untouched.

## Model

| member | source | states |
|---|---|---|
| `UserModel.FindAll` | models/User.js:17-23 | a missing or unparseable file yields the empty collection; a parsed document yields its `users` property as it is, which may be no array at all |
| `UserModel.Find` | models/User.js:28-29 | the result is the earliest record whose key equals the value, and nothing exactly when no record matches |
| `UserModel.FindBy` | models/User.js:27-42 | `findByEmail`/`findByUsername`/`findById` throw exactly when the stored `users` is not an array; otherwise they return the first match in file order, or nothing |
| `UserModel.Appended` | models/User.js:52-58 | the file written by `save` reads back as the old collection with exactly one record added at the end: length one more, earlier records unchanged and in order; when `users` is not an array the file is left unchanged |
| `UserModel.FindAppend` | models/User.js:29-52 | after an append, a search that already succeeded returns the same record; a search that failed returns the new record exactly when it matches |
| `UserModel.FindByAfterAppend` | models/User.js:33-52 | the same at file level: if no earlier record has the new username (email, id), a lookup by it after `save` returns the saved record |
| `UserModel.UniqueKeyLookup` | models/User.js:27-36 | when usernames and emails are unique, a lookup by a stored record's username or email returns that very record |
| `UserModel.Database.constructor` | models/User.js:5 | the store holds the given file content |
| `UserModel.User.constructor` | models/User.js:8-14 | username, email and password are taken verbatim; id and createdAt are the given clock readings |
| `UserModel.User.Save` | models/User.js:45-60 | the password becomes `hash(old plaintext, salt)`; the other fields are unchanged; the file gains this user's record at its end; the result is this same object, or none when the push throws |
| `UserModel.User.ComparePassword` | models/User.js:63-65 | the answer is the scheme's comparison with the stored hash, so under a sound scheme the plaintext a hash was made from is accepted |
| `JsValues.Truthy` | routes/auth.js:14 | `!field` holds exactly for `undefined`, `null` and the empty string, as in the tests at routes/auth.js:14, 75 and 81 |
| `AuthRoutes.ScreenRegistration` | routes/auth.js:11-40 | an admitted request has all three fields present as strings; a refused one answers 400 or 500 |
| `AuthRoutes.Registration` | routes/auth.js:9-67 | a request that is not answered 201 leaves the file unchanged, and the status is always 201, 400 or 500 |
| `AuthRoutes.Register` | routes/auth.js:9-67 | the handler's reply and new file are exactly those of `Registration`; the uniqueness of usernames and emails is preserved |
| `AuthRoutes.RegisterRequiresAllFields` | routes/auth.js:14-18 | an absent, null or empty username, email or password gives 400 "Todos los campos son requeridos" and the file is unchanged |
| `AuthRoutes.RegisterChecksUsernameBeforePassword` | routes/auth.js:20-24 | with all fields present, a username shorter than 3 gives its 400 whatever the password, and the file is unchanged |
| `AuthRoutes.RegisterChecksPasswordLength` | routes/auth.js:26-30 | with a valid username, a password shorter than 6 gives its 400 and the file is unchanged |
| `AuthRoutes.RegisterRejectsTakenKeys` | routes/auth.js:32-40 | a valid request whose email or username is already stored gives 400 "El usuario o email ya está registrado" and the file is unchanged |
| `AuthRoutes.RegisterFailsOnMalformedStore` | routes/auth.js:33-66 | a valid request against a file whose `users` is not an array ends in the catch-all 500, file unchanged |
| `AuthRoutes.RegisterSucceedsExactlyWhen` | routes/auth.js:42-61 | 201 if and only if every check passes; then the file is the old collection plus one record with the given username and email, the clock's id and time and the hashed password; the reply's user and token carry that record's id, username and email and no password |
| `AuthRoutes.RegistrationPreservesUniqueness` | routes/auth.js:32-44 | if usernames and emails were pairwise distinct before a registration, they still are after it |
| `AuthRoutes.LoginReply` | routes/auth.js:70-134 | a login succeeds only for the record found by the one identifier given, when the scheme accepts the password, and then issues that record's token and public fields; every 401 carries "Credenciales inválidas"; the status is never 201 |
| `AuthRoutes.Login` | routes/auth.js:70-134 | the handler (which may not modify the store) answers exactly `LoginReply`, whatever clock readings its transient `User` takes |
| `AuthRoutes.LoginLookup` | routes/auth.js:87-94 | searches by username when one is given, otherwise by email: it throws exactly when `users` is not an array, and otherwise returns the first record with that username (else that email), or nothing |
| `AuthRoutes.LoginNeedsExactlyOneIdentifier` | routes/auth.js:74-79 | both or neither of username and email gives 400, before the password is looked at |
| `AuthRoutes.LoginNeedsPassword` | routes/auth.js:81-85 | with exactly one identifier, an absent password gives 400 "La contraseña es requerida" |
| `AuthRoutes.LoginHidesWhichCheckFailed` | routes/auth.js:87-111 | past the input checks, the answer is 401 exactly when no user is found or the password does not match, and both cases give the same reply |
| `AuthRoutes.LoginSucceedsExactlyWhen` | routes/auth.js:75-128 | 200 "Login exitoso" if and only if exactly one identifier and a password are given, the file holds a users array, and the first record with that username (else that email) has a hash the scheme accepts for the password |
| `AuthRoutes.LoginFailsOnMalformedStore` | routes/auth.js:90-133 | a valid login against a file whose `users` is not an array ends in the catch-all 500 |
| `AuthRoutes.LoginAfterRegistration` | routes/auth.js:87-128 | under a sound hashing scheme, after a successful registration, logging in with the username alone or the email alone and the same password returns 200 with the registration's token and user |
| `AuthRoutes.Profile` | routes/auth.js:137-151 | the body is the resolved user's id, username, email and createdAt; it has no password field |
| `AuthRoutes.Verify` | routes/auth.js:153-163 | `valid` is true and the user is the resolved record's id, username and email, the same ones `/profile` shows |
| `AuthRoutes.RegisteredTokenResolves` | routes/auth.js:137-163 | if the new id was not taken, the token's user id resolves by `findById` to the new record, whose `/profile` and `/verify` bodies echo the registered id, username, email and time |
| `AuthRoutes.IdCollisionResolvesToOtherUser` | models/User.js:9-41 | if an earlier user already has the clock's id, the newcomer's token resolves by `findById` to an account with a different username |

## Left out

- public/script.js (the browser form, `fetch`, `localStorage`) and
  server.js (Express wiring, CORS, static files, the fallback route) are
  not part of this model.
- middleware/auth is not part of this model. Token signing, signature
  checks, the 24-hour expiry and bearer-header extraction are left out.
  `/profile` and `/verify` take the user the middleware resolved as a
  parameter.
- File input and output are left out. The file is a `Backing` value,
  and every read failure counts as `Missing`. Failures of
  `writeFileSync`, and the exceptions of bcrypt and of `jwt.sign`, are
  not modelled; in the source they would end in the catch-all 500.
- JSON serialisation is left out. A `users` element that is not a
  record is not modelled. A `null` element makes a lookup that reaches
  it throw, which ends in the catch-all 500. Numbers, strings and
  booleans never match.
- Body fields other than `undefined`, `null` and strings (numbers,
  booleans, objects) are not modelled.
- String lengths are counted in characters, not in UTF-16 code units.
- bcrypt's algorithm, the cost factor and the random salt are left out.
  The salt is a parameter, and `hash`/`compare` are uninterpreted.
- The clock (`Date.now()`, `new Date()`) is left out: its readings are
  parameters.
- Concurrency is left out: requests run one at a time. The lost update
  between two concurrent registrations' read-modify-write cycles is not
  modelled.
- The server-side `console.error` logging in both catch blocks
  (routes/auth.js:64, 131) is left out: it does not affect the reply or
  the file.

# Secure request handlers of a teaching HTTP API, modelled in Dafny

The repository pairs vulnerable and secure versions of a small Express API.
This project models the secure decision logic:

- **File download** (`GET /files?name=`). The router canonicalises its
  uploads directory once. At request time it resolves the client's name
  against that directory with `path.resolve`, then accepts the result only
  if it is the directory itself or starts with the directory followed by `/`.
  It answers 400, 403, 404 or 200.
- **Role authorisation** (`authorize(...allowedRoles)`). A user must be
  attached to the request, and their role must be on the allow-list.
  Otherwise the middleware answers 403; if both hold, it passes the request
  on unchanged.
- **Login** (`POST /login`). It checks that both fields are present, runs
  one parameterised lookup, and compares the password with bcrypt. An
  unknown user and a wrong password get the same 401. On success it returns
  the row without its `password` column. Every failure is a generic 500.
- **Registration** (`POST /users`). It validates the email and the password
  policy, forces the role to `user`, hashes the password before storing it,
  sends one parameterised insert, and answers 201. Every failure is a
  generic 500.

Modules: `Js` (optional fields, truthiness, settled promises), `Db` (rows,
the recorded call, and the `Pool` class whose `Query` adds each call to its
`calls` log), `Http` (responses), `PosixPath` (`path.resolve` as segment
normalisation), `Files`, `Authorize`, `Login`, `Users`.

Outside collaborators are parameters:
- the working directory `cwd`;
- the filesystem, a map from path to bytes (a path not in the map cannot be
  read);
- the database, a function from a call to its settled result;
- `bcrypt.compare` and `bcrypt.hash`, as functions to settled results;
- the validator library's `isEmail`, `normalizeEmail` and symbol class.

The main results:
- `PosixPath.WithinIffBelow`: for any uploads directory other than `/`, the
  string test at `src/api/files.js:24` accepts exactly the paths whose names
  start with the directory's names.
- `Files.GetFiles`: the path handed to the read always lies in or below the
  uploads directory.
- `Login.NoUserEnumeration`: an unknown user and a wrong password get the
  same response.
- `Users.ClientRoleIgnored` and `Users.InsertShape`: nothing the client
  sends changes the SQL text or the stored role.

Three behaviours of the code worth knowing:
- The login handler answers 200 `{ success: true, user }` and issues no
  token (`src/auth/login.js:36-39`).
- The sanitiser `normalizeEmail()` in the validation chain rewrites
  `req.body.email` before the handler destructures it
  (`src/api/users.js:11`, `src/api/users.js:28`). The insert parameters are
  therefore `[normalizeEmail(email), normalizeEmail(email), hash, 'user']`,
  not the raw email.
- If the uploads directory is `/`, the guard wants the prefix `//`
  (`src/api/files.js:24`). No canonical path has it, so every file below `/`
  is refused. `Files.RootRefusesChildren` states this.

## Model

| member | source | states |
|---|---|---|
| Js.FieldString | src/api/users.js:11-19 | the validators see a present field as its own string and an absent one as `''`; the string is empty exactly when the field is not truthy |
| PosixPath.Split | src/api/files.js:22 | `split('/')` yields at least one and at most `|s| + 1` segments, none containing `/` |
| PosixPath.JoinSplit | src/api/files.js:22 | splitting a path on `/` and joining the pieces again gives back the same string |
| PosixPath.SplitJoin | src/api/files.js:22 | joining separator-free segments and splitting the result gives back the same segments |
| PosixPath.SplitName | src/api/files.js:22 | a string with no `/` splits into itself alone |
| PosixPath.SplitAppend | src/api/files.js:22 | splitting `a + "/" + b` gives the segments of `a` followed by those of `b` |
| PosixPath.Step | src/api/files.js:22 | during resolution, a segment other than `..` never leaves the directory reached so far and adds at most one name; `..` never descends, and removes exactly one name except at the root, where it stays |
| PosixPath.Walk | src/api/files.js:22 | walking a list of segments adds at most one name per segment |
| PosixPath.WalkAppend | src/api/files.js:22 | resolving a concatenation of segments equals resolving the first part, then the second from where the first ended |
| PosixPath.WalkNames | src/api/files.js:22 | a walk over plain names appends them unchanged |
| PosixPath.WalkStaysBelow | src/api/files.js:22 | a walk with no `..` segment ends in or below its starting directory |
| PosixPath.WalkClimb | src/api/files.js:22 | at least as many `..` segments as the directory is deep end at the root, never above it |
| PosixPath.Ups | src/api/files.js:22 | `Ups(k)` is exactly `k` copies of `..` |
| PosixPath.Format | src/api/files.js:10 | the string form of a resolved path is absolute |
| PosixPath.SlashedAppend | src/api/files.js:22 | writing out a concatenation of names equals writing out each part in turn |
| PosixPath.SplitSlashed | src/api/files.js:22 | splitting `/a/b/c` gives an empty segment and then `a`, `b`, `c` |
| PosixPath.FormatRoundTrip | src/api/files.js:10 | resolving the string form of a canonical path gives back that path |
| PosixPath.FormatInjective | src/api/files.js:24 | two canonical paths have the same string form exactly when they are equal, so `filepath !== resolvedUploadsDir` compares paths |
| PosixPath.FormatChild | src/api/files.js:22 | the string form of a child of a non-root directory is the directory's string, `/`, then the name |
| PosixPath.Resolve | src/api/files.js:10-22 | `path.resolve()` with no arguments is the working directory; an absolute last argument discards the working directory and all earlier arguments; a relative last argument is walked from what the earlier arguments (or, failing those, the working directory) resolve to |
| PosixPath.ResolveString | src/api/files.js:22 | `path.resolve` always returns an absolute path |
| PosixPath.ResolveIdempotent | src/api/files.js:10 | resolving an already resolved directory changes nothing, so resolving once at router creation is enough |
| PosixPath.ResolveAgainst | src/api/files.js:22 | `path.resolve(base, name)` with an absolute base walks a relative name from the base; an absolute name replaces the base; the working directory is irrelevant |
| PosixPath.BelowPasses | src/api/files.js:24 | a path strictly below a non-root base starts with the base followed by `/` |
| PosixPath.SlashedExtends | src/api/files.js:24 | a longer list of names, written out, starts with the shorter list written out followed by `/` |
| PosixPath.PassesOnlyBelow | src/api/files.js:24 | a path starting with a non-root base followed by `/` lies strictly below that base |
| PosixPath.SlashedSplitsAt | src/api/files.js:24 | if `/b...` followed by `/` and `t` spells out `p`, then `p` is `b` followed by the segments of `t` |
| PosixPath.Within | src/api/files.js:24 | a path the guard accepts always starts with the base string |
| PosixPath.WithinIffBelow | src/api/files.js:24 | below a non-root base the string guard accepts a path exactly when the base's names are a prefix of the path's, so a sibling sharing only a string prefix is refused |
| PosixPath.WithinRoot | src/api/files.js:24 | with `/` as base the guard accepts only `/` itself |
| Files.CreateFilesRouter | src/api/files.js:6-10 | the router keeps `path.resolve(uploadsDir)`; it is absolute and resolving it again gives the same directory |
| Files.GetFiles | src/api/files.js:12-34 | a missing or empty name gets 400 with nothing resolved or read; a path failing the guard gets 403 with nothing read; otherwise the resolved path is read, giving 200 with its bytes or 404. 404 only follows a passed guard. Every path read lies in or below the uploads directory. Below a non-root directory, 403 happens exactly when the name resolves outside it |
| Files.Target | src/api/files.js:22 | the resolved target of a relative name is that name walked from the uploads directory; an absolute name is walked from the root; the working directory plays no part |
| Files.Admitted | src/api/files.js:22-24 | below a non-root uploads directory the guard admits exactly the names that resolve in or below it; with `/` as the directory it admits only names that resolve to `/` |
| Files.ChildAdmitted | src/api/files.js:22-24 | a plain name such as `photo.jpg` resolves to the uploads directory followed by `/photo.jpg`, and the guard accepts it |
| Files.NoParentSegmentAdmitted | src/api/files.js:22-24 | a relative name with no `..` segment is accepted and stays in or below the uploads directory |
| Files.SelfAdmitted | src/api/files.js:24 | `.` and `a/..` resolve to the uploads directory itself and are accepted |
| Files.ParentTraversalRefused | src/api/files.js:22-26 | `../x` resolves outside the uploads directory and is refused, unless `x` is the directory's own name |
| Files.SplitClimb | src/api/files.js:22 | the name `"../" * k + rest` splits into `k` `..` segments followed by the segments of `rest` |
| Files.ClimbToRoot | src/api/files.js:22 | climbing at least as many levels as the uploads directory is deep resolves the rest of the name from `/` |
| Files.DeepTraversalRefused | src/api/files.js:22-26 | climbing past the root and then naming a path that is not in or below the uploads directory resolves to that path and is refused |
| Files.EtcPasswdName | tests/security/path-traversal.test.js:95-99 | `Climb(6, "etc/passwd")` is the test's name `../../../../../../etc/passwd`, and `/etc/passwd` is the string form of `[etc, passwd]` |
| Files.AbsoluteNameReplacesBase | src/api/files.js:22-26 | an absolute name such as `/etc/passwd` resolves to itself and is accepted only if it lies in or below the uploads directory |
| Files.SiblingPrefixRefused | src/api/files.js:24 | `/uploads/x` starts with `/u` as a string but is refused for base `/u` |
| Files.RootRefusesChildren | src/api/files.js:24 | with `/` as uploads directory every child name is refused |
| Authorize.ListedRolePasses | src/middlewares/authorize.js:5-8 | a user whose role is on the allow-list is passed on to the next handler with the request unchanged |
| Authorize.UnlistedRoleForbidden | src/middlewares/authorize.js:5-8 | a user whose role is not on the allow-list gets 403 `Insufficient permissions` and the pipeline stops |
| Authorize.NoUserForbidden | src/middlewares/authorize.js:5-6 | without an attached user the answer is 403, whatever the allow-list |
| Authorize.EmptyListForbidsAll | src/middlewares/authorize.js:5 | an empty allow-list refuses every request |
| Authorize.MoreRolesNeverForbidMore | src/middlewares/authorize.js:5 | adding roles to the allow-list never turns a pass into a refusal |
| Authorize.OnlyTheRoleSetMatters | src/middlewares/authorize.js:5 | the order and repetition of allowed roles make no difference |
| Authorize.AdminAndDashboardRoutes | tests/security/missing-auth.test.js:94-139 | `authorize('admin')` refuses role `user` and admits `admin`; `authorize('user','admin')` admits both |
| Db.Pool.Query | src/auth/login.js:20 | a query appends exactly one `(text, params)` record to the pool's call log and returns the database's answer to it |
| Login.SafeUser | src/auth/login.js:35 | the returned user has no `password` field, keeps every other field of the row with the same value, and adds none |
| Login.LoginCalls | src/auth/login.js:13-20 | at most one query is sent, none exactly when a field is missing, and it has the constant lookup text and one parameter |
| Login.Verdict | src/auth/login.js:22-43 | once the lookup settles: 200 exactly when a row was found and the comparison resolved true, with a user carrying no `password`; otherwise the 401 or the generic 500 |
| Login.LoginResponse | src/auth/login.js:13-43 | 400 exactly when a field is missing, and then the fixed message; otherwise the answer is decided by the one query sent |
| Login.PostLogin | src/auth/login.js:8-44 | the handler's call log grows by exactly the login's queries, and its response is the login decision for the database the pool fronts |
| Login.MissingFieldRejectedBeforeQuery | src/auth/login.js:13-15 | a missing or empty username or password gives 400 and no query; no query is issued exactly when a field is missing; a 400 only comes from a missing field |
| Login.OneParameterisedLookup | src/auth/login.js:19-20 | with both fields present, exactly one query is sent; its text is `SELECT * FROM users WHERE username = $1` and its parameters are exactly `[username]` |
| Login.QueryIgnoresPassword | src/auth/login.js:19-20 | the queries sent depend on the username alone, never on the password |
| Login.QueryTextConstant | src/auth/login.js:19 | the SQL text is the same whatever the username, so an injection payload cannot alter it |
| Login.NoUserEnumeration | src/auth/login.js:22-32 | an unknown user (no rows) and a wrong password (compare false) get the identical response, 401 `Invalid credentials` |
| Login.SuccessStripsPassword | src/auth/login.js:26-39 | a 200 happens only when a row was found and compare resolved true; its body is the first row without `password` |
| Login.ResponsesAreFixed | src/auth/login.js:13-43 | every response is the 400, the 401, the generic 500, or a 200 with a user |
| Login.FailuresAreOpaque | src/auth/login.js:40-43 | whatever message a rejected query carries, the response is the same generic 500 |
| Login.CompareFailureIsOpaque | src/auth/login.js:29-43 | a rejected bcrypt comparison gives the generic 500 |
| Users.CountClass | src/api/users.js:13-19 | the count of characters in a class is at most the length, and is positive exactly when some character is in the class |
| Users.StrongPasswordClasses | src/api/users.js:13-19 | the policy holds exactly when the password has at least 12 characters and at least one lowercase letter, one uppercase letter, one digit and one symbol, where a symbol is a character of the symbol class that is not a letter or a digit |
| Users.ValidationErrors | src/api/users.js:11-19 | the email error is listed exactly when the email fails `isEmail`; the password error is listed exactly when the password fails the policy; nothing else is listed, each failure appears once, and the email error comes first |
| Users.ValidBodyHasFields | src/api/users.js:11-19 | a body that passes validation has a non-empty email and a non-empty password |
| Users.RegisterCalls | src/api/users.js:23-40 | at most one query is sent, only after validation passes, and it has the constant insert text, four parameters and the role `user` |
| Users.RegisterResponse | src/api/users.js:23-47 | 400 exactly when validation fails, carrying the error list; a 201 is the bare `{ success: true }`; anything else is the generic 500 |
| Users.PostUsers | src/api/users.js:9-48 | the handler's call log grows by exactly the registration's queries, and its response is the registration decision for the database the pool fronts |
| Users.InvalidRejectedBeforeStorage | src/api/users.js:23-26 | validation failure gives 400 with the error list and sends nothing to the database; a 400 happens exactly when validation fails |
| Users.ShortPasswordRejected | src/api/users.js:14 | a password shorter than 12 characters always fails the policy |
| Users.ShortExampleRejected | tests/security/input-validation.test.js:150-157 | `short` fails the policy |
| Users.StrongByWitnesses | src/api/users.js:13-19 | a password of at least 12 characters with a lowercase letter, an uppercase letter, a digit and a symbol passes |
| Users.InClassCounted | src/api/users.js:15-18 | one character of a class in the password makes that class's count at least one |
| Users.SecurePassExampleAccepted | tests/security/privilege-escalation.test.js:72-81 | `SecurePass1!` passes the policy when `!` counts as a symbol |
| Users.LettersAndDigitsRejected | src/api/users.js:13-19 | a password made only of letters and digits fails the policy, however long, because no letter or digit counts as a symbol |
| Users.MissingClassRejected | src/api/users.js:17 | a password without a digit fails, however long |
| Users.InsertShape | src/api/users.js:32-40 | at most one query is sent; its text is the constant insert, and its parameters are exactly the normalised email twice, the hash of the password, and `user` |
| Users.InsertIffAccepted | src/api/users.js:23-40 | an insert is sent exactly when validation passes and hashing succeeds |
| Users.ClientRoleIgnored | src/api/users.js:28-32 | the `role` the client sends changes neither the query nor the response |
| Users.PlaintextOnlyThroughHash | src/api/users.js:35-40 | two accepted passwords with the same hash give the same insert, so the plaintext reaches the database only through its hash |
| Users.SuccessEchoesNothing | src/api/users.js:42 | a 201 has the bare body `{ success: true }` and follows exactly one insert that resolved; with `Users.SuccessIsCreated`, a 201 happens exactly when validation passes and the hash and the insert both resolve |
| Users.SuccessIsCreated | src/api/users.js:40-42 | a body that passes validation, whose hash resolves and whose insert the database accepts, gets 201 `{ success: true }`; with `Users.SuccessEchoesNothing`, a 201 happens exactly in that case |
| Users.FailuresAreOpaque | src/api/users.js:43-47 | a rejected hash or insert gives 500 with the fixed message `Internal server error` |

## Left out

- Express wiring, CORS, the global error handler, the database configuration, logging, metrics and tracing: framework setup and I/O, with no decisions of their own.
- The `authenticate` middleware that checks the JWT and attaches `req.user`. It is not part of this model; `req.user` is an input.
- Token issuance and expiry. The login handler issues no token.
- The internals of bcrypt's `hash` and `compare`, and of `isEmail` and `normalizeEmail`. They are uninterpreted parameters. The symbol class that `isStrongPassword` counts is a parameter too, and, as in the library's classification, a character counts as a symbol only if it is not a letter or a digit. The model only assumes that `isEmail` rejects the empty string.
- Salted hashing gives a different result on each call. Each request gets its own `Hasher` function, which absorbs this.
- Users.InsertShape: states that the stored password is the hash output. It does not state that the hash differs from the plaintext or that it verifies against it, because bcrypt is outside the model.
- Login.QueryIgnoresPassword: states that the query does not depend on the password. It does not state that the password is never a substring of the query: a password can equal the username or a word of the SQL text.
- `isStrongPassword` measures length in UTF-16 code units. The model counts Dafny characters (Unicode scalar values), so the two can differ for characters outside the Basic Multilingual Plane.
- express-validator's error objects also carry `type`, `location` and the submitted `value`. They are modelled as path and message only.
- A request field holding a JSON value other than a string (a number, an array, an object) is not modelled: fields are absent or strings. This also leaves out the query-string array case `?name=a&name=b`.
- In the login handler, a missing request body (`req.body` undefined) makes the destructuring at `src/auth/login.js:10` throw, which gives a 500. This is not modelled.
- Filesystem reads are a map lookup. Reading a directory, permissions and symbolic links are not distinguished from "not in the map". `path.resolve` is lexical, so no claim is made about symlink escapes.
- Concurrency between requests, and how awaits interleave. Each handler runs as one sequential step.
- The timing side channel between "unknown user" and "wrong password" (no dummy comparison). Time is not modelled.
- Windows path semantics. Only POSIX `path.resolve` is modelled.

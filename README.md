# Task-manager backend: accounts, tokens, tasks and CORS, in Dafny

This project models the core of the backend of an offline-first task manager
(`qr-manager/backend`). The backend is a set of Express route handlers over a
PostgreSQL store, with bcrypt password hashes and JSON Web Tokens. The model
covers three parts:

- **The account and token routes** (`routes/auth.ts`, module `Auth`). Sign-up
  checks that the email is free, then inserts a row. Login looks the email up,
  checks the password against the stored hash and issues a token over the user's
  id. `tokenIsValid` answers `true` only when the header is present, the token
  verifies and its subject still exists. `GET /auth` echoes the current user and
  the request's token. The `users` table is the class `UserTable`. Sign-up is its
  method. The read-only handlers are functions of a snapshot of its rows, so by
  construction they change nothing.
- **The task routes** (`routes/task.ts`, module `Tasks`). Create stamps the
  caller as owner. List filters by owner. Delete removes by id alone. Sync
  rewrites every record of a batch in a loop and appends the whole batch in one
  insert. The `tasks` table is the class `TaskTable`, with one method per route
  that changes it. The sync loop is the method `NormaliseBatch`.
- **The CORS `origin` predicate** (`index.ts`, module `Cors`). It follows the
  source's own steps. `Translate` is the `replace` of `*` by `.*`. `ParseRegex`
  is what `new RegExp` makes of the result. `MatchAtoms` is the anchored `test`.
  `Denotes` is an independent, declarative reading of a pattern, and the lemmas
  tie the two together.

Stand-ins. `Crypto` replaces bcrypt and JWT with plain values built from their
inputs. The handlers rely on two round trips, and both are proved as lemmas:
`compare(p, hash(p))` and `verify(sign(c)) = c`. Like bcrypt, the hash reads a
key of 72 units: the password followed by a NUL, repeated. A password with the
same key as the stored one is accepted and any other is refused. So a password
that differs only after its 72nd character, or one that repeats the stored
password around a NUL, is accepted. Among short passwords without a NUL, only
the original is. A foreign secret is shown to fail. `Schema` holds the row types. `new Date(x)` is the
opaque `ParseDate`. The store's generated ids and the clock are parameters of
the operations.

The model follows the code where it departs from what its route documentation
and naming suggest:

- Login tells "unknown email" apart from "wrong password" (two messages, both 400).
- Sign-up does not check that the email is non-empty.
- The sign-up reply is the whole inserted row, including the password hash.
- A token that fails verification makes `jwt.verify` throw. `tokenIsValid` then
  replies 500 with `false`, not 200. Its `if (!verified)` branch cannot be reached.
- Delete has no owner check.
- Sync does no validation of its own. Each timestamp is whatever `new Date` makes
  of it; what an unparseable timestamp does at insert time is not modelled.
- Sync with an empty batch replies 500: the query builder's `values([])` throws.

## Model

| member | source | states |
|---|---|---|
| `Crypto.CompareHash` | qr-manager/backend/src/routes/auth.ts:76 | a password compares equal to its own bcrypt hash, for every salt and cost |
| `Crypto.KeyPart` | qr-manager/backend/src/routes/auth.ts:144 | the key bcrypt reads has 72 units; it starts with the password (its first 72 characters) and a shorter password is followed by a NUL |
| `Crypto.CompareSameKey` | qr-manager/backend/src/routes/auth.ts:144-148 | a stored hash accepts a password iff it gives the same 72-unit key as the hashed one |
| `Crypto.CompareOnlyOriginal` | qr-manager/backend/src/routes/auth.ts:144-148 | among passwords of at most 72 characters without a NUL, a stored hash accepts the one it was made from and no other |
| `Crypto.NulPasswordCollides` | qr-manager/backend/src/routes/auth.ts:144-148 | a password with a NUL can repeat another's key: `"a\0a"` opens the hash of `"a"` |
| `Crypto.LongPasswordsCollide` | qr-manager/backend/src/routes/auth.ts:144-148 | two different passwords that agree on their first 72 characters open the same hash |
| `Crypto.Verify` | qr-manager/backend/src/routes/auth.ts:190 | `jwt.verify` gives back the token's own claims or throws; no expiry is checked |
| `Crypto.VerifySign` | qr-manager/backend/src/routes/auth.ts:150 | a token signed over some claims verifies back to exactly those claims |
| `Crypto.VerifyOnlySigned` | qr-manager/backend/src/routes/auth.ts:190 | a token verifies to given claims iff it is the token signed over them with the secret |
| `Auth.First` | qr-manager/backend/src/routes/auth.ts:134-137 | the `const [row] = select ... where` lookup: nothing iff no row matches, otherwise a matching row of the table |
| `Auth.UserTable.Signup` | qr-manager/backend/src/routes/auth.ts:59-85 | a taken email gives 400 and leaves the table unchanged. Otherwise exactly one row is appended with the given name and email, password `hash(raw, 8)` and the store's id and time, with status 201. A key clash on the generated id gives 500 and no change. Distinct emails and ids are preserved |
| `Auth.Login` | qr-manager/backend/src/routes/auth.ts:129-152 | status is 200 or 400. On 200 the body is a token that verifies to `{id, iat}` of a row with that email whose hash accepts the password, plus that row. On 400 the message is "does not exist" exactly when no row has the email |
| `Auth.TokenIsValid` | qr-manager/backend/src/routes/auth.ts:180-213 | the body is `true` iff the header is present and non-empty, the token verifies and a row has the verified id. Status 500 happens exactly when verification throws, and its body is then `false` |
| `Auth.CurrentUser` | qr-manager/backend/src/routes/auth.ts:239-247 | 401 "User not found!" iff no user id is attached. Otherwise 200 with the request's token and the row with that id, which is absent only if no row has the id |
| `Auth.LoginSucceedsIff` | qr-manager/backend/src/routes/auth.ts:134-152 | with distinct emails, login is 200 iff some row has the email and its hash accepts the password |
| `Auth.LoginWrongPassword` | qr-manager/backend/src/routes/auth.ts:144-147 | a known email with a password its hash refuses gives 400 "Incorrect password!" |
| `Auth.LoginThenTokenIsValid` | qr-manager/backend/src/routes/auth.ts:150-210 | the token from a successful login makes `tokenIsValid` answer 200 `true` on the same table |
| `Auth.UnknownSubjectRefused` | qr-manager/backend/src/routes/auth.ts:200-208 | a correctly signed token whose subject has no row gives 200 `false` |
| `Auth.ForeignTokenRefused` | qr-manager/backend/src/routes/auth.ts:190-213 | a token signed with another secret gives 500 `false` |
| `Auth.SignupThenLogin` | qr-manager/backend/src/routes/auth.ts:76-247 | after a successful sign-up, login with the same email and password returns that row and a token over its id, and `GET /auth` with that id returns the row and echoes the token |
| `Auth.SignupTwice` | qr-manager/backend/src/routes/auth.ts:63-85 | two sign-ups with one email: 201, then 400, and exactly one row holds the email |
| `Tasks.OwnedBy` | qr-manager/backend/src/routes/task.ts:76-79 | the rows with `uid == owner`, each as often as in the table, and no other rows |
| `Tasks.WithoutId` | qr-manager/backend/src/routes/task.ts:118 | every row with the id is gone; every other row stays as often as it was |
| `Tasks.NormaliseBatch` | qr-manager/backend/src/routes/task.ts:163-174 | `filteredTasks` has one entry per record in input order. Each entry has `uid` = caller, the three timestamps parsed from the record's and every other field kept |
| `Tasks.TaskTable.Create` | qr-manager/backend/src/routes/task.ts:39-44 | exactly one row is appended and nothing else changes. Its `uid` is the caller whatever the body said, `dueAt` is parsed and the other fields come from the body. Reply 201 with that row |
| `Tasks.TaskTable.List` | qr-manager/backend/src/routes/task.ts:76-81 | 200 with exactly the caller's rows, each as often as in the table, and no others |
| `Tasks.TaskTable.Delete` | qr-manager/backend/src/routes/task.ts:117-120 | the table becomes the rows without the id, whoever owned them. The reply is `true` even when nothing matched |
| `Tasks.TaskTable.Sync` | qr-manager/backend/src/routes/task.ts:161-185 | the table is the old table followed by one row per record, in order. Each row is owned by the caller with parsed timestamps and the record's fields. Nothing is deduplicated. Reply 201 with the appended rows. An empty batch makes the insert throw: 500 and the table unchanged |
| `Tasks.ListedRowsAreOwned` | qr-manager/backend/src/routes/task.ts:76-81 | every listed row belongs to the caller and is a row of the table |
| `Tasks.DeleteEffect` | qr-manager/backend/src/routes/task.ts:118 | a row survives the delete iff it was in the table and has another id |
| `Tasks.DeleteIgnoresOwner` | qr-manager/backend/src/routes/task.ts:115-120 | through the route, a caller who sends the id of another user's task deletes it: the owner listed it before and no longer does |
| `Tasks.TaskTable.DeleteOwned` | qr-manager/backend/src/routes/task.ts:118 | the delete with the owner check added: the table becomes the rows without the caller's rows with that id, and the reply is `true` |
| `Tasks.WithoutOwnedId` | qr-manager/backend/src/routes/task.ts:118 | a delete that also checks the owner removes only the caller's rows with the id |
| `Tasks.DeleteOwnedSparesOthers` | qr-manager/backend/src/routes/task.ts:118 | with the owner check, every other user's rows are exactly as before |
| `Tasks.Inserted` | qr-manager/backend/src/routes/task.ts:176-179 | `insert(...).values(batch).returning()`: one row per record, in order, with the record's owner, fields and due date; its own id and timestamps when it carries them, the store's defaults otherwise |
| `Tasks.SyncTwice` | qr-manager/backend/src/routes/task.ts:176-185 | syncing one non-empty batch twice adds its rows twice, each insert with its own default ids: the table grows by both replies, which agree row by row except for store-generated ids. An empty batch fails both times and changes nothing |
| `Cors.Translate` | qr-manager/backend/src/index.ts:23 | the translated pattern never starts with `*`, and an entry without `*` is left as it is |
| `Cors.ParseRegex` | qr-manager/backend/src/index.ts:24 | `new RegExp` throws on a leading `*` ("nothing to repeat"). A pattern without `*` parses to one single atom per character. A parsed pattern has at most one atom per character |
| `Cors.MatchAtoms` | qr-manager/backend/src/index.ts:25 | the anchored `test`: a match needs at least one character per single atom, and exactly one per atom when no atom is starred |
| `Cors.ParseTranslate` | qr-manager/backend/src/index.ts:23-24 | `new RegExp` never throws on a translated entry. It reads `*` as any run, `.` as any one character and every other character literally |
| `Cors.MatchAtomsSound` | qr-manager/backend/src/index.ts:24-25 | what the anchored matcher accepts, the pattern stands for |
| `Cors.MatchAtomsComplete` | qr-manager/backend/src/index.ts:24-25 | what the pattern stands for, the anchored matcher accepts |
| `Cors.EntryAllows` | qr-manager/backend/src/index.ts:22-28 | an entry without `*` allows exactly an equal origin. An entry with `*` allows exactly the origins its compiled pattern stands for. Neither throws |
| `Cors.AnyAllows` | qr-manager/backend/src/index.ts:20-29 | the `.some` over the list is true iff some entry allows the origin, and it never throws |
| `Cors.OriginAllowed` | qr-manager/backend/src/index.ts:13-32 | a missing or empty origin is allowed, and the callback never reports an error |
| `Cors.StarBetween` | qr-manager/backend/src/index.ts:23-25 | a `.*` between two patterns splits the origin into a part for each, with any single-line run between them |
| `Cors.WildcardEntry` | qr-manager/backend/src/index.ts:22-25 | an entry `a*b` allows an origin iff it splits into a part `a` stands for, any single-line run, and a part `b` stands for; the match is anchored at both ends |
| `Cors.LoneStarEntry` | qr-manager/backend/src/index.ts:22-25 | the entry `*` allows every origin without a line terminator, and nothing else |
| `Cors.DotEntry` | qr-manager/backend/src/index.ts:23-24 | a `.` in a wildcard entry stands for any one character other than a line terminator |
| `Cors.PlainLiteral` | qr-manager/backend/src/index.ts:22-25 | in a wildcard entry, a run of characters other than `*` and `.` stands only for itself |
| `Cors.SameEntriesSameVerdict` | qr-manager/backend/src/index.ts:20-29 | two lists with the same entries give the same verdict, whatever their order and duplicates |
| `Cors.EmptyListRefuses` | qr-manager/backend/src/index.ts:20-32 | an empty list refuses every present, non-empty origin |
| `Cors.DefaultListAllowsAll` | qr-manager/backend/src/config/env.config.ts:21-23 | with the default list `['*']`, every origin without a line terminator is allowed |
| `Cors.DotAfterStar` | qr-manager/backend/src/index.ts:23-25 | an entry `a*.b` allows `a`, any run, then any one character where the `.` is, then `b` |
| `Cors.EvilOriginAllowed` | qr-manager/backend/src/index.ts:21-25 | the entry `https://*.example.com` allows `https://evilexample.com` |
| `Cors.EscapedEntryAllows` | qr-manager/backend/src/index.ts:22-28 | the entry test with `.` escaped: exact equality without `*`; with `*`, the escaped pattern's reading |
| `Cors.EscapedWildcardEntry` | qr-manager/backend/src/index.ts:21-25 | escaped, an entry `a*b` allows exactly `a`, then any single-line run, then `b` |
| `Cors.EscapedRefusesEvilOrigin` | qr-manager/backend/src/index.ts:21-25 | escaped, `https://*.example.com` refuses `https://evilexample.com` |

## Left out

- Store failures are not modelled. Each handler's `catch` replies 500 with the
  raw exception. The model keeps only the throws that come from modelled code:
  `jwt.verify` in `tokenIsValid`, a primary-key clash in sign-up, and the
  query builder's refusal of an empty `values([])` in sync. The
  exception's content (`ExceptionJson`) and the `console.log` are not modelled.
- Crypto.Compare: bcrypt builds its key from the UTF-8 bytes of the password; the
  model builds it from characters. For a password with characters outside ASCII
  the two keys differ, and so may the set of other passwords that open its hash.
- bcrypt and JWT internals. `Crypto.Derive` and the `Hs256` signature are
  stand-ins that satisfy the round trips. The hash salt and the issue time are
  parameters. Nothing about the strength of the cryptography is claimed.
- JavaScript `Date` parsing. `new Date(x)` is the opaque `ParseDate`, so an
  Invalid Date is not told apart from a valid one.
- The authentication middleware (`middleware/auth.ts`) is not part of this model.
  The task routes take the caller's id as verified input. `GET /auth` takes
  `req.user` and `req.token` as given.
- The table definitions (`db/schema.ts`) are not part of this model. Column
  constraints on `tasks` (not-null, key, foreign key) are not modelled. If
  `tasks.id` is a primary key, resubmitting a batch whose records carry ids would
  make the insert throw instead of adding the rows twice.
- Row order of a `select` is not specified by the store. The lookups take the
  first matching row in table order. List is specified up to order, by counting
  rows.
- The concurrent sign-up race: check-then-insert is not atomic across requests.
  The model runs one request at a time.
- Auth.UserTable.Signup: the duplicate check and the insert run one after the other
  in a single step, so the store's own unique constraint on email is not modelled.
- Tasks.TaskTable.Create: a `createdAt` or `updatedAt` in the create body is dropped
  and the store's defaults are used. The source passes them to the insert as
  raw text, and what the driver then does is not modelled.
- Cors.EntryAllows: in a wildcard entry, regular-expression metacharacters other
  than `.` and `*` (`?`, `+`, `(`, `[`, `\`, `^`, `$`, `|`, `{`) are read as
  literals. The source would give them their regex meaning, and an entry whose
  regex syntax is broken (`https://(*` gives an unterminated group) makes
  `new RegExp` throw out of the origin callback. The "never throws" of
  `Cors.EntryAllows`, `Cors.AnyAllows` and `Cors.OriginAllowed` covers only entries
  made of literal characters, `.` and `*`.
- Environment reading. The JWT secret and the allowed-origin list take their
  defaults (`'passwordKey'`, `['*']`). Splitting `ALLOWED_ORIGINS` on commas is
  not modelled; any list can be passed to `Cors.OriginAllowed`.
- Express wiring, the JSON body parser, the Swagger documentation and UI, the
  landing page and `app.listen`. Request bodies are typed records; bodies with
  missing or mistyped fields are not modelled.

## Findings

| source | as written | input that shows it | evidently intended | confidence | as-written member | corrected member |
|---|---|---|---|---|---|---|
| qr-manager/backend/src/routes/task.ts:118 | deletes every row with the given id, whoever owns it | user B sends the id of a task owned by user A | delete only the caller's own task (the route is documented as deleting a task of the authenticated user, task.ts:94) | not executed | `Tasks.DeleteIgnoresOwner` | `Tasks.TaskTable.DeleteOwned`, proved in `Tasks.DeleteOwnedSparesOthers` |
| qr-manager/backend/src/index.ts:23-24 | builds the regex from the entry without escaping `.` | entry `https://*.example.com`, origin `https://evilexample.com` | allow only origins of that domain (comment at index.ts:21), i.e. `.` read literally | not executed | `Cors.EvilOriginAllowed` | `Cors.EscapedEntryAllows`, proved in `Cors.EscapedWildcardEntry` and `Cors.EscapedRefusesEvilOrigin` |

The route models keep the behaviour as written: `Tasks.TaskTable.Delete` and
`Cors.EntryAllows` are what the server does. The corrected definitions sit beside
them, each with its intended property proved.

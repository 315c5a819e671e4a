# Simple Twitter REST API — a Dafny model of its request handlers

The API keeps three tables in one JSON document: `users`
(`{username, email}`), `api_keys` (`{username, api_key}`) and `tweets`
(`{username, message}`). Four handlers work on them, one request at a
time:

- `POST /users` registers a user. It runs four checks in a fixed order:
  username format, username uniqueness, e-mail format, e-mail uniqueness.
  The first check that fails answers 400. When all pass, the user is
  appended.
- `POST /api-key?username=...` issues a key. It answers 400 when the
  username is missing and 401 when nobody has it. Otherwise it upserts
  the key: the user's existing row gets the new key in place, or a row is
  appended.
- `getUserByApiKey` resolves the `Authorization` header. It loosely
  follows the Bearer scheme of RFC 6750 section 2.1: the first
  occurrence of `"Bearer "` is deleted wherever it stands, and the rest
  is looked up as a key.
- `POST /tweets` appends a tweet when the header resolves. `GET /tweets`
  lists the tweets in insertion order.

How the model is laid out:

- `records.dfy` (`Records`) holds the rows, the responses, the status
  codes and the response texts.
- `lookup.dfy` (`Lookup`) holds lodash's first-match `find`, as `FindIndex`
  and `Find`.
- `validators.dfy` (`Validators`) holds the field checks and the row
  predicates the tables are searched with.
- `auth_gate.dfy` (`AuthGate`) holds `indexOf`, the Bearer stripping and
  credential resolution.
- `server.dfy` (`Server`) holds the class `Store`. Its `seq` fields are
  the three tables, and the handlers are methods that reassign them. The
  same file holds the upsert as a function, the table invariants and the
  lemmas about them.
- `scenario.dfy` (`Scenario`) holds three client methods. They run the
  end-to-end exchanges through the handlers' contracts alone: register,
  issue a key, post, rotate the key, list.

Request fields a client may leave out are `Option<string>`, where `None`
is JavaScript's `undefined`. JavaScript's falsy empty string is handled
where the code tests truthiness: the username checks and the header
check. The stored tweet keeps both body fields as `Option<string>`,
because the handler copies them unchecked.

A few behaviours of `server.js` worth knowing, all kept in the model:

- Registration answers 201 with a message, not with the created user
  (server.js:115-118).
- The first occurrence of `"Bearer "` is removed wherever it stands, not
  only as a prefix (server.js:192).
- An empty `Authorization` header is refused just like an absent one
  (server.js:188).
- Key issuance for an unknown user answers 401 (server.js:140-141).

Parameters stand in for the foreign parts:

- The e-mail validator (`email-validator`) is the parameter
  `isEmail: string -> bool` of `Register`. An absent address fails it.
- The `nanoid()` key is the parameter `key` of `IssueApiKey`. Its
  freshness is a precondition only of the facts that need it.

## Model

| member | source | states |
|---|---|---|
| `Lookup.FindIndex` | server.js:149-152 | lodash `find`: the position returned holds the first row the predicate accepts; `None` exactly when no row is accepted |
| `Lookup.Find` | server.js:81-84 | the row returned is in the table, is accepted, and no earlier row is; `None` exactly when every row is rejected |
| `Lookup.FindAppendRejected` | server.js:112 | appending a row the search predicate rejects does not change what `find` returns |
| `Validators.UsernameTakenIff` | server.js:81-85 | the "username already taken" test holds exactly when some stored user has that username |
| `Validators.EmailTakenIff` | server.js:100-105 | the "email already registered" test holds exactly when some stored user has that address |
| `Validators.UsernameStaysTaken` | server.js:81-112 | a username that is taken stays taken after another user is appended, so a later registration under it is refused |
| `AuthGate.IndexOfFrom` | server.js:192 | the first occurrence of a pattern at or after a position; `None` means it occurs nowhere from there on |
| `AuthGate.IndexOf` | server.js:192 | the first occurrence of the pattern in the string; `None` exactly when it occurs nowhere |
| `AuthGate.StripBearer` | server.js:192 | `replace("Bearer ", "")`: without an occurrence the header is returned unchanged; otherwise re-inserting `"Bearer "` at the first occurrence gives back the header |
| `AuthGate.KeyHolder` | server.js:194 | the row returned is the first row holding exactly the key; `None` exactly when no row holds it |
| `AuthGate.Resolve` | server.js:185-195 | an absent or empty header resolves to nothing; a resolved row is the first row of `api_keys` holding the stripped header; an unresolved non-empty header matches no row |
| `AuthGate.StripStandardHeader` | server.js:192 | `"Bearer " + token` strips to exactly `token` |
| `AuthGate.StripRemovesOnlyFirst` | server.js:192 | only the first occurrence is removed: `"Bearer Bearer " + token` strips to `"Bearer " + token` |
| `AuthGate.StripWithoutScheme` | server.js:192 | a header without `"Bearer "` is used unchanged as the key |
| `AuthGate.ResolveStandardHeader` | server.js:188-194 | a request carrying `"Bearer " + token` resolves to the first row holding `token` |
| `Server.Upsert` | server.js:148-160 | after the upsert the user's first row holds the new key; the table grows by one exactly when the user had no row; usernames keep their positions; every row but the user's first is unchanged |
| `Server.Store.constructor` | server.js:30-31 | the store holds the three tables as loaded |
| `Server.Store.ListTweets` | server.js:59-63 | answers 200 with the tweets as stored, in insertion order |
| `Server.Store.Register` | server.js:66-119 | the four checks in order, each answering 400 with its own text when it is the first to fail; 201 exactly when all pass; on 201 exactly `{username, email}` is appended; on failure `users` is unchanged; `api_keys` and `tweets` never change; unique usernames and e-mails, one key per user and owned keys are kept |
| `Server.Store.IssueApiKey` | server.js:122-163 | 400 for a missing or empty username and 401 for an unknown one, with `api_keys` unchanged; otherwise answers 200 with the new key and `api_keys` becomes the upsert; `users` and `tweets` never change; keeps the invariants, and keeps keys unique when the new key is fresh |
| `Server.Store.CreateTweet` | server.js:166-183 | an unresolved header answers 401 with `tweets` unchanged; a resolved one appends exactly the body's `{username, message}`, whoever owns the key; `users` and `api_keys` never change |
| `Server.RegisterKeepsConsistent` | server.js:81-112 | appending a user whose username and e-mail were not found keeps both columns unique and every key row owned by a user |
| `Server.UpsertKeepsOneKeyPerUser` | server.js:149-160 | the upsert never creates a second `api_keys` row for a username |
| `Server.UpsertKeepsKeysOwned` | server.js:135-160 | the upsert, done only for a registered username, keeps every key row owned by a user |
| `Server.UpsertFreshKeepsKeysDistinct` | server.js:149-160 | an upsert with a key no row holds keeps the key column unique |
| `Server.RotationRevokesOldKey` | server.js:153-156 | after re-issuing a fresh key to a user with a row, no row holds the old key any more (so no header that strips to it resolves), a request with `"Bearer "` and the old key resolves to nothing, and one with the new key resolves to the user's row |
| `Scenario.RegistrationScenario` | server.js:66-119 | "ab" is refused as too short, alice registers with 201, and registering alice again with another address is refused as taken |
| `Scenario.PostScenario` | server.js:122-183 | with alice registered, her key is issued and returned, she posts "hi" with it, and the listing is the seed followed by her tweet |
| `Scenario.RotationScenario` | server.js:122-194 | after a second key is issued to alice, a post with her first key answers 401 and one with the second key answers 200 |

## Left out

- Express wiring, routing, JSON parsing and response serialisation are
  not modelled. Neither are `app.listen`, `GET /status` and `console.log`.
  They are framework I/O. Handlers take the parsed fields and return a
  status with a body.
- Persistence is not modelled: `LowSync`, `JSONFileSync`, `db.read()` and
  `db.write()` are file I/O. `write` is taken as a no-op. The constructor
  receives the tables as loaded. The model assumes the three collections
  exist. With the default `{}` document they are undefined, and the
  handlers would crash on `push`.
- `nanoid()` is random. The generated key is a parameter.
- `EmailValidator.validate` is a foreign library. It is a
  predicate parameter.
- Request fields of a non-string type, such as a query parameter given
  twice, are not modelled. Every present field is a string.
- Username length counts characters of `seq<char>`, not UTF-16 code
  units.
- The example `tweets` constant and the commented-out seed block are
  dead code.
- Key uniqueness is not checked by the handlers. `DistinctKeys` is kept
  only when the new key is fresh, which `nanoid` makes overwhelmingly
  likely but does not guarantee.
- RotationRevokesOldKey: requires that no two rows hold the same key
  beforehand. Without it the old key may also sit in another user's row
  and would still resolve there.

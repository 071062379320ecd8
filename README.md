# Accounts, sessions and wisdom import — a Dafny model

This project models the core of a small Express back end (`server/index.js`)
and its wisdom importer (`server/import_wisdom.js`).

**The server** keeps a table of user records `{id, username, password, bio}`.
It serves five handlers:

- `POST /register` refuses a username already in the table. Otherwise it
  appends a record with id `users.length + 1`, the bcrypt hash of the password
  and `bio || ''`.
- `POST /login` finds the record by username and compares the password with
  the stored hash. On a match it returns a JSON Web Token carrying
  `{username, id}`.
- `GET /profile` returns the username and bio of the record whose id the token
  names.
- `PUT /profile` replaces that record's bio.
- `GET /wisdom` returns a randomly drawn stored entry.

The last three handlers run behind `authenticateToken`. It takes the second
space-separated field of the `Authorization` header as the token. No token
gives 401, a token that fails verification gives 403, and otherwise the
decoded claims go on to the handler.

**The importer** reads each wisdom entry and splits its text at the last
`" - "`. The trimmed text before that point is the quote and the trimmed text
after it is the author. A text with no `" - "` is kept whole and untrimmed,
with a `null` author. Each pair is inserted in order. A failed insert is
logged, and the loop goes on.

Modules:

- `Wrappers` (`wrappers.dfy`): `Option`. A JavaScript `undefined` or `null`
  is `None`.
- `Crypto` (`crypto.dfy`): bcrypt and jsonwebtoken, kept abstract. A `Scheme`
  is a record of four functions: `hash`, `compare`, `sign` and `verify`. The
  secret key is folded into `sign` and `verify`. `Sound` lists what the server
  relies on:
  - `compare(p, hash(p))` holds;
  - `verify(sign(c)) == Some(c)`;
  - a hash never equals its plaintext;
  - a signed token contains no space.
- `CryptoWitness` (`crypto.dfy`): a concrete scheme. `ToySchemeIsSound`
  proves that the assumptions above can all hold at once.
- `Bearer` (`bearer.dfy`): JavaScript `split(' ')`, the token taken from the
  header, and `authenticateToken`'s three outcomes.
- `Users` (`users.dfy`): the record type, the table invariant `WellFormed`
  (record i has id i + 1, and usernames are pairwise distinct), `find` by
  username and `findIndex` by id.
- `Server` (`server.dfy`): the handlers.
  - The table is the `users` field of class `UserStore`. `Register` and
    `UpdateProfile` change it in place, keep `Valid()` and state the whole
    new table.
  - The handlers that only read (`Login`, `GetProfile`, `GetWisdom`) are
    functions of what they read.
  - Lemmas connect the operations: login after register, the login token
    opening `GET /profile`, and read after write of the bio.
- `WisdomImport` (`wisdom.dfy`): ECMAScript `trim` (its exact white-space
  set), `lastIndexOf`, the per-entry split and the import loop.

Where the system's documented design and the code differ, the model follows the code:

- Tokens carry no expiry. `jwt.sign` is called without one.
- No input is validated.
- The register handler sends no 500 of its own. Exceptions it does not
  catch (a missing password, a damaged `users.json`) are left to Express,
  which is not modelled.
- `GET /wisdom` on an empty store answers 200 with no entry, not 404.
- An `Authorization` header that is present but empty is not treated as a
  missing token. In `authHeader && authHeader.split(' ')[1]` the empty string
  short-circuits to itself, so `""` goes to verification and gets 403 from a
  real verifier instead of 401. `BearerToken` states this case.

## Model

| member | source | states |
|---|---|---|
| `Bearer.Split` | server/index.js:45 | `split(' ')` gives at least one field; no field holds the separator; joining the fields back gives the header; there is exactly one field iff the header has no space |
| `Bearer.SplitAfterField` | server/index.js:45 | a space-free field followed by a space is the first field, and the rest is split on its own |
| `Bearer.FirstField` | server/index.js:45 | a space-free text followed by nothing or by a space is the first field |
| `Bearer.BearerToken` | server/index.js:44-45 | no token iff the header is missing, or non-empty without a space; an empty header yields the empty token; a token never holds a space |
| `Bearer.BearerTokenOf` | server/index.js:45 | the token is exactly the text between the first space and the next space or the end: `Bearer <t>` yields `t`, and a double space yields the empty string |
| `Bearer.Authenticate` | server/index.js:43-53 | 401 (unauthenticated) iff there is no token: the header is missing, or non-empty without a space; 403 (forbidden) only when verification fails; granted claims are exactly what verification decoded |
| `Bearer.SignedTokenGranted` | server/index.js:44-52 | a token the server signed, sent as `Bearer <token>`, is granted with the claims it was signed with |
| `CryptoWitness.ToySchemeIsSound` | server/index.js:82-83 | the facts assumed of bcrypt and jsonwebtoken are consistent: a concrete hash and token scheme satisfies all four |
| `Users.FindByUsername` | server/index.js:61 | `find` by username returns the first record with that name, and nothing iff no record has it |
| `Users.FindIndexById` | server/index.js:103 | `findIndex` by id returns the first position with that id, and -1 iff no record has it |
| `Users.NewUser` | server/index.js:66 | the appended record gets id old length + 1 and the given username and hash; it always has a bio: the given one, or `''` when none is given |
| `Users.FindByUsernameUnique` | server/index.js:61-67 | in a well-formed table, a record's username finds exactly that record |
| `Users.FindIndexByIdExact` | server/index.js:66-67 | in a well-formed table, id n is found at position n - 1, and an id outside 1..length is not found |
| `Users.AppendKeepsWellFormed` | server/index.js:61-67 | appending the new record for an unused username, with id length + 1, keeps ids sequential and usernames distinct |
| `Users.SetBioKeepsWellFormed` | server/index.js:105-106 | changing one record's bio keeps the table well formed |
| `Users.FindIndexByIdIgnoresBio` | server/index.js:103-106 | changing one record's bio changes no lookup by id |
| `Server.Reject` | server/index.js:47-50 | the middleware answers 401 for a missing token and 403 for a failed verification |
| `Server.Login` | server/index.js:73-88 | 400 "Cannot find user" iff no record has the username; a token is issued iff the password matches the stored hash; the token signs exactly the stored username and id; otherwise 401 with no token |
| `Server.GetProfile` | server/index.js:90-98 | 401 or 403 from the middleware, with its reason phrase; 404 iff the token's id names no record; 200 returns that record's username and bio |
| `Server.GetWisdom` | server/index.js:114-118 | 200 iff authenticated, and otherwise the middleware's 401 or 403; the body holds an entry iff the store is non-empty, and the entry is one of the stored entries |
| `Server.EveryWisdomReachable` | server/index.js:116 | every stored entry is returned for some random draw |
| `Server.UserStore.constructor` | server/index.js:18-20 | the server starts from an empty, well-formed user table |
| `Server.UserStore.Register` | server/index.js:57-71 | a taken username gives 400 and leaves the table unchanged; otherwise 201 and exactly one record is appended (id = old length + 1, the username, `hash(password)`, which differs from the password, and the bio, or `''` when none is given); the table stays well formed |
| `Server.UserStore.UpdateProfile` | server/index.js:100-112 | 401 or 403 write nothing; an id that names no record gives 404 and writes nothing; otherwise 200, and only that record's bio changes |
| `Server.LoginAfterRegister` | server/index.js:65-84 | after a successful registration, logging in with the same password yields a token for that username and id old length + 1 |
| `Server.RegisterTwiceRefused` | server/index.js:61-67 | after a username is registered, `find` locates it in the new last record, so registering it again is refused |
| `Server.LoginGrantsProfile` | server/index.js:82-94 | the token from a successful login, sent as `Bearer <token>`, makes `GET /profile` return the bio of the user who logged in |
| `Server.ProfileAfterUpdate` | server/index.js:92-106 | after `PUT /profile` stores a bio, `GET /profile` with the same header returns it |
| `WisdomImport.TrimStart` | server/import_wisdom.js:30-31 | the result is a suffix of the input; only white space was removed; it does not start with white space |
| `WisdomImport.TrimEnd` | server/import_wisdom.js:30-31 | the result is a prefix of the input; only white space was removed; it does not end with white space |
| `WisdomImport.Trim` | server/import_wisdom.js:30-31 | `trim()` is no longer than its input and neither starts nor ends with white space |
| `WisdomImport.TrimIdempotent` | server/import_wisdom.js:30-31 | trimming twice is trimming once |
| `WisdomImport.LastIndexAtOrBefore` | server/import_wisdom.js:25 | the result is -1 or an occurrence at or before the bound, and no occurrence lies between it and the bound |
| `WisdomImport.LastIndexOf` | server/import_wisdom.js:25 | `lastIndexOf` returns -1 or an occurrence, and no occurrence starts after it |
| `WisdomImport.SplitAttribution` | server/import_wisdom.js:24-32 | no author iff the text has no `" - "`, and then the quote is the untrimmed text; when split, quote and author are trimmed and their lengths add up to at most the text's length minus 3 |
| `WisdomImport.SplitAttributionAt` | server/import_wisdom.js:24-31 | for every decomposition text = p + `" - "` + q with no `" - "` starting after p, the quote is `trim(p)` and the author `trim(q)` |
| `WisdomImport.SplitReconstructs` | server/import_wisdom.js:25-31 | prefix, `" - "` and suffix at the last occurrence rebuild the text, the suffix holds no `" - "`, and quote and author are their trims |
| `WisdomImport.SplitAtSecondOfTwo` | server/import_wisdom.js:24-31 | `"a - b - c"` splits into `"a - b"` and `"c"` |
| `WisdomImport.SplitAtLaterOfOverlapping` | server/import_wisdom.js:24-31 | overlapping delimiters split at the later one: `"x - - y"` gives `"x -"` and `"y"` |
| `WisdomImport.NoSplitKeepsSpaces` | server/import_wisdom.js:26-29 | example: the text `" plain "`, which has no `" - "`, is kept untrimmed, spaces included, with a null author |
| `WisdomImport.Inserted` | server/import_wisdom.js:34-42 | the rows left in the table are rows the loop attempted, and there are exactly as many as the attempted rows minus the failed inserts |
| `WisdomImport.InsertedAll` | server/import_wisdom.js:34-42 | with no failed insert, every split entry reaches the table, in order |
| `WisdomImport.InsertedPrefix` | server/import_wisdom.js:23-43 | the rows inserted for the first m entries begin the rows inserted for all of them |
| `WisdomImport.InsertedKeepsEntry` | server/import_wisdom.js:34-42 | an entry whose insert succeeds is in the table, right after the rows of the entries before it, whatever failed before or after it |
| `WisdomImport.ImportWisdom` | server/import_wisdom.js:23-43 | the loop offers one pair per entry, in input order, each the split of that entry's text; the rows inserted are exactly those whose insert did not fail |

## Left out

- File and database I/O are not modelled. This covers `readData`, `writeData`,
  the `fs.existsSync` seeding, JSON parsing and printing, and the `pg` pool.
  The user table is the in-memory field `UserStore.users`, starting empty as a
  fresh `users.json` does. The wisdom list is a parameter. The outcome of each
  database insert is a parameter: the set of positions whose insert throws.
- The five seed entries written to `wisdom.json` are not modelled. They are
  data, not logic.
- bcrypt and jsonwebtoken internals are foreign libraries and are kept
  abstract in `Crypto.Scheme`. This leaves out four things:
  - bcrypt's random salt: `hash` is a function here;
  - the cost factor 10;
  - the `iat` claim jsonwebtoken adds;
  - any claim other than `username` and `id` in a decoded token.
- Express routing, `express.json()`, static serving and the catch-all route
  for the single-page app are framework plumbing and are not modelled.
- Request bodies are typed. `username` and `password` are strings, and `bio`
  is a string or absent. A JSON `null`, number or object in a field, or a
  missing username or password, is not modelled: bcrypt would throw on a
  missing password, and the unhandled rejection is not modelled either.
- Decoded token claims are typed: `Crypto.Claims.id` is an integer. The
  signing secret is a literal in the source, so anyone can sign a payload
  whose `id` is missing or a string. `jwt.verify` accepts such a payload.
  The strict `===` lookups then match no record, so the source answers 404.
  The model cannot represent that payload.
- Wisdom entries are typed: `WisdomImport.WisdomEntry.text` is a string. In
  the source, an entry without a string `text` throws at `lastIndexOf`. That
  call is outside the `try`, so the whole import aborts and `pool.end()` is
  never reached. The model does not cover this case.
- `Server.GetWisdom`: `Math.random()` is floating point. The drawn index
  `Math.floor(Math.random() * length)` is a parameter `draw` in
  `[0, length)`, or 0 for an empty list. Uniformity is not stated.
- `WisdomImport.ImportWisdom`: the console logging and `pool.end()` are not
  modelled. The entry's `id` is read but not used by the source.
- Concurrency is not modelled. Two registrations of one username can
  interleave their read-modify-write of `users.json`. The model is
  sequential, so this race is not represented.
- Input validation, uniform error messages and a 500 answer sent by the handlers themselves on storage failure
  are not modelled, because the code implements none of them.

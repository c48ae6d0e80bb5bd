# Aura journaling server: entry confidentiality, accounts and the token gate

A Dafny model of the server core of the Aura mood-journaling application:

- **Ciphertext record format** (`CipherRecord`, with `Hex` and `JsText`). Journal text is encrypted with AES-256-CBC under one process-wide 32-byte key and a fresh 16-byte IV. It is stored as `hex(iv) ":" hex(ciphertext)`. Decryption cuts the record at its first `:` the way JavaScript's `split`/`shift`/`join` do. It decodes hex the way Node's `Buffer.from(s, 'hex')` does: both cases are accepted, and decoding stops silently at the first bad digit pair. It never fails; any problem yields the placeholder `"[Encrypted Content]"`.
- **Entry handlers** (`EntryController`). `createEntry`, `getEntries` and `deleteEntry` run over an entry table. The table is the class `EntryStore`, holding a map from entry id to row. Each handler is a specification function. `CreateStep` and `DeleteStep` return the reply and the new table; the store's methods are proved against them. `GetEntries` only reads the table, so it returns just the reply. It accepts any table whose rows are stored under their ids, including rows whose content is not a record.
- **Account handlers** (`AuthController`). `register` (the class `UserStore` over a map from user id to user), `login` and `logout`, with their zod schemas.
- **Token gate** (`AuthMiddleware`). `authenticateToken` is a three-way decision (`Decide`). Its effect on one request is the method `AuthenticateToken` over an `Exchange` object: `req.user`, the response status and error, and the number of `next()` calls.
- **Session** chains all three: register, log in, pass the gate, save an entry, read it back.

The foreign libraries are function-valued parameters. Each is bundled in a datatype, with a ghost predicate for the one property the proofs need. These predicates appear only as hypotheses: in a lemma's requires, or as the antecedent of an ensures:

- AES-256-CBC is `Cipher(seal, open)`, with `Inverse`: opening what was sealed gives the text back.
- bcryptjs is `Hasher(hash, compare)`, with `HashSound`: a password matches its own hash.
- jsonwebtoken is `TokenScheme(sign, verify)`, with `TokensSound`: a token is non-empty and verifies to its claims until it expires.
- zod's email check is a parameter `isEmail`.

Several inputs are parameters because they come from outside the code:

- randomness: the IV from `crypto.randomBytes(16)` and the bcrypt salt;
- the clock: `createdAt`, and the issue and verify times of tokens;
- the ids the database assigns;
- configuration: the encryption key and `NODE_ENV === 'production'`.

## Model

| member | source | states |
|---|---|---|
| `Hex.Encode` | server/src/controllers/entry.controller.ts:16 | `toString('hex')` writes two lower-case hex digits per byte; its output never contains `:` |
| `Hex.Decode` | server/src/controllers/entry.controller.ts:22-23 | `Buffer.from(s, 'hex')` never fails and yields at most half as many bytes as characters |
| `Hex.DecodeEncode` | server/src/controllers/entry.controller.ts:16-23 | decoding the hex a record was written with gives back the exact bytes |
| `JsText.Join` | server/src/controllers/entry.controller.ts:23 | `join(':')` starts with the first field and puts the separator right after it. A separator in the result comes from a second field or from inside the single field |
| `JsText.SplitJoin` | server/src/controllers/entry.controller.ts:21-23 | splitting the join of at least one colon-free field gives the fields back |
| `JsText.Split` | server/src/controllers/entry.controller.ts:21 | `split(':')` yields at least one field; it yields one field exactly when there is no `:`; no field contains `:` |
| `JsText.JoinSplit` | server/src/controllers/entry.controller.ts:21-23 | joining the fields of a split with the same separator rebuilds the original string |
| `CipherRecord.Encrypt` | server/src/controllers/entry.controller.ts:11-17 | `encrypt` fails exactly when the key is not 32 bytes; otherwise its output has the record shape: 32 hex digits, `:`, an even-length hex tail |
| `CipherRecord.DefaultKeyEncrypts` | server/src/controllers/entry.controller.ts:8-13 | the fallback key is the 32 ASCII bytes of `12345678901234567890123456789012`, so `encrypt` under it never throws |
| `CipherRecord.Halves` | server/src/controllers/entry.controller.ts:21-23 | `shift()` and `join(':')` of the split give the colon-free text before the first `:` and everything after it; with no `:`, the whole text and "" |
| `CipherRecord.Decrypt` | server/src/controllers/entry.controller.ts:19-31 | `decrypt` never fails. A bad key or an IV field that does not decode to 16 bytes gives the placeholder. With a 32-byte key, a 16-byte IV and a decipher that succeeds, the output is exactly the deciphered text; any other output is the placeholder |
| `CipherRecord.RecordFraming` | server/src/controllers/entry.controller.ts:11-23 | a record `encrypt` produced is cut by `decrypt` exactly at its join; the IV field is exactly 32 hex characters |
| `CipherRecord.DecryptEncrypt` | server/src/controllers/entry.controller.ts:11-27 | round trip: given a cipher pair that inverts, `decrypt(encrypt(t)) == t` for every text |
| `CipherRecord.FreshIvFreshRecord` | server/src/controllers/entry.controller.ts:12-16 | two encryptions of one text under different IVs give different records |
| `Common.CallerId` | server/src/controllers/entry.controller.ts:43-45 | `req.user?.userId` then `!userId`: no user and a user whose id is the empty string both mean no caller; otherwise the caller is the user's id, never empty |
| `EntryController.SchemaAccepts` | server/src/controllers/entry.controller.ts:35-38 | `EntrySchema` accepts exactly a present non-empty content and a present mood; empty content is refused, an empty mood is accepted |
| `EntryController.CreateStep` | server/src/controllers/entry.controller.ts:35-62 | `createEntry` rejects a failing schema (content under 1 character, mood missing) with 400 first, then a missing caller with 401. With the schema passed and a caller present, a key that is not 32 bytes or a taken id gives 400 "Failed to save entry". The table changes only on 201: it gains exactly one row with the caller's id, the mood, `createdAt` and the encrypted content, and the reply carries that still-encrypted row |
| `EntryController.EntryStore.CreateEntry` | server/src/controllers/entry.controller.ts:40-63 | the in-place insert keeps the table valid (rows under their ids, every content a ciphertext record); the reply and new table are exactly `CreateStep`'s |
| `EntryController.CreateKeepsValid` | server/src/controllers/entry.controller.ts:48-56 | whatever `createEntry` does, the table stays valid: every stored content is a ciphertext record |
| `EntryController.NewestFirst` | server/src/controllers/entry.controller.ts:70-73 | `orderBy: { createdAt: 'desc' }`: every element of the set appears exactly once, in non-increasing `createdAt` order |
| `EntryController.Revealed` | server/src/controllers/entry.controller.ts:75-78 | `{ ...entry, content: decrypt(entry.content) }` keeps every other field. The content is the placeholder on a bad key or an IV field that is not 16 bytes. Under a cipher that inverts, a row `encrypt` wrote reveals its text |
| `EntryController.FindOwned` | server/src/controllers/entry.controller.ts:70-73 | `findMany({ where: { userId } })` yields exactly the caller's rows, each once, newest first, whatever the rows hold |
| `EntryController.GetEntries` | server/src/controllers/entry.controller.ts:65-84 | `getEntries` gives 401 exactly when there is no caller. Otherwise it gives 200 with exactly the caller's entries, newest first, distinct ids, content decrypted and every other field as stored. It only reads the table, and any content string, record or not, can be listed |
| `EntryController.CorruptedRowListed` | server/src/controllers/entry.controller.ts:28-30 | a row of the caller's whose IV field does not decode to 16 bytes is still listed, every field as stored and the placeholder as content |
| `EntryController.OneRowListing` | server/src/controllers/entry.controller.ts:65-80 | a table of one row lists exactly that row, revealed, to its owner |
| `EntryController.ForeignContentListed` | server/src/controllers/entry.controller.ts:19-31 | a row holding `zz`, which is no record, is listed with the placeholder `[Encrypted Content]` |
| `EntryController.DeleteStep` | server/src/controllers/entry.controller.ts:86-99 | `deleteEntry` gives 401 iff there is no caller, 404 iff the id is unknown, 403 iff the row is another user's, 200 iff the row is the caller's. Only the 200 path changes the table, and it removes that one row and nothing else |
| `EntryController.EntryStore.DeleteEntry` | server/src/controllers/entry.controller.ts:86-103 | the in-place delete keeps the table valid; its reply and new table are exactly `DeleteStep`'s |
| `EntryController.ListingIsolated` | server/src/controllers/entry.controller.ts:40-99 | a create or delete by one user leaves every other user's listing exactly as it was |
| `EntryController.CreateThenList` | server/src/controllers/entry.controller.ts:48-80 | after a successful create, the creator's listing holds the new entry with its original plaintext, mood and time |
| `AuthController.RegisterAccepts` | server/src/controllers/auth.controller.ts:10-14 | `RegisterSchema` accepts exactly a present name of at least 2 characters, a well-formed email and a password of at least 6 characters; a one-character name or a five-character password is refused |
| `AuthController.LoginAccepts` | server/src/controllers/auth.controller.ts:16-19 | `LoginSchema` accepts exactly a well-formed email and any password string, the empty one included. Every email and password `RegisterSchema` accepts passes it |
| `AuthController.FindByEmail` | server/src/controllers/auth.controller.ts:26 | `findUnique({ where: { email } })` finds a user exactly when the email is taken; under email uniqueness it finds the only one |
| `AuthController.RegisterStep` | server/src/controllers/auth.controller.ts:10-38 | `register` answers 400 "Invalid input" for a name under 2 characters, a password under 6 or a malformed email. It answers 400 "User already exists" for a taken email. Only 201 changes the table: exactly one user is added, with the given name and email and `hash(password, 10)` as the stored password, and the reply is the new id. Email uniqueness is preserved |
| `AuthController.UserStore.Register` | server/src/controllers/auth.controller.ts:22-39 | the in-place insert keeps ids and emails unique; its reply and new table are exactly `RegisterStep`'s |
| `AuthController.SessionCookie` | server/src/controllers/auth.controller.ts:52-59 | the cookie is named `token`, httpOnly, secure exactly in production, and its `maxAge` is the token's lifetime in milliseconds. Under a sound signer its value is a non-empty token that verifies to `{ userId, name }` for the seven days after issue |
| `AuthController.Login` | server/src/controllers/auth.controller.ts:42-65 | a malformed body gives 400 "Login failed". Success happens exactly when some user has the email and the password matches its hash, and sets an httpOnly `token` cookie: the 7-day token for `{ userId, name }`, `maxAge` 604800000. The reply carries only name and email. Any other failure is 400 "Invalid credentials" with no cookie. It cannot change the table |
| `AuthController.Logout` | server/src/controllers/auth.controller.ts:68-71 | `logout` always answers 200 and clears the cookie login sets |
| `AuthController.IdenticalLoginFailures` | server/src/controllers/auth.controller.ts:46-49 | an unknown email and a known email with a wrong password get the identical reply |
| `AuthController.RegisterThenLogin` | server/src/controllers/auth.controller.ts:29-52 | given a sound hasher, a freshly registered user logs in with the same email and password, with a token for the new id and name |
| `AuthMiddleware.Decide` | server/src/middleware/auth.middleware.ts:11-24 | a token that is absent or empty gives 401, never 403. A token present but failing verification gives 403. Otherwise the claims admitted are exactly the verified ones |
| `AuthMiddleware.AuthenticateToken` | server/src/middleware/auth.middleware.ts:11-25 | on 401 and 403 it writes the status and error and leaves `req.user` untouched, without calling `next`. On success it sets `req.user` to the verified claims, writes nothing and calls `next` exactly once |
| `AuthMiddleware.LoginCookieAdmitted` | server/src/middleware/auth.middleware.ts:18-21 | within seven days of issue, the cookie a successful login set passes the gate with the logged-in user's id and name |
| `Session.SaveThenReadBack` | server/src/controllers/entry.controller.ts:40-84 | register, login, gate, create: the listing then holds the entry with the text as typed and the mood given |

## Left out

- The AES-256-CBC, bcrypt and JWT algorithms. They are abstract functions. The only property assumed of each is the one named above, and only where a lemma needs it.
- The UTF-8 conversion of text before encryption and after decryption. It is folded into the abstract cipher, so lone UTF-16 surrogates, which `Buffer` replaces, are not modelled.
- UTF-16 code units. String lengths (zod's `min(1)`, `min(2)`, `min(6)`) count Unicode scalar values here, while JavaScript counts code units. The two differ only for characters outside the Basic Multilingual Plane.
- Non-ASCII input to the hex decoder. Node's treatment of characters beyond Latin-1 in a hex string is not modelled: such characters end decoding like any other non-hex character.
- Configuration. The keys and secrets read from `ENCRYPTION_KEY` and `JWT_SECRET` (with their hard-coded fallbacks) are parameters. Only the fallback encryption key is written out, as `CipherRecord.DefaultKey`; the JWT fallback secret is folded into the abstract `TokenScheme`.
- JWT payload fields. `jwt.verify` returns the payload including `iat` and `exp`, and all of it lands in `req.user`. `Claims` keeps only `userId` and `name`.
- Database failures. The 500 replies of `getEntries` and `deleteEntry` are not modelled, since nothing in the in-memory table can throw. The foreign key from an entry to its user is not checked, so an entry created by a deleted user's still-valid token succeeds here, while the database would refuse it (400). Row fields other than those read by the handlers are not modelled.
- Ties in the listing order. Entries with equal `createdAt` come back in an order the database leaves open. `NewestFirst` fixes one such order.
- Request bodies. A field that is absent and a field that is not a string are both `None`; unknown fields, which zod strips, are not represented.
- AuthController.IdenticalLoginFailures: proves identical replies only. Response time is not modelled: `bcrypt.compare` runs only for a known email, so an unknown email is answered faster. `register` also tells a taken email apart ("User already exists").
- Concurrency. Two registrations racing on one email (the database's unique constraint would make the second fail with 400) and any other interleaving are not modelled: every handler runs as one step.
- Logging (`console.error`), cookie parsing, CORS and routing. Routing is not modelled: `server/src/routes/entry.routes.ts` does not mount `deleteEntry`, and `server/src/routes/auth.routes.ts` imports handlers (`verifyEmail`, `forgotPassword`, `resetPassword`, profile, password change, account deletion) that `auth.controller.ts` does not define. Their behaviour has no source, so it is not part of this model.


# Chirpy: the store, the token gates and the profanity filter

Chirpy is a small Go web service for short messages ("chirps"). Users sign up, log in with
a password, and receive two JSON Web Tokens. The access token lasts one hour and is used to
post chirps and update the profile. The refresh token lasts sixty days and is exchanged for
new access tokens, or revoked. A payment provider calls a webhook to upgrade a user's
membership ("Chirpy Red"). A validate endpoint replaces banned words with `****`.

This project models three parts of the service:

- **The whole-document store** (`internal/database`). One JSON file holds three maps:
  chirps, users and revoked tokens. Every operation loads the whole document, changes one
  map of the loaded copy, and writes the whole document back. It is modelled as the class
  `Database.DB`. Its `file` field holds what the file contains, and each operation is a
  method proved against functions on the maps (`ChirpTable`, `UserTable`, `TokenTable`).
- **The HTTP handlers' token gates** (`internal/handlers`). Each handler is a function. Its
  inputs are the decoded request, the Authorization header, the result of parsing the token,
  the clock and the store's answer. Its output is the store call it makes and the statuses
  and bodies it writes (`Http.Exchange`). `Session` follows tokens and accounts from one
  handler to the next.
- **The profanity filter** `replaceProfane`. It is a loop (`Profanity.ReplaceProfane`)
  proved equal to a fold of `strings.ReplaceAll` (`Profanity.Cleaned`). Lemmas then show
  three things: no banned string survives, clean text is untouched, and the filter is
  idempotent.

Conventions of the model:

- A Go nil map is `Table.Nil`. Reading it behaves as reading an empty map. Assigning into it
  panics, which is `Result.Panicked` for a store call and `Reply.Aborted` for a handler.
- Map iteration order is not fixed. A `for range` loop takes an arbitrary remaining key
  (`Database.AnyKey`). Contracts therefore state what holds for every order.
- A bcrypt hash is the constructor `Hashed`. So a hash never equals a plaintext, and hashing
  a hash gives something else again. `bcrypt.GenerateFromPassword` fails on a plaintext
  longer than 72 bytes.
- Integers are Go `int` (64 bits) where they are parsed. `Strconv.Atoi` refuses values
  outside the int64 range.

The model follows the code where it departs from what the service evidently intends:

- Logging in with an unknown email answers 500 and a wrong password answers 401, so the
  two cases can be told apart.
- The refresh handler never consults the revocation list.
- `RevokeToken` only overwrites entries that already record the token. It never adds one, so
  the revocation list stays as it was loaded.
- The refreshed token carries no issuer and no subject.
- The current `GetChirps` comparator does not give author-then-id order.
- Ids are counts plus one, so a create after a delete can overwrite a chirp.
- `GetChirpIDHandler` indexes the listing by position and panics out of range, instead of
  answering 404.
- A duplicate email answers 500.
- `NewDB` creates an empty file before `ensureDB` looks for one. On a fresh path the
  initial document is therefore never written, and every later load fails to decode.

## Model

| member | source | states |
|---|---|---|
| Database.DB.LoadDB | internal/database/db.go:125-142 | a missing file fails to open, an empty or malformed one fails to decode, otherwise the stored document is returned; loading changes nothing |
| Database.DB.WriteDB | internal/database/db.go:145-160 | the write succeeds exactly when the path is writable; after success a load returns exactly the written document (replaced, not merged); a failed write leaves the file as it was |
| Database.DB.EnsureDB | internal/database/db.go:106-122 | an existing file is left untouched; a missing file receives a document with an empty chirps map and nil users and tokens, or the write error |
| Database.NewDB | internal/database/db.go:42-62 | an unwritable path fails to open; otherwise the DB holds the file O_CREATE leaves behind, and on a fresh path every load then fails to decode |
| Database.DB.CreateChirp | internal/database/chirp.go:15-35 | a load error is returned with nothing written; a nil chirps map panics; otherwise the chirp {len+1, author, body} is stored under key len+1 (overwriting any chirp there) and returned, or the write error with the file unchanged |
| Database.DB.GetChirps | internal/database/chirp.go:37-55 | every stored chirp exactly once, each from a distinct key, and as many as there are entries; a load error is returned |
| Database.DB.LegacyGetChirps | internal/database/db.go:85-103 | the older listing: every stored chirp exactly once, sorted ascending by id, strictly when every chirp is stored under its own id |
| Database.DB.DeleteChirp | internal/database/chirp.go:57-80 | "not found" when key id is absent and "unauthorised" when another author wrote it, both writing nothing; otherwise exactly key id is removed and all other chirps, users and tokens are unchanged |
| Database.DB.CreateUser | internal/database/user.go:17-54 | a taken email (exact match) fails and writes nothing; then a password bcrypt refuses fails; otherwise a user with id len+1, the email, a hash of the password and no membership is stored under len+1 and returned |
| Database.DB.GetUserbyEmail | internal/database/user.go:56-69 | some stored user with exactly this email, whichever the map order reaches first, or "User not found" when none has it |
| Database.DB.GetUser | internal/database/user.go:103-115 | some stored user whose id field is the given id, or "User not found" |
| Database.DB.UpdateUser | internal/database/user.go:71-101 | the user GetUser finds, or the zero user when it fails, gets the new email and a hash of its stored hash, under its own id; the password argument is unused; a failed write is ignored and the user still returned |
| Database.DB.UpdateMembership | internal/database/user.go:117-139 | the user GetUser finds, or the zero user, gets the flag and is stored under its own id; a failed write is ignored |
| Database.DB.RevokeToken | internal/database/token.go:12-32 | returns {tokenID, revokedAt}; a load error returns the zero record; no matching entry means nothing is written; otherwise every matching entry is overwritten, all else kept, or the first write error is returned |
| ChirpTable.AddChirpKeepsIds | internal/database/chirp.go:22-30 | CreateChirp keeps every chirp stored under its own id |
| ChirpTable.RemoveChirpKeepsIds | internal/database/chirp.go:72 | DeleteChirp keeps every chirp stored under its own id |
| ChirpTable.AddChirpCount | internal/database/chirp.go:22-30 | creating grows the table by one exactly when len+1 is not already a key |
| ChirpTable.AddChirpToDense | internal/database/chirp.go:22-30 | while no chirp was deleted (keys 1..n), the new id n+1 is fresh and the keys become 1..n+1 |
| ChirpTable.DeleteThenCreateOverwrites | internal/database/chirp.go:22-30 | deleting chirp id < n from keys 1..n and then creating reuses id n: chirp n is overwritten and lost, and the count stays n-1 |
| ChirpTable.ListingLessNotStrictWeakOrder | internal/database/chirp.go:50-52 | three chirps where incomparability is not transitive, so the comparator is not a strict weak order |
| ChirpTable.AuthorOrderNotGuaranteed | internal/database/chirp.go:50-52 | a listing with no inversion under the comparator that is not ordered by author then id |
| ChirpTable.ListingSize | internal/database/chirp.go:45-48 | a listing that holds each entry of a map once has as many elements as the map |
| ChirpTable.SortedListingIsStrict | internal/database/db.go:98-100 | a listing sorted by id of a table whose keys are the ids has no repeated id |
| UserTable.FoundIsLookup | internal/database/user.go:103-115 | when every user sits under its own id, the user GetUser finds is the one under that key, or the zero user |
| UserTable.LookupIsFound | internal/database/user.go:103-115 | conversely, that user is always a possible GetUser outcome |
| UserTable.UnknownIdTargetsKeyZero | internal/database/user.go:73-78 | for an id no user carries, UpdateUser and UpdateMembership work on the zero user and write at key 0 |
| UserTable.AddUserIsFresh | internal/database/user.go:32-47 | with keys in 0..len, CreateUser's key is fresh, the table grows by one and the bound is kept |
| UserTable.AddUserKeepsIds | internal/database/user.go:32-47 | CreateUser keeps every user under its own id |
| UserTable.WriteAtZeroKeepsBounded | internal/database/user.go:119-131 | the phantom write at key 0 keeps keys in 0..len, so later creates stay fresh |
| UserTable.SetMembershipKeepsIds | internal/database/user.go:124-131 | UpdateMembership keeps every user under its own id |
| UserTable.SetMembershipFrame | internal/database/user.go:124-131 | UpdateMembership changes only the flag of the user found; every other user is unchanged |
| UserTable.SetMembershipIdempotent | internal/database/user.go:117-139 | two UpdateMembership calls with the same flag leave the same users as one |
| UserTable.NewUserMatches | internal/database/user.go:34-47 | a created user logs in with its password, and the plaintext is never stored |
| UserTable.ReprofiledLocksOut | internal/database/user.go:84-92 | after UpdateUser re-hashes the stored hash of a user's password, that password no longer matches, so the user is locked out |
| UserTable.PhantomAcceptsEmptyPassword | internal/database/user.go:73-92 | the phantom user written for an unknown id has id 0 and logs in with the empty password |
| TokenTable.RevokeMatchingShape | internal/database/token.go:23-30 | revoking keeps the keys and the count; matching entries become the new record and all others are unchanged |
| TokenTable.RevokeUnknownIsIdentity | internal/database/token.go:23-31 | revoking a token string that no entry records changes nothing |
| TokenTable.EmptyListStaysEmpty | internal/database/token.go:23-31 | an empty revocation list stays empty whatever is revoked |
| Strconv.Itoa | internal/handlers/login_handler.go:69 | the decimal spelling of the user id, starting with '-' exactly for negative ids |
| Strconv.Atoi | internal/handlers/chirp_handler.go:68-71 | a parse gives an int64 and needs at least one digit; text without any digit, the empty subject included, is refused |
| Strconv.AtoiItoa | internal/handlers/login_handler.go:69 | reading back the subject written for any int64 id gives that id |
| Jwt.TrimPrefix | internal/handlers/refresh_handler.go:29 | a leading prefix is removed; text without it is used unchanged |
| Jwt.AccessClaims | internal/handlers/login_handler.go:62-72 | issuer "chirpy-access", subject the decimal id, issued now, valid up to and including now + 1 hour and expired after |
| Jwt.RefreshClaims | internal/handlers/login_handler.go:65-86 | issuer "chirpy-refresh", the same subject, issued now, valid for 60 days |
| Jwt.RefreshedClaims | internal/handlers/refresh_handler.go:64-66 | no issuer, no subject, no issue time; valid for one hour |
| Http.StatusOf | internal/handlers/chirp_handler.go:80-82 | the client sees one of the statuses written, or 200 when none was; it sees 200 exactly when none was written or the first was 200 |
| Http.LaterStatusesIgnored | internal/handlers/revoke_handler.go:64-70 | once a status is written, statuses and bodies written after it do not change the status the client sees |
| Handlers.LoginHandler | internal/handlers/login_handler.go:29-107 | malformed body 400; a failed lookup 500; a wrong password 401; an empty secret or a signing failure 500, checked only after the password; success 200 with id, email and the two tokens' claims, never the password |
| Handlers.RefreshHandler | internal/handlers/refresh_handler.go:19-81 | 401 unless the header is present and the token is a valid, unexpired refresh token; no store call, so revocation is never checked; the new token (expiry only) is written under the default status |
| Handlers.RevokeHandler | internal/handlers/revoke_handler.go:19-72 | 401 unless the header is present and the token is a valid refresh token, with no expiry check; revokes the stripped token string at now; a store error writes 500 and then 200 and the record |
| Handlers.CreateChirpsHandler | internal/handlers/chirp_handler.go:17-84 | the body is checked first (400); only an unexpired access token passes (401); a non-numeric subject writes nothing; the author is the token's subject; the chirp is written under the default status |
| Handlers.GetChirpIDHandler | internal/handlers/chirp_handler.go:86-102 | a non-numeric id 400; otherwise the element at position id-1 of the listing, a panic outside it (the older copy at internal/database/db.go:320-334 is the same) |
| Handlers.GetChirpsHandler | internal/handlers/chirp_handler.go:104-113 | the listing with 200, or 500 when it cannot be read |
| Handlers.CreateUserHandler | internal/handlers/user_handler.go:29-57 | malformed body 400; the plaintext goes to CreateUser; any store error, a taken email included, 500; success 201 with only id and email |
| Handlers.LegacyCreateUserHandler | internal/database/db.go:286-318 | the password is hashed before CreateUser hashes it again; when bcrypt refuses it the handler writes 500 and continues with an empty hash |
| Handlers.UpdateUserHandler | internal/handlers/user_handler.go:59-137 | 401 unless an unexpired token that is not a refresh token (expiry checked first, any other issuer passes); a non-numeric subject 400, then a malformed body 400; the user updated is the subject; success 201 |
| Handlers.WebhookHandler | internal/handlers/webhook_handler.go:25-70 | 401 unless the header, with an optional "ApiKey " prefix, is the key; malformed body 400; another event writes 200 and still upgrades; always UpdateMembership(user, true); 500 on error, else 201 with the flag |
| Profanity.Banned | internal/handlers/validate_handler.go:28-31 | each word is followed by its upper-case spelling, in the order the loop visits them |
| Profanity.BannedIsPatterns | internal/handlers/validate_handler.go:28-31 | the filter's patterns are the six strings kerfuffle, KERFUFFLE, sharbert, SHARBERT, fornax and FORNAX, none empty or containing a star |
| Profanity.ReplaceProfane | internal/handlers/validate_handler.go:27-34 | the loop's result is the six ReplaceAll passes applied in order (the copy at validate.go:28-35 is the same loop) |
| Profanity.ValidateHandler | internal/handlers/validate_handler.go:9-25 | a malformed body 400; otherwise 200 with the filtered text |
| Profanity.ReplaceAllRemoves | internal/handlers/validate_handler.go:30 | after ReplaceAll of a star-free pattern by stars, the pattern occurs nowhere |
| Profanity.OccurrenceSurvives | internal/handlers/validate_handler.go:30-31 | replacing by stars creates no new occurrence of a star-free word |
| Profanity.ReplaceAllNoop | internal/handlers/validate_handler.go:30 | ReplaceAll leaves text without the pattern unchanged |
| Profanity.ScrubAllSurvives | internal/handlers/validate_handler.go:29-32 | a star-free word absent before the passes is absent after them |
| Profanity.ScrubAllRemoves | internal/handlers/validate_handler.go:29-32 | after the passes, none of the star-free patterns occurs |
| Profanity.ScrubAllNoop | internal/handlers/validate_handler.go:29-32 | text containing none of the patterns passes through unchanged |
| Profanity.CleanedHasNoBanned | internal/handlers/validate_handler.go:27-34 | none of the six banned strings occurs anywhere in the filtered text |
| Profanity.CleanedIdentity | internal/handlers/validate_handler.go:27-34 | text containing none of the six is returned unchanged |
| Profanity.CleanedIdempotent | internal/handlers/validate_handler.go:27-34 | filtering twice gives what filtering once gives |
| Profanity.MixedCaseUntouched | internal/handlers/validate_handler.go:30-31 | "Kerfuffle" is returned unchanged: only the exact lower- and upper-case spellings match |
| Session.LoginThenPost | internal/handlers/login_handler.go:62-105 | after a successful login, the access token posts chirps as the logged-in user and the refresh token is refused with 401 |
| Session.AccessTokenRoles | internal/handlers/user_handler.go:99-119 | an unexpired access token updates the profile of the user it names, and is refused by the refresh and revoke handlers |
| Session.AccessTokenExpires | internal/handlers/chirp_handler.go:63-66 | once an hour has passed, an access token neither posts chirps nor updates the profile |
| Session.RefreshTokenRoles | internal/handlers/refresh_handler.go:53-79 | for 60 days a refresh token yields a token expiring an hour later and can be revoked, but posts no chirp and updates no profile |
| Session.RevokeIgnoresExpiry | internal/handlers/revoke_handler.go:50-63 | a valid refresh token past its expiry is still revoked, where the refresh handler refuses it |
| Session.RevokeFailureSeenAs500 | internal/handlers/revoke_handler.go:63-70 | when the store fails to record a revocation, the client sees 500 although the handler then writes 200 and the record |
| Session.RefreshedTokenRoles | internal/handlers/refresh_handler.go:64-66 | the refreshed token cannot post chirps or be refreshed, and the profile update it passes ends at 400 |
| Session.SignupThenLogin | internal/handlers/user_handler.go:40 | a user created through CreateUserHandler logs in with the password they signed up with |
| Session.LegacySignupLocksOut | internal/database/db.go:296-302 | a user created through the older handler (a hash of a hash) cannot log in with their password |
| Session.LegacyLongPasswordBecomesEmpty | internal/database/db.go:296-302 | with a password bcrypt refuses, the older handler creates an account that opens with the empty password and not with the chosen one |
| Session.SortedListingAnswersById | internal/database/db.go:320-334 | with the older sorted listing of a table that lost no chirp, the by-id handler answers with the chirp that has that id |
| Session.UnorderedListingMisanswers | internal/handlers/chirp_handler.go:94-100 | with an unordered listing, the same request can answer with another chirp |

## Left out

- Concurrency: the `sync.RWMutex` covers only the read in loadDB and the write in writeDB. It never spans a load-modify-write, so the model is sequential and claims no atomicity across those steps.
- File I/O and JSON encoding are a `file` field holding a document, or content that fails to open or decode. Which I/O errors occur is reduced to the `writable` flag. So a write to a path either always succeeds or always fails.
- bcrypt salting, cost, and the 72-byte truncation in CompareHashAndPassword are not modelled. A hash is the constructor `Hashed`. The 72-byte limit counts characters, which equal bytes for ASCII.
- JWT parsing and HS256 signing are an oracle. A handler is given the parse result (error, or claims with HMAC and validity flags), plus a flag saying whether signing succeeds. The library's own `exp` validation is part of that oracle. `Session.RevokeIgnoresExpiry` is about the handler's own checks only.
- `time.Now()` is the parameter `now`, in whole seconds. Nanoseconds, and the difference between local time and UTC, are not modelled.
- Response headers, the error texts of `http.Error` and `respondWithError`, and logging are not modelled. Bodies are recorded by their fields.
- The token strings the login and refresh handlers return are represented by their claims.
- Strings are sequences of characters, while Go's `strings.ReplaceAll` works on UTF-8 bytes. The banned words are ASCII, so matches are the same for valid UTF-8 text.
- Database.DB.GetChirps: the `sort.Slice` step is not modelled beyond the listing being a permutation of the stored chirps, because its comparator is not a strict weak order and sort.Slice's result then depends on its algorithm.
- Database.DB.LegacyGetChirps: the in-place `sort.Slice` by id is modelled as building the listing by repeated least-id selection, so the permutation it applies in place is not modelled.
- The older `CreateChirp` of internal/database/db.go:65-83 differs from `Database.DB.CreateChirp` only in having no author field. It is that method with author 0.
- The older copies of `GetUserbyEmail` and `CreateUser` in internal/database/db.go:183-275 match the current ones, apart from the membership field.
- The older `LoginHandler` and `CreateChirpsHandler` of internal/database/db.go:162-238 are not part of this model. They take no token, and the current handlers replace them.
- The deletion handler that calls `DeleteChirp` is not part of this model. Only the store operation is modelled.
- internal/database/db.go:36-39 declares no token collection, while internal/database/token.go:23 ranges over one. The document here has a tokens table, which starts out nil.
- UserTable.ReprofiledLocksOut: a hash is the constructor `Hashed` and never equals a plain text, so the model does not capture that in Go the old hash's own 60-byte text is hashed anew by UpdateUser and then logs in as a password.
- Profanity.ValidateHandler: models internal/handlers/validate_handler.go. The older validateHandler of validate.go:9-26 decodes into a struct that also declares an integer `id`. There, a body whose "id" is not an integer fails to decode and gets 400, where this handler answers 200. JSON decoding itself is outside the model.
- main.go routing, metrics, middleware, the health check and configuration loading are not modelled.

# gosnappass: the one-time secret lifecycle

gosnappass shares a secret through a link that works once. The sender posts a
secret and a time-to-live. The server encrypts the secret under a fresh Fernet
key and stores only the ciphertext in Redis, under `keyPrefix + uuid`, with
that time-to-live. It answers with a link whose last path segment is the token
`id~escapedKey`. Opening the link (GET) peeks: the record is checked with
`EXISTS` and nothing changes. Submitting it (POST) consumes: the record is read
and deleted in one atomic `GETDEL`, then decrypted with the key from the token.

This project models that core, the store-facing logic of
`internal/server/handlers.go`, in Dafny:

- `Ttl`: the closed label-to-seconds table and its case-insensitive lookup.
- `Text`: the `strings` helpers the handlers use (`Split` and `Join`, with `Count` to state them, and ASCII lower-casing).
- `Token`: the separator, `splitToken`, the join at line 89, and the link built around the token.
- `PathEscape`: `url.PathEscape` and `url.PathUnescape` on one path segment, as percent-encoding over byte strings.
- `Fernet`: the `Encrypt`/`Decrypt` wrapper of `internal/server/fernet.go` over a symbolic Fernet library.
- `Redis`: the database as a `Store` class. It holds a map from key to entry and an abstract clock, and has `Set`, `Exists`, `GetDel` and `Advance` (time passing).
- `Handlers`: publish, peek and consume as methods on the shared `Store`. Each is proved against a pure function giving its outcome (`NotFound | ServerError | Confirm(link) | Preview | Show(secret)`) and the records it leaves.
- `Lifecycle`: lemmas about those functions. They cover the publish-peek-consume round trip, at-most-once disclosure, loss of the record on decryption failure, and TTL expiry. Two client methods run these steps against a fresh `Store`.

The parameters of every operation are:

- the uuid;
- the random key bytes (`None` when the random source fails);
- the request host;
- a `Network` value. It says whether a Redis command and its reply get through (`Healthy`), the command is lost (`Unreachable`), the command is applied and the reply is lost (`ReplyLost`, which the client reports as an error), or the command is applied, its reply is lost and the client's automatic retry applies it again and returns that reply (`Retried`). The client options (internal/server/redis.go:40-52) set no `MaxRetries`, so go-redis's default retries apply: it re-sends a command whose read timed out or hit end of file.

Behaviours of the code that the model keeps as they are:

- `splitToken` accepts empty parts: it only checks that there are exactly two pieces.
- A key part that fails to unescape is not rejected up front. The error of `url.PathUnescape` is dropped, and the empty key then fails decryption after `GETDEL` has already deleted the record. Such a token could instead be rejected as malformed before the store is touched; the code does not do that.
- The wrapper's `Decrypt` treats an empty decrypted message as an error. So a secret published empty is stored, but it can never be shown: consuming it deletes it and ends on a server error.
- A `~` inside the configured Redis key prefix is not refused. It makes every published token unparseable (`SeparatorInIdStrandsSecret`).

## Model

| member | source | states |
|---|---|---|
| `Ttl.TtlSeconds` | internal/server/handlers.go:52-57 | a looked-up TTL is one of the table's values, hence positive, a whole number of hours and at most two weeks |
| `Ttl.TtlTable` | internal/server/handlers.go:19-21 | a label is accepted exactly when its lower-cased form is "two weeks", "week", "day" or "hour", mapping to 1209600, 604800, 86400 and 3600 seconds; anything else is rejected |
| `Ttl.TtlCaseInsensitive` | internal/server/handlers.go:54 | the lookup ignores letter case: a label and its lower-cased form select the same duration |
| `Ttl.TtlLabels` | internal/server/handlers.go:19-21 | the four labels are accepted, also in upper or mixed case, and "banana" is rejected |
| `Text.Split` | internal/server/handlers.go:183 | `strings.Split` yields one more piece than there are separators, and no piece holds the separator |
| `Text.JoinSplit` | internal/server/handlers.go:183 | joining the pieces of a split gives back the original string |
| `Text.SplitJoin` | internal/server/handlers.go:89 | splitting a join of separator-free pieces gives back the pieces |
| `Text.AsciiLower` | internal/server/handlers.go:54 | lower-casing keeps the length, leaves no upper-case ASCII letter, and leaves every other character unchanged |
| `Text.AsciiLowerEqual` | internal/server/handlers.go:54 | two labels select the same table key exactly when they differ only in the case of ASCII letters |
| `Token.SplitToken` | internal/server/handlers.go:182-189 | succeeds exactly when the token holds one `~`; the parts are what lies before and after it, neither holds `~`, and empty parts are accepted |
| `Token.JoinToken` | internal/server/handlers.go:89 | the joined token holds exactly one more `~` than its two parts together |
| `Token.TokenRoundTrip` | internal/server/handlers.go:89 | a token joined from `~`-free parts splits back into the same id and key |
| `Token.SeparatorInPartBreaksToken` | internal/server/handlers.go:184-186 | a part that holds `~` makes the joined token fail to split |
| `Token.Link` | internal/server/handlers.go:86-89 | the link ends with `/` followed by the token |
| `Token.LinkShape` | internal/server/handlers.go:76-89 | the link starts with the scheme ("http" when none is configured) and the host (the override when set, else the request host), and the token is its last path segment |
| `PathEscape.UnescapeOrEmpty` | internal/server/handlers.go:148 | a key part without `%` is used as it is, and a key part with a bad escape becomes the empty key, the dropped error's value |
| `PathEscape.UnescapeEscape` | internal/server/handlers.go:148 | unescaping the escaped key gives the key back |
| `PathEscape.EscapeUnreserved` | internal/server/handlers.go:89 | a key made of characters that `url.PathEscape` keeps is its own escape |
| `PathEscape.EscapeSeparators` | internal/server/handlers.go:89 | escaping neither adds nor removes `~`, and never produces `/` |
| `Fernet.KeyCodec` | internal/server/fernet.go:23-28 | a key text decodes to a key exactly when it is that key's encoding |
| `Fernet.Encrypt` | internal/server/fernet.go:11-24 | encryption fails exactly when the random source fails (`entropy == None` stands for a failure of key generation or of `EncryptAndSign`); the key text it returns uses only characters that need no escaping |
| `Fernet.Decrypt` | internal/server/fernet.go:27-39 | a successful decryption never yields the empty message |
| `Fernet.DecryptSucceeds` | internal/server/fernet.go:27-39 | decryption succeeds exactly when the key text decodes to the sealing key of a sealed, non-empty message, and then yields that message; garbled ciphertext and wrong or malformed keys fail |
| `Fernet.EncryptDecrypt` | internal/server/fernet.go:11-39 | decrypting with the returned key gives the secret back, except that an empty secret fails as empty |
| `Redis.Store.Set` | internal/server/handlers.go:69 | `SET` with expiry stores the value under the id with deadline now plus TTL (none for 0), overwriting; it reports success exactly when Redis answers (directly or to a retry, which writes the same entry again), and a lost reply still writes |
| `Redis.Store.Exists` | internal/server/handlers.go:114 | `EXISTS` returns 1 exactly when the id is stored, 0 otherwise, an error when Redis does not answer (a retry answers like a first attempt), and changes nothing |
| `Redis.Store.GetDel` | internal/server/handlers.go:151 | `GETDEL` removes the id and returns its old value, `redis.Nil` when it was absent, or an error; a lost reply still deletes, and a retry answers `redis.Nil` because its first attempt already deleted |
| `Redis.UnexpiredCompose` | internal/server/handlers.go:69 | expiry composes: dropping what is dead at one time and then at a later time equals dropping what is dead at the later time, so advancing the clock twice equals advancing it once by the sum |
| `Redis.Store.Advance` | internal/server/handlers.go:69 | as time passes, exactly the records whose deadline is reached disappear, and all remaining records stay live |
| `Handlers.LinkToken` | internal/server/handlers.go:89 | the published token is the id, the separator and the key text, which escaping leaves unchanged |
| `Handlers.PublishOutcome` | internal/server/handlers.go:52-89 | publish is not-found exactly for an unknown TTL, confirms a link exactly when the TTL is known, encryption succeeds and Redis answers the `SET`, and is a server error otherwise |
| `Handlers.AfterPublish` | internal/server/handlers.go:59-74 | publish leaves every record under another id as it was |
| `Handlers.PeekOutcome` | internal/server/handlers.go:106-131 | peek ends on not-found, server error or preview, and preview only for a well-formed token whose id is stored |
| `Handlers.ConsumeOutcome` | internal/server/handlers.go:141-173 | consume ends on not-found, server error or a shown secret, and it shows a non-empty secret only for a well-formed token whose id was stored |
| `Handlers.AfterConsume` | internal/server/handlers.go:141-165 | consume adds and changes nothing, and removes at most the record under the token's id |
| `Handlers.Publish` | internal/server/handlers.go:39-96 | publish checks the TTL first, then encrypts and writes `keyPrefix + uuid` with the TTL's seconds, then builds the link; the outcome and new records are `PublishOutcome` and `AfterPublish` |
| `Handlers.Peek` | internal/server/handlers.go:100-132 | peek's outcome is `PeekOutcome` of the current records, and it modifies nothing |
| `Handlers.Consume` | internal/server/handlers.go:135-180 | consume's outcome is `ConsumeOutcome` of the old records; the new records are `AfterConsume`: unchanged for a malformed token, otherwise without the id once `GETDEL` reaches Redis (unchanged when Redis is unreachable) |
| `Lifecycle.PublishedTokenParses` | internal/server/handlers.go:86-89 | the published token splits into the store id and the key text, and unescaping the key part gives that key text |
| `Lifecycle.PublishThenConsume` | internal/server/handlers.go:39-180 | after a successful publish, the last segment of the link peeks to the preview, the first consume shows the secret (a server error for an empty secret), and a second consume is not-found |
| `Lifecycle.SeparatorInIdStrandsSecret` | internal/server/handlers.go:66 | with `~` in the key prefix or the uuid, the published token never parses: peek and consume are not-found and the record stays until it expires |
| `Lifecycle.ConsumeShows` | internal/server/handlers.go:141-180 | consume shows `m` exactly when the token parses, the network is healthy, the id holds `m` sealed under the key that the unescaped key part decodes to, and `m` is not empty |
| `Lifecycle.ErrorPaths` | internal/server/handlers.go:106-164 | a malformed token is not-found for peek and consume on every network and leaves the records alone; with a well-formed token, a failed `EXISTS` or a `GETDEL` error other than `redis.Nil` is a server error; a retried `EXISTS` answers as a healthy one and a retried `GETDEL` makes consume not-found |
| `Lifecycle.ConsumeLosesRecord` | internal/server/handlers.go:148-173 | once `GETDEL` reaches Redis the id is gone whatever decryption does; on a healthy network a stored record is never reported as not-found, a retried `GETDEL` is always not-found (consume is not idempotent under retries), and otherwise a failed decryption is a server error |
| `Lifecycle.BadEscapeDestroysSecret` | internal/server/handlers.go:148-173 | a key part with a bad percent escape ends on a server error and the record is deleted |
| `Lifecycle.PeekAgreesWithConsume` | internal/server/handlers.go:106-159 | on a healthy network peek previews exactly when consume would find the record; peek is only ever preview or not-found there |
| `Lifecycle.NothingShownWhenAbsent` | internal/server/handlers.go:154-159 | a token whose id is not stored shows nothing, however often it is consumed, and is not-found whenever Redis answers |
| `Lifecycle.AtMostOneShown` | internal/server/handlers.go:150-173 | of any sequence of consumes of one token, at most one shows the secret |
| `Lifecycle.OneWinner` | internal/server/handlers.go:150-173 | when the first consume shows the secret, it is the only one, and every later consume that Redis answers is not-found |
| `Lifecycle.AbsentIdMany` | internal/server/handlers.go:150-159 | consumes of any tokens that all name an id that is not stored show nothing, whatever key parts they carry |
| `Lifecycle.AtMostOnePerId` | internal/server/handlers.go:150-173 | of any sequence of consumes whose tokens all name the same id, at most one shows the secret, even when the tokens carry different texts of the key |
| `Lifecycle.PublishedRecordExpires` | internal/server/handlers.go:69 | a published record is stored and is still live after `elapsed` seconds exactly when `elapsed` is below the TTL's seconds |
| `Lifecycle.OnlyPublishStores` | internal/server/handlers.go:52-74 | consume and expiry only remove records; an unknown TTL or failed encryption writes nothing and ends on not-found or server error; publish adds at most `keyPrefix + uuid` |
| `Lifecycle.SecretLifecycle` | internal/server/handlers.go:39-180 | against a fresh store: publish confirms, peek previews, the first consume shows the secret, the second is not-found |
| `Lifecycle.SecretExpires` | internal/server/handlers.go:52-69 | a secret published for an hour still previews after 3599 seconds and is not-found at 3600 |

## Left out

- The Fernet library is modelled symbolically. A ciphertext either is sealed under one key or is garbage, and it opens only under its own key. Confidentiality, AES, HMAC and timestamps are not modelled.
- `Fernet.KeyCodec`: key text is lower-case hex of the 32 key bytes, not base64url. That each key has exactly one text that decodes to it is a property of this stand-in only: the library's `DecodeKey` also accepts other spellings of the same key. The handler lemmas rely only on `DecodeKey(EncodeKey(k)) == Some(k)` and state decryption through `DecodeKey`. Both alphabets are left alone by `url.PathEscape` and contain no `~` or `/`, which is all the handlers depend on.
- Randomness: `uuid.New()` and the key bytes from `crypto/rand` are parameters. `None` stands for any failure inside `Encrypt`: key generation (fernet.go:13-16) or `EncryptAndSign` (fernet.go:18-21), which only fails when its random IV cannot be drawn. The uuid's format is not constrained.
- `Text.AsciiLower`: `strings.ToLower` is Unicode-aware; the model lower-cases ASCII letters only. Labels that Go lower-cases through non-ASCII mappings (e.g. the Kelvin sign to `k`) are not covered.
- `PathEscape.Escape`: a Go string is bytes; the model escapes strings whose characters are all below 256. UTF-8 encoding of wider characters is not modelled.
- `Token.Link`: `url.JoinPath` cleans the path (duplicate slashes, dot segments) and can fail on a malformed base URL. The handler ignores that error. The model appends the URL prefix and the token without cleaning.
- `Lifecycle.PublishThenConsume`: assumes the key prefix and uuid contain no `/`. With a `/`, the token would not be the link's last segment.
- Client retries: `Retried` stands for a retry that reaches Redis after the first attempt was applied. A lost command followed by a successful retry is `Healthy`, and a retry whose own reply is lost again is `ReplyLost`. The retry count, backoff and timeouts are not modelled.
- Real-time expiry: Redis expiry is modelled as an abstract clock in seconds advanced by `Store.Advance`.
- Concurrency: Redis serializes commands, so concurrent consumes are modelled as a sequence (`ConsumeRepeatedly` for one token, `ConsumeMany` for several). `GETDEL` is one method call.
- The Redis client itself (`internal/server/redis.go`): the global client, connection options and `Ping` health check are network I/O. `healthCheck` is not modelled.
- HTTP plumbing: form parsing errors (a 500 before the TTL check), template rendering and its errors after the store operation, routing and middleware are not part of this model. `internal/view/view.go`, `internal/server/router.go`, `internal/server/middleware.go`, `internal/server/server.go`, `internal/config/config.go`, `internal/embedded/embedded.go` and `cmd/gosnappass/main.go` are not part of this model.
- Logging calls have no behaviour to state. The two that log the stale `err` variable (lines 71 and 116) are not modelled.

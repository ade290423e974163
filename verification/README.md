# Verification model of actix-login

A Dafny 4.11 model of the parts of `actix-login` where the state and the text
handling are: the redirect query codec, the two session stores, the auth session, the
permission checks and the gate, and the protocol that they form over whole runs of
requests. Check it with `dafny verify dfyconfig.toml`.

## How the model is laid out

| file | what it models |
|---|---|
| `Utf8.dfy`, `Scalars.dfy` | UTF-8 well-formedness and lossy decoding; both against the encoding of scalar values |
| `FormCodec.dfy`, `FormLaws.dfy` | form parsing and serializing, percent-encoding, that one decoder undoes both encoders, and what any other query parses to |
| `Uri.dfy`, `UriLaws.dfy` | URIs in origin, absolute and asterisk form: parsing, printing, and which texts are URLs |
| `Redirect.dfy`, `RedirectExact.dfy`, `RedirectText.dfy` | `url_with_redirect_query`: round trip, exact conditions, grammar and length of its query |
| `Responses.dfy` | the header loop of `SimpleResponseHandler`, and `RedirectHandler` |
| `SessionValues.dfy`, `Stores.dfy` | what a session holds; `MemoryStore` and `SqliteStore` as classes |
| `TimedMap.dfy` | both stores against one timed map, and against each other, over every history |
| `Sessions.dfy`, `Flash.dfy` | `actix_session::Session`, `AuthSession` and the flash message store as classes |
| `Handlers.dfy` | what a handler may do with its session, and the coherence of user, data and session |
| `Access.dfy`, `TestBackend.dfy`, `Service.dfy` | permissions, decisions, the gate, and the auth manager in front of it |
| `Protocol.dfy` | the run model: interleaved requests, user changes, clock, sweep; its invariant |
| `Lifetimes.dfy`, `Persistence.dfy` | theorems over every run: how sessions end, and how long logins last |
| `Provenance.dfy` | every login leads back to a login of the client that holds the key |
| `RunStores.dfy` | both stores against the timed map in the worlds of every run |
| `Witnesses.dfy` | runs that show what those theorems leave possible |
| `Middleware.dfy` | a whole request over the mutable objects, gate included, and the same request in a run |
| `Wrappers.dfy`, `Sequences.dfy` | `Option`, `Result`, and facts about sequences |

The code that updates fields in place (`MemoryStore`, `SqliteStore`, `AuthSession`,
`Session`, `SessionMessageStore`, the test backend) is modelled by classes. Their
methods are proved against functions on values (`MemoryAfter`, `SqliteAfter`,
`Established`, `LoggedIn`, ...). The run model is built from the same functions, so
its theorems are about what the methods do. The redirect code, the decisions and the
gate are functions, as in the source.

## Assumptions

- actix-session 0.11 is not part of the repository. `Sessions.Session` and the `Begin`
  and `Commit` steps of `Protocol` state what is assumed of it: a purge clears the
  session for good; inserting, removing and renewing do nothing after a purge;
  inserting and removing do not undo a renewal; a key that does not load is
  discarded; at the end of a request a session without key is saved if it holds
  anything, a changed one is written under its key, a renewed one is deleted and saved
  under a fresh key, a purged one is deleted, an unchanged one may have its expiry
  extended. A request whose service returns an `Err`, or that is dropped, commits
  nothing (the step `Abort`). An error that a handler answers with is a response like any
  other, and its session is committed.
- Generated session keys are fresh. They are parameters, like the current instant.
- A serialized value reads back as what was written, and reading it as another type is
  an error (`SessionValues.Value`).
- `get_user(id)` returns a user whose id is `id`.
- The middleware calls the gate at most once per request, and the gate the inner service
  at most once (the guard of `PassGate`).
- The `http` crate is release 0.2, the one actix-web 4 uses, with its limits of 65534 bytes
  for a parsed URI and 64 for a scheme; URI texts are bytes.
- Only `login` writes the auth data key (`Handlers.Leaves`).

Runs interleave requests, user changes, the clock and the sweep in any way; requests on
one session key may overlap. A run is *serial* (`Protocol.IsSerialRun`) if no request
begins with a key that another one still holds. Serial runs are a premise only where a
row below says so, because overlapping requests do matter: a request that still holds a
deleted key writes its record back when it commits a change, and then a logged-out user
is logged in again (`Witnesses.OverlapRestoresLogin`). The theorems without that premise
say exactly when this happens (`Lifetimes.StaysAbsentIff`).

## Where the code and its documentation differ

- The documentation says that the redirect field is appended; the code puts it in front
  of the other parameters (`Redirect.Carries`).
- The behaviour contract promises an error response when the redirect URL cannot be
  built. A field that holds a `#`, with a legal query in front of it, builds a URL, but
  what follows the `#` is lost, the requested URI included
  (`RedirectExact.UpdatedUriCut`). The round trip therefore holds for exactly the
  form-safe fields (`RedirectExact.RedirectRoundTripIff`). For the login URL `*` a
  location is built that is no URL (`Responses.RedirectContract`).
- `PermissionsPredicate::new` is documented to hold a single permission. It holds none,
  and so allows every user whose permissions can be read (`Access.NewPredicateAllowsIff`).
- `with_permissions` is documented to add permissions. It replaces those given before
  (`Access.BuiltPredicate`).
- `delete_expired` is documented to delete every session past its expiry. It keeps rows
  that expired within the current second; they do not load either
  (`TimedMap.SweepTakesOnlyExpired`).
- `login` is documented to update the session such that the user is logged in. On a
  session that was purged before, by a logout or because it was stale, it succeeds and the
  request has the user, but nothing is stored and the client gets no key
  (`Persistence.LoginReturnsKeyIff`).
- A stale session is purged only if its request commits. If the request is aborted, by an
  `Err` of its service or because it is dropped, and the hash is changed back, the user is
  back too (`Lifetimes.StaleUserReturnsIff`, and the run
  `Witnesses.FailedRequestKeepsStaleSession`).

Extending the expiry on every request does not always save a session. If the session
expires while its request is in flight and a sweep takes its row, or an overlapping load
its record, the commit hands the key out again but nothing is stored under it
(`Witnesses.SweptSessionIsLost`, `Witnesses.DroppedSessionIsLost`). These are the only
differences from a map that never drops anything (`RunStores.RunAnswersIff`).

## Model

| member | source | states |
|---|---|---|
| Utf8.LossyIsValid | actix-login/src/redirect.rs:4 | whatever bytes a query decodes to, the decoded text is well-formed UTF-8 |
| Utf8.LossyKeepsValid | actix-login/src/redirect.rs:4 | decoding leaves well-formed text alone, so it is idempotent |
| Scalars.ValidIff | actix-login/src/redirect.rs:4 | well-formed texts are exactly the encodings of sequences of scalar values |
| Scalars.LossyReplaces | actix-login/src/redirect.rs:4 | decoding keeps well-formed text, and replaces what begins no character by U+FFFD, one maximal subpart at a time |
| Scalars.MaximalSubpartExists | actix-login/src/redirect.rs:4 | such a maximal subpart always exists, so the two laws determine the decoded text |
| FormCodec.FormEncodeRoundTrip | actix-login/src/redirect.rs:5-7 | the form serializer's output decodes to the text it was given, for all text, and contains neither `&` nor `=` |
| FormCodec.UriEncodeRoundTrip | actix-login/src/redirect.rs:34 | so does that of the other encoder, under the same decoder |
| FormCodec.ParseExtended | actix-login/src/redirect.rs:5-7 | serializing pairs after any existing query makes it parse to its old pairs followed by exactly the new ones |
| FormCodec.SerializeRoundTrip | actix-login/src/redirect.rs:4-7 | every list of text pairs survives serializing and parsing |
| FormCodec.NormalisationIsSound | actix-login/src/redirect.rs:4-7 | parsing and re-serializing keeps the pairs of every query string, malformed ones included, and is idempotent |
| FormLaws.ParseLaws | actix-login/src/redirect.rs:4 | what every query parses to: segments between `&`, each split at its first `=`, and a segment without `=` is a name with an empty value |
| FormLaws.ReadsPlain | actix-login/src/redirect.rs:4 | an ASCII character other than `%` reads as itself, and `+` as a space |
| FormLaws.ReadsEscaped | actix-login/src/redirect.rs:4 | any character reads as itself when its UTF-8 bytes are escaped, in digits of either case |
| FormLaws.ReadsStrayPercent | actix-login/src/redirect.rs:4 | a `%` without two digits behind it reads as itself |
| FormLaws.HasKeyIff | actix-login/src/redirect.rs:26-27 | a key is found exactly if the name of some nonempty segment of the query text decodes to it |
| FormLaws.EscapeIs | actix-login/src/redirect.rs:33-35 | both encoders escape with `%` and two digits, letters among them in upper case |
| Uris.ParsedUriIsWellFormed | actix-login/src/redirect.rs:23 | a parsed URL has a legal path that starts with `/` and a legal query |
| UriLaws.OriginFormIff | actix-login/src/redirect.rs:23 | which texts that start with `/` are URLs, by their characters and length, and what path and query they have |
| UriLaws.AbsoluteFormIff | actix-login/src/redirect.rs:23 | which texts with scheme and authority are URLs, and what origin, path and query they have |
| UriLaws.AuthorityIff | actix-login/src/redirect.rs:23 | which authorities are legal: closed brackets, and at most one `:` and no `%` behind user information and brackets |
| UriLaws.OtherTextsFail | actix-login/src/redirect.rs:23 | nothing else is a URL, except `*` |
| UriLaws.AsteriskParses | actix-login/src/redirect.rs:23 | `*` is a URL with itself as its path |
| UriLaws.HostUrlParses | actix-login/src/redirect.rs:23 | an ordinary host, port and path make a URL of just these |
| UriLaws.OpenBracketFails | actix-login/src/require/handler.rs:416-424 | a URL whose bracketed host is not closed is refused |
| Uris.PrintRoundTripIff | actix-login/src/redirect.rs:9-12 | a well-formed URI prints to a text that parses back to it, except for `*` with a query and for texts over the length limit, which do not parse |
| Uris.PrintIsValid | actix-login/src/redirect.rs:33 | every well-formed request URI prints as well-formed text, so it meets the premise of the round trips below |
| Uris.ParsedUriKeepsText | actix-login/src/redirect.rs:23 | a parsed URL prints as the text it came from, up to a `#`, with `http` and `https` in lower case and with `/` for a missing path |
| Redirect.UpdatedUri | actix-login/src/redirect.rs:3-13 | replacing the query by a legal one succeeds, loses no part of it and changes nothing else |
| Redirect.RedirectRoundTrip | actix-login/src/redirect.rs:18-38 | for every login URL and form-safe new field, the result's query parses to the field with the requested URI and then the old pairs in order; scheme, authority and path stay |
| Redirect.ExistingFieldIsKept | actix-login/src/redirect.rs:25-31 | a login URL that already names the field, in whatever encoding, comes back with its own text, up to a `#`, with `http` and `https` in lower case and with `/` for a missing path |
| Redirect.BareFieldIsKept | actix-login/src/redirect.rs:25-31 | a field that stands in the query without a value is present, too |
| Redirect.BareNameStays | actix-login/src/redirect.rs:4-7 | any other name without a value stays behind the redirect pair, with `=` after it |
| Redirect.RedirectIsIdempotentIff | actix-login/src/redirect.rs:18-38 | applied to its own printed result it returns the same URI, whatever is requested the second time, if and only if the login URL is not `*` and the result is within the length limit |
| RedirectExact.RedirectRoundTripIff | actix-login/src/redirect.rs:33-35 | the round trip holds for exactly the fields that are legal in a query, hold no separator and no escape |
| RedirectExact.RedirectFailsIff | actix-login/src/redirect.rs:18-38 | the function fails exactly when the login URL is malformed, or a field to be inserted is, up to its first `#` |
| RedirectExact.UpdatedUriCut | actix-login/src/redirect.rs:9-12 | a field with a `#` loses everything from there on, the requested URI included |
| RedirectText.RebuiltQuery | actix-login/src/redirect.rs:33-37 | a legal field always leads to a URL that differs from the login URL in the query only |
| RedirectText.RebuiltQueryIsLegal | actix-login/src/redirect.rs:5-10 | the rebuilt query follows the grammar of section 3.4 of RFC 3986 if the field does |
| RedirectText.RebuiltQueryIsBounded | actix-login/src/redirect.rs:5-10 | its length is bounded by three times that of the requested URI and of the old query, replacement characters included |
| RedirectText.FormEncodeAlphabet | actix-login/src/redirect.rs:5-7 | the serializer leaves a text unchanged exactly when it consists of ASCII alphanumerics and `*-._` |
| RedirectText.EncodersAgreeIff | actix-login/src/redirect.rs:5-34 | the two encoders give the same text exactly if it has no space, `*` or `~` |
| Responses.Handle | actix-login/src/require/handler.rs:357-386 | status and body are the handler's; the header `content-type` is the configured one exactly if that is a legal value, unless an entry overrides it; without name clashes the headers are the valid entries overriding that |
| Responses.HeaderNameIff | actix-login/src/require/handler.rs:374-378 | which header names are valid |
| Responses.LowerAt | actix-login/src/require/handler.rs:379 | header names are folded letter by letter |
| Responses.AppliedIsOverride | actix-login/src/require/handler.rs:374-381 | every iteration order of a clash-free header map gives exactly the valid entries, names ignoring case, over the initial headers |
| Responses.OrderIndependentIff | actix-login/src/require/handler.rs:374-381 | all iteration orders agree if and only if no two valid names that are equal ignoring case have different values |
| Responses.RedirectContract | actix-login/src/require/handler.rs:157-185 | the answer is a 307 whose location, read back, keeps an explicit redirect parameter and otherwise carries the requested URI in front of the login URL's own pairs; for `*`, or over the length limit, it is no URL |
| Responses.RedirectErrorIff | actix-login/src/require/handler.rs:173-181 | the answer is a 500 exactly when the login URL or the field to be inserted is malformed |
| Responses.BareRedirect | actix-login/src/redirect.rs:33-37 | a login URL without query gets the redirect pair as its whole query |
| Responses.DefaultRedirect | actix-login/src/require/handler.rs:14-15 | with the defaults every request is redirected to `/signin?next=` and the percent-encoded URI |
| Stores.MemoryStore.Len | actix-login/src/session_store.rs:55-57 | counts the held records, expired ones included |
| Stores.MemoryStore.Insert | actix-login/src/session_store.rs:64-72 | the key holds the state until now plus the ttl; other keys stay |
| Stores.MemoryStore.Load | actix-login/src/session_store.rs:76-94 | returns the state of an unexpired record; a key that yields nothing holds no record afterwards |
| Stores.MemoryStore.Save | actix-login/src/session_store.rs:96-104 | stores under the generated key and returns it |
| Stores.MemoryStore.Update | actix-login/src/session_store.rs:106-114 | writes under the given key whether or not it is stored, and returns it |
| Stores.MemoryStore.UpdateTtl | actix-login/src/session_store.rs:116-131 | moves the expiry of a stored record, expired or not, and stores nothing new |
| Stores.MemoryStore.Delete | actix-login/src/session_store.rs:133-140 | removes the record and no other |
| Stores.SqliteStore.Upsert | examples/sqlite/src/web/sessions.rs:75-100 | the row holds the state and the expiry rounded down to seconds; other rows stay |
| Stores.SqliteStore.Load | examples/sqlite/src/web/sessions.rs:108-127 | returns the state of a row whose expiry second is after the current one, changing nothing |
| Stores.SqliteStore.Save | examples/sqlite/src/web/sessions.rs:129-141 | stores under the generated key and returns it |
| Stores.SqliteStore.Update | examples/sqlite/src/web/sessions.rs:143-154 | writes under the given key whether or not it is stored, and returns it |
| Stores.SqliteStore.UpdateTtl | examples/sqlite/src/web/sessions.rs:156-169 | moves the expiry of a stored row, and stores nothing new |
| Stores.SqliteStore.Delete | examples/sqlite/src/web/sessions.rs:171-179 | removes the row and no other |
| Stores.SqliteStore.DeleteExpired | examples/sqlite/src/web/sessions.rs:52-59 | keeps exactly the rows whose expiry second is not before the current one |
| Stores.SqliteStore.ContinuouslyDeleteExpired | examples/sqlite/src/web/sessions.rs:62-73 | has the effect of one sweep per tick, for any finite number of ticks |
| TimedMap.MemoryRefinesTimedMapIff | actix-login/src/session_store.rs:64-140 | at every point of a history the in-memory store answers each load as a map that never drops anything, if and only if the history never extends the expiry of a key that a load dropped |
| TimedMap.SqliteRefinesRoundedMapIff | examples/sqlite/src/web/sessions.rs:75-179 | at every point of a history, sweeps included, the SQLite store answers each load as that map with both instants rounded down, if and only if the history never extends the expiry of a key that a sweep took |
| TimedMap.SqliteRefinesMemoryIff | examples/sqlite/src/web/sessions.rs:103-127 | fed the same history, SQLite loads what memory holds, in whole seconds, if and only if no expiry is extended that only one of them still has |
| TimedMap.SqliteMissesOnlyLastSecond | examples/sqlite/src/web/sessions.rs:108-127 | in such a history what SQLite loads memory loads, equally, and SQLite misses a live record exactly in its last partial second |
| TimedMap.SweepIsInvisibleIff | examples/sqlite/src/web/sessions.rs:52-59 | removing all sweeps from a history changes no load at any point of it, if and only if it never extends the expiry of a swept key |
| TimedMap.LoadBeforeExtending | actix-login/src/session_store.rs:205-215 | an expired record is revived by extending it, in step with the map, but not if it was loaded before |
| TimedMap.SweepBeforeExtending | examples/sqlite/src/web/sessions.rs:156-169 | in SQLite a row that is no longer live is revived by extending it, but not if a sweep took it before, where it differs from the map and from memory |
| Sessions.AuthSession.FromSession | actix-login/src/session.rs:217-254 | yields the auth session that the stored datum and the backend determine, purging a stale one; an error leaves the session alone |
| Sessions.EstablishedFailsIff | actix-login/src/session.rs:222-230 | establishing fails exactly if the stored datum is of another kind, or the backend is asked and does not answer; without a datum there is neither user nor data |
| Sessions.AuthSession.Login | actix-login/src/session.rs:176-192 | user, data and the stored value become those of the user; a session without auth hash is renewed |
| Sessions.AuthSession.Logout | actix-login/src/session.rs:196-207 | returns the user that was logged in and leaves no user and an empty, purged session |
| Sessions.AuthSession.UpdateSession | actix-login/src/session.rs:209-215 | writes the data under the data key, unless the session is purged |
| Handlers.RequestIsCoherent | actix-login/src/session.rs:176-251 | after any sequence of logins, logouts, writes under other keys and flash messages, the data is the user's id and hash and is what the session stores, or the session is purged and empty |
| Flash.SessionMessageStore.Load | examples/sqlite/src/web/sessions.rs:201-212 | returns the stored messages, none if there are none, and an error for another kind of value |
| Flash.SessionMessageStore.Store | examples/sqlite/src/web/sessions.rs:214-238 | on a live session the next load gives what was stored, also for the empty list |
| Flash.LastStoreShows | examples/sqlite/src/web/sessions.rs:214-238 | of any number of stores only the last one shows |
| Flash.EmptyStoresAreInvisible | examples/sqlite/src/web/sessions.rs:222-227 | empty stores leave a session without messages as it was, status included |
| Access.GetAllPermissions | actix-login/src/backend.rs:170-180 | the union of user and group permissions, or the first error |
| Access.MatchesMeans | actix-login/src/require/predicate.rs:217-225 | in every iteration order Any is a nonempty intersection, All is inclusion, Exact is equality |
| Access.ModesRelate | actix-login/src/require/predicate.rs:86-93 | Exact implies All, All implies Any for a nonempty set, more grants never revoke Any or All, and an empty set is always All and never Any |
| Access.SinglePermission | actix-login/src/require/predicate.rs:171-194 | a new predicate for one permission allows exactly the users for whom `has_perm` answers true |
| Access.NewPredicateAllowsIff | actix-login/src/require/predicate.rs:170-177 | a predicate that is only created allows a user exactly when both permission queries succeed |
| Access.BuiltPredicate | actix-login/src/require/predicate.rs:179-194 | of several lists the last one counts, setters commute, and the mode decides by some, every or exactly the permissions in the list, duplicates and order aside |
| Access.AllowIff | actix-login/src/require/predicate.rs:202-236 | when a request is allowed and when it counts as unauthenticated, for both policies and with failing backends |
| TestBackends.TestBackend.PermissionsOfGroups | actix-login/src/backend.rs:290-321 | a permission is granted exactly when some group with that member has it |
| TestBackends.TestBackend.AddUser | actix-login/src/backend.rs:237-241 | gives the user exactly these permissions and changes nobody else's |
| TestBackends.TestBackend.AddGroup | actix-login/src/backend.rs:243-247 | a new group has no members, so nobody's permissions change |
| TestBackends.TestBackend.AddUserToGroup | actix-login/src/backend.rs:249-253 | the user gains exactly the group's permissions, nobody else gains any, and an unknown group has no effect |
| TestBackends.SingleGrant | actix-login/src/backend.rs:274-321 | with this backend a predicate for one permission allows exactly the users who have it themselves or through some group |
| Service.RequireService.Call | actix-login/src/require/service.rs:82-110 | answers with an internal error exactly without an auth session, runs the inner service only with a user, and asks to log in exactly if there is none |
| Service.AuthManager.constructor | actix-login/src/service.rs:231-237 | without a configured data key the key is `actix-login.data` |
| Service.AuthManager.Call | actix-login/src/service.rs:62-99 | puts the established auth session into the request, so the gate never misses it; behind the gate the user is the one the stored datum and the backend agree on |
| Protocol.StepKeepsInv | actix-login/src/session.rs:176-254 | every step of every interleaving keeps stored data proven by logins, requests coherent, keys issued, and a user behind the gate |
| Protocol.RunKeepsInv | actix-login/src/session.rs:176-254 | so every world of every run satisfies the invariant |
| Protocol.SerialRunKeepsOneHolder | actix-login/src/session.rs:217-254 | in serial runs no two requests ever hold one key, renewed and fresh keys included |
| Lifetimes.StoredDataComesFromLogins | actix-login/src/session.rs:185-189 | each auth datum in the store, in every world of every run, is the id and hash of an earlier login step |
| Lifetimes.BeginsAuthenticatedIff | actix-login/src/session.rs:222-244 | a request begins with a user exactly when its cookie loads a live record with that user's id and hash and the backend returns this user |
| Lifetimes.BeginsPurgedIff | actix-login/src/session.rs:233-244 | and with a purged session exactly when its cookie loads a live record of a user whose hash in the backend is another |
| Lifetimes.DeletedUserIsOut | actix-login/src/session.rs:222-230 | once the backend no longer returns a user, no request begins as this user, whatever the stores still hold |
| Provenance.StoredDataWasEarned | actix-login/src/session.rs:176-192 | in every interleaving, each auth datum under a key was earned for that key: an earlier commit handed the key to the client of a request that itself logged in with this datum |
| Provenance.AuthenticatedKeyWasEarned | actix-login/src/session.rs:222-244 | so a request begins as a user only with a key that was handed out for a login as that user |
| Lifetimes.StaysAbsentIff | actix-login/src/session_store.rs:64-140 | through any stretch of any run, in any interleaving, a deleted record stays away if and only if no request that still holds its key commits a changed session |
| Lifetimes.EndingIsSticky | actix-login/src/session.rs:196-207 | whatever a request does after its session is purged or renewed, it stays so |
| Lifetimes.LogoutRetiresKeyIff | actix-login/src/session.rs:196-207 | in any interleaving, after a committed logout the record of the request's key is gone at once, and for as long as no overlapping request writes it back |
| Lifetimes.LoginRenewsKeyIff | actix-login/src/session.rs:181-183 | the same after a committed login to a session without auth hash |
| Lifetimes.StaleSessionEndsIff | actix-login/src/session.rs:233-244 | a request on a session whose hash the backend no longer has sees no user, and once it commits the same holds of its record |
| Lifetimes.LogoutRetiresKey | actix-login/src/session.rs:196-207 | so in serial runs a committed logout retires the key for the rest of the run |
| Lifetimes.LoginRenewsKey | actix-login/src/session.rs:181-183 | in serial runs so does a committed login to a session without auth hash |
| Lifetimes.StaleSessionEnds | actix-login/src/session.rs:233-244 | in serial runs, once such a request commits, no later request with the key has a user, even if the hash is changed back |
| Lifetimes.StaleUserReturnsIff | actix-login/src/session.rs:233-244 | in serial runs a later request with that key has a user exactly when the stale request failed, the record is live and the backend's hash is the record's again |
| Witnesses.OverlapRestoresLogin | actix-login/src/session_store.rs:106-114 | for every login and keys there is a run in which an overlapping request commits a change after the logout and the next request begins as the logged-out user |
| Witnesses.FailedRequestKeepsStaleSession | actix-login/src/session.rs:233-244 | there is a serial run in which a stale request fails, the hash is changed back and the next request has the user |
| Persistence.LoginReturnsKeyIff | actix-login/src/session.rs:176-192 | a committed login leaves the client with a session key if and only if the session was not purged before; on a purged one it stores nothing, although its request has the user |
| Persistence.CommitEstablishes | actix-login/src/session_store.rs:96-114 | that key's record holds the login for the whole ttl |
| Persistence.KeptStep | actix-login/src/session.rs:217-254 | every step of any other request, and every step of requests on the key that does not log out or in as someone else, keeps the login |
| Persistence.LoginPersists | actix-login/src/session.rs:176-254 | in any interleaving and with either store, a later request with the returned key, before expiry, without a logout or other login on it and with the user unchanged, begins as that user, if nobody else held the key when the login committed |
| Persistence.NobodyElseHolds | actix-login/src/session.rs:181-183 | that premise holds for every fresh key, so for every login to a session without auth hash, and in serial runs for every key |
| Persistence.GateAdmitsUserIff | actix-login/src/require/service.rs:82-110 | a request that began as a user passes the gate if and only if the policy permits what the user is granted |
| Persistence.LoginPassesGate | actix-login/src/require/service.rs:82-110 | so whoever logged in and returns in time reaches a service that requires a user |
| Witnesses.LoginRunExists | actix-login/src/session.rs:176-254 | for every user and generated key some serial run logs in, commits and begins a request as that user |
| Persistence.EntersAtMostOnce | actix-login/src/require/service.rs:100-101 | in every run each request enters the inner service at most once, given that the gate decides at most once on it |
| Persistence.GateAdmitsOnlyVerifiedUsers | actix-login/src/require/service.rs:82-110 | a request passes the gate only with a user that its own live record and the backend agreed on when it began |
| Persistence.ProtectedHandlerFindsUser | actix-login/src/require/predicate.rs:58-70 | behind the gate the auth session has a user, one that logged in earlier, until the handler logs out |
| Middleware.Perform | actix-login/src/session.rs:176-215 | any sequence of handler operations on the objects has the effect of the operations on values |
| Middleware.HandleRequest | actix-login/src/service.rs:62-99 | load, establish, pass the gate, handle and commit on the mutable objects end with the store, the answer and the cookie of a whole request on values; a refused request does not run the handler and an error commits nothing |
| Middleware.AdmittedTakesEffect | actix-login/src/service.rs:62-99 | a request that gets through runs its whole handler: what that leaves in a live session is what the returned key loads until the ttl is over, and after a purge there is neither key nor record |
| Middleware.RefusedHasNoEffect | actix-login/src/require/service.rs:102-107 | a request that is refused leaves what one without a handler leaves, whatever its handler would do |
| Middleware.ServedLogin | actix-login/src/session.rs:176-192 | a visitor without a session who logs in gets the generated key, under which exactly the login is stored |
| Middleware.RunServesRequest | actix-login/src/service.rs:62-99 | the steps of a run that serves one request, on an open or guarded route and with a failing backend too, end with the same store, answer and cookie, for either store |
| RunStores.RunAnswersIff | actix-login/src/session_store.rs:64-140 | in every run of any interleaving, with either store, each load in every world is that of the map that never drops anything (in whole seconds for SQLite), if and only if no commit extends the expiry of a record that a load or a sweep has dropped |
| RunStores.SerialRunAnswersIff | examples/sqlite/src/web/sessions.rs:75-179 | in serial runs, if and only if no commit extends the expiry of a record that is gone |
| RunStores.MemoryRunAnswersAsTimedMap | actix-login/src/session_store.rs:64-140 | in serial runs on the in-memory store none does, so every load in every world is that of the map |
| Witnesses.SweptSessionIsLost | examples/sqlite/src/web/sessions.rs:156-169 | there is a serial SQLite run in which a session is swept in flight: the commit extends nothing, hands out the key, and no longer answers as the map |
| Witnesses.DroppedSessionIsLost | actix-login/src/session_store.rs:116-131 | there is an overlapping in-memory run with the same loss |

## Left out

- Actix plumbing (`Transform`, `EitherBody`, boxed futures, `poll_ready`, tracing spans, `Debug`): no behaviour to state.
- Authority-form login URLs: the model refuses them; `http` parses them, but refuses the URL that is rebuilt from them, so both end in an error.
- Fragments of login URLs are dropped, as the `http` crate does, and not modelled further.
- Constant-time comparison of hashes: modelled as equality, without its timing.
- Cookie signing and key randomness: a cookie is the key it carries, generated keys are fresh.
- JSON texts of session values: replaced by the round trip assumption above; a row that does not deserialize does not occur.
- Password hashing, OAuth, SQL pools, templates, `main.rs`, `build.rs`, `app.rs`: I/O or user interface.
- The macros of `middleware.rs` and the setters of `require/builder.rs` and `handler.rs`: expansions and field copies.
- Closures as decision predicates or handlers: the two predicates of the crate are modelled.
- Mutex poisoning, overflow of instants, and failing inserts: locks and inserts succeed.
- Direct use of `Session::purge`, `renew` and `clear` by a handler: handlers log in or out, and insert and remove under other keys.
- Stores.SqliteStore.ContinuouslyDeleteExpired: states the effect of finitely many ticks, because the task runs until it is cancelled; sweeps between other operations are in `TimedMap` and `Protocol`.
- Middleware.HandleRequest: is stated for the in-memory store; `Middleware.RunServesRequest` and the other theorems over runs cover both stores.

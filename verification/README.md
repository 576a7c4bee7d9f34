# Howdah sessions, verified

Howdah keeps a user's OIDC session behind one cookie. The session itself lives
in the cookie, sealed, or in a Postgres row that the cookie names. This project
models the parts of Howdah whose correctness does not show in any one function,
and proves what they promise together:

* **The refresh protocol of the Postgres store.** Any number of callers on any
  number of replicas share one row. They race for a lease with a conditional
  UPDATE, exchange a refresh token that the provider may rotate, and write back
  fenced on a nonce. `SessionRows` is the table and its statements,
  `RowHistory` what every run of statements keeps of a row, `RotationSafety` the
  fleet against a rotating provider, and `RefreshWorld`, `RefreshLoop`,
  `RefreshMeaning`, `OwnLeases`, `OwnWrites`, `Polling` and `DeadHolder` one call
  of `Refresh` against an arbitrary environment. `RefreshMethod` is the imperative loop, proved equal to
  the loop of `RefreshLoop`. `Sweep` is the batch delete of expired rows.
* **Keys, envelopes and lifetimes.** `Keyring` and `Envelope` are the sealing key
  chosen by time and the envelope it writes, `Vault` the ledger of everything
  sealed, `CookieStore` and `PgStore` the life of a session in each store.
* **The request side.** `RequestAuth` is cookie handling over an arbitrary store,
  `EndToEnd` the request over the Postgres store.
* **Document forms.** `DocForm` is the form and its components, `FormLens` the
  proof that a form is a lens over a document's blocks.

Check everything with `dafny verify dfyconfig.toml`.

## What is assumed

* A statement is atomic and runs at one instant, and the `now()` of a statement
  is later than that of every earlier one. Sweeps are the exception: they lock
  and delete in two steps.
* Lease nonces and session handles are fresh, and the hash that makes a row id
  of a handle does not collide on handles that were issued. In `RefreshWorld`
  this is not a hypothesis: the environment may propose anything, and what
  breaks these rules is not admitted.
* The clock of a process and that of the database run at the same rate, at any
  offset (`skew`). In `CookieStore` and `PgStore` the replicas' clocks agree.
* Sealing is an ideal AEAD with a ledger of what was sealed: an envelope opens
  only under the key, nonce and additional data it was sealed with, and no nonce
  and body are drawn twice. The base64url codec has a left inverse and nothing
  more.
* Nothing bounds how long a holder of the lease takes to post the refresh token.
  In `RotationSafety` that time is a parameter, `delta`. What happens between a
  caller and the provider may share an instant, statements may not.
* In `PgStore` a handle is re-sealed and a payload rewritten only once the row
  exists, and `Create` inserts the row at most `lag` after sealing for it. That a
  rewritten payload keeps its subject and id token is not assumed but proved.
* An error is the set of the sentinels that `errors.Is` finds in it.

## Where the code and its comments differ

The model follows the code.

* tokenstore/pgstore/refresh.go:102-104 and 193-196 say that a fenced-out write
  means that somebody else's write landed. A takeover of the lease alone fences a
  write out too. The claim holds exactly for callers that write back no later than
  the instant after their lease (`RowHistory.LostWriteIsAnsweredIff`), and for
  every lease and every later write-back there is a run in which it fails
  (`RowHistory.LostWriteWithoutAnswer`).
* tokenstore/pgstore/refresh.go:23-27 says that the cap on `lostWriteReads` ends
  the loop. The counter is 0 or 1 whenever a pass starts, so the cap of 2 is
  never reached. What ends the loop is that every pass that comes round again has
  read a row that was not expired: `RefreshLoop.PassProgresses`.
* That a retired key may be dropped once it has been superseded for the maximum
  session age is true of the cookie store and off by the time between sealing
  and INSERT in the Postgres store: `Create` seals the handle and the payload
  first, and the row's lifetime starts at the INSERT's `now()`.
  `PgStore.RetiringAKeyIsSafe` has the exact bound and
  `PgStore.RetirementMustWaitOutTheLag` a run that meets it.
* `checkTokenExpiry` checks what `Refresh` returned for a missing token, and then
  replaces it by what `Reseal` returned unchecked.
  `RequestAuth.ResolvedSessionHasTokenUnlessResealDropsIt` says exactly when a
  request goes on without a token. Neither of the two stores lets that happen:
  `CookieStore.ResealKeepsTheSession` and `PgStore.ResealKeepsTheSession`.
* Overlapping sweepers may all return 0 with expired rows left, as
  tokenstore/pgstore/pgstore.go:586-593 says; `Sweep.ZeroMeansNothingForMe` has
  the exact condition.
* Applying a form that changes nothing may reorder a document: a component's
  blocks are gathered at the first of them (`DocForm.GetPutIffTogether`).

## Model

| member | source | states |
|---|---|---|
| `SessionRows.Apply` | tokenstore/pgstore/postgres/queries.sql:1-112 | the table after a statement is the row-by-row step under every id: no statement touches a row it does not land on |
| `SessionRows.SessionTable.constructor` | tokenstore/pgstore/postgres/queries.sql:1-9 | a new table has no rows |
| `SessionRows.SessionTable.CreateSession` | tokenstore/pgstore/postgres/queries.sql:1-9 | inserts exactly one row, expiring at now plus the maximum age, and fails on a taken id without a change |
| `SessionRows.SessionTable.GetSession` | tokenstore/pgstore/postgres/queries.sql:11-16 | reads the row under the id and changes no row |
| `SessionRows.SessionTable.UpdateSession` | tokenstore/pgstore/postgres/queries.sql:18-27 | leaves exactly that row with the new payload, refreshed now, no lease, no nonce and no failure marker, every other column and row as it was, and counts it |
| `SessionRows.SessionTable.DeleteSession` | tokenstore/pgstore/postgres/queries.sql:29-30 | removes exactly that row, and counts it |
| `SessionRows.SessionTable.DeleteSubjectSessions` | tokenstore/pgstore/postgres/queries.sql:32-33 | removes a row exactly if it has the subject, and counts them |
| `SessionRows.SessionTable.DeleteExpiredSessions` | tokenstore/pgstore/postgres/queries.sql:47-55 | removes those of the batch that are past their expiry, and counts them |
| `SessionRows.SessionTable.TakeRefreshLease` | tokenstore/pgstore/postgres/queries.sql:75-84 | takes the lease exactly if none runs, both polled columns are as seen and the row has not expired; then lease end and nonce are all that changes, and the row is returned |
| `SessionRows.SessionTable.CommitRefresh` | tokenstore/pgstore/postgres/queries.sql:91-101 | writes exactly if the row carries the nonce, and then leaves the columns UpdateSession leaves |
| `SessionRows.SessionTable.FailRefresh` | tokenstore/pgstore/postgres/queries.sql:107-112 | marks the failure exactly if the row carries the nonce, and then leaves no lease and no nonce and every other column as it was |
| `RowHistory.FenceIsCompareAndSwap` | tokenstore/pgstore/postgres/queries.sql:91-112 | in every legal run, a commit or a failure of a lease lands if and only if nothing at all landed on the row since the lease, and it then replaces the very row the lease returned |
| `RowHistory.LandedFenceHasLease` | tokenstore/pgstore/refresh.go:259-272 | a row that carries a nonce got it from a lease with that nonce, and nothing landed since |
| `RowHistory.ReadVerdict` | tokenstore/pgstore/refresh.go:136-158 | a later read finds refreshed_at newer exactly if a token write landed in between, and short of that a newer failure marker exactly if a failure did |
| `RowHistory.NoAba` | tokenstore/pgstore/postgres/queries.sql:79-83 | once a commit, update or failure lands after a read, the lease guard of that read is false for ever, at every instant, and every later row has moved; that the next read then ends the call is `Polling.NextReadEnds` |
| `RowHistory.MovedOrUnmoved` | tokenstore/pgstore/refresh.go:136-158 | every later row is either moved for good or exactly as seen, never a third thing |
| `RowHistory.RevocationIsFinal` | tokenstore/pgstore/postgres/queries.sql:29-55 | a row that was there and is gone stays gone whatever runs next, and nothing lands on it |
| `RowHistory.LifetimeIsFixed` | tokenstore/pgstore/postgres/queries.sql:1-27 | creation, expiry and subject of a row never change in any run |
| `RowHistory.WriteFreesTheLease` | tokenstore/pgstore/postgres/queries.sql:18-112 | after a commit, update, failure or insert that landed, and until something else lands, whoever asks with the columns as they stand gets the lease, at every instant before the row expires |
| `RowHistory.LeasesAreSpaced` | tokenstore/pgstore/postgres/queries.sql:75-84 | two leases with no write in between are more than one lease length apart |
| `RowHistory.LeasesInAnInterval` | tokenstore/pgstore/postgres/queries.sql:75-84 | a stretch of length d without a write sees at most 1 + d / lease exchanges started |
| `RowHistory.OwnLeasesAreTwoApart` | tokenstore/pgstore/refresh.go:160-200 | a caller that asks again after a fenced-out write, with the columns of its first read, gets the lease more than two lease lengths after its last |
| `RowHistory.PromptLostWriteIsAnswered` | tokenstore/pgstore/refresh.go:192-200 | a write-back no later than the instant after its lease that is fenced out finds the row moved at every later read |
| `RowHistory.LostWriteIsAnsweredIff` | tokenstore/pgstore/refresh.go:99-108 | for every lease and every delay of the write-back: all fenced-out writes of that delay find the row moved if and only if the delay is at most the lease plus one instant |
| `RowHistory.LostWriteWithoutAnswer` | tokenstore/pgstore/refresh.go:288-301 | for every lease and every later write-back, a run in which a takeover alone fences the commit out and the row is unmoved |
| `StoreConf.Validate` | tokenstore/pgstore/pgstore.go:296-336 | accepts a configuration exactly if all durations are positive, the margin is not negative and the lease is longer than round trip and write-back together |
| `StoreConf.DefaultsAreAccepted` | tokenstore/pgstore/pgstore.go:252-282 | the default configuration is accepted, and so is the default wait with every other accepted lease |
| `RotationSafety.StepKeeps` | tokenstore/pgstore/refresh.go:160-286 | every step of every caller keeps the invariant: one live lease, owned by the row, holding the provider's current token |
| `RotationSafety.RotationIsSafe` | tokenstore/pgstore/refresh.go:72-286 | in every disciplined run of any number of callers no two exchanges are in flight, each posts the current refresh token, none is refused as stale, and whenever none is in flight the row holds the current token |
| `RotationSafety.PromptRunsAreSafe` | tokenstore/pgstore/pgstore.go:321-336 | if the lease covers the time to the post, the round trip and the write-back, every run that honours the timeouts is disciplined, and so safe |
| `RotationSafety.LeaseBoundIsExact` | tokenstore/pgstore/pgstore.go:321-336 | for every configuration and every bound on the time to the post: in no prompt and clean run do exchanges overlap if and only if the lease covers the three together |
| `RotationSafety.AcceptedConfLeavesTime` | tokenstore/pgstore/pgstore.go:296-336 | of configurations with positive timeouts, validate accepts exactly those that leave a holder some positive time to post without risking an overlap |
| `RotationSafety.ShortLeaseDoublesTheExchange` | tokenstore/pgstore/pgstore.go:321-333 | for every configuration whose lease does not cover the three, a prompt and clean run with two exchanges of one refresh token in flight |
| `RotationSafety.CommitErrorStrandsTheSession` | tokenstore/pgstore/refresh.go:253-268 | a commit that errors after a rotation leaves a token in the row that the provider refuses, with nothing else amiss |
| `RotationSafety.LostAnswerStrandsTheSession` | tokenstore/pgstore/refresh.go:226-234 | so does an answer lost after the provider rotated, although no statement errored |
| `RotationSafety.DeathMidExchangeStrandsTheSession` | tokenstore/pgstore/refresh.go:253-268 | so does a refresher that dies between the answer and its write-back |
| `RotationSafety.UpdateDoublesTheExchange` | tokenstore/pgstore/pgstore.go:446-454 | an out-of-band Update during an exchange lets a second one of the same token start, even if it writes the current token |
| `RefreshWorld.OthersAreFree` | tokenstore/pgstore/postgres/queries.sql:1-112 | other callers may run any statement at any later instant, as long as nonces and handles are fresh and this call's nonces are not presented |
| `RefreshLoop.PassProgresses` | tokenstore/pgstore/refresh.go:93-203 | a pass that comes round again leaves strictly less of the session's life, keeps the history legal, and starts the next pass with a lost-write counter of 0 or 1 |
| `RefreshLoop.LoopIsLater` | tokenstore/pgstore/refresh.go:93-203 | the loop, which ends in every environment, only adds legal events to the history |
| `RefreshLoop.RefreshPasses` | tokenstore/pgstore/refresh.go:85-203 | every call is a finite sequence of passes, each started where the last came round, and answers what the last returns |
| `RefreshMeaning.RefreshMeansWhatItSays` | tokenstore/pgstore/refresh.go:72-366 | a returned session is the row at an instant of the call, field by field: fresh at the call's own first read, or found by its last read after a token write since, or committed by its own last statement with the token the provider granted to the leased refresh token; every sentinel an error wraps is explained: `ErrNoSession` by a row missing, expired or unopenable during the call, a rejection by a failure its last read found with no token written since its first, a cancellation by the environment, anything else by its own refused exchange; a timeout comes alone and not before the deadline |
| `RefreshMeaning.RevokedSessionIsNotRefreshed` | tokenstore/pgstore/refresh.go:117-134 | a call on a row that is gone answers `ErrNoSession`, or that its own statement errored, and the row stays gone |
| `OwnLeases.OwnExchangesAreSpaced` | tokenstore/pgstore/refresh.go:160-200 | the leases one call takes are more than two lease lengths apart, whatever everybody else does |
| `OwnLeases.OverdueReadFollowsLostWrite` | tokenstore/pgstore/refresh.go:93-115 | of every pass of every call but the first: the counter is 1 exactly if the pass before it took a lease and was fenced out, and the pass times out exactly if it starts at or past the deadline and that is not so |
| `OwnLeases.ExchangesAreBounded` | tokenstore/pgstore/refresh.go:72-204 | one call starts at most one exchange and one more for every two lease lengths the session has left |
| `OwnWrites.OwnWritesAreTrue` | tokenstore/pgstore/refresh.go:160-318 | of every call: leases are asked for with the configured length and the columns of its first read; every commit under its own nonce carries the leased payload with the token `exchange` granted for the leased refresh token, every failure a refusal of it; and a write-back that lands is its last statement and its answer, the granted token or the provider's error |
| `Polling.FirstPassDecides` | tokenstore/pgstore/refresh.go:117-148 | the first pass ends with an unusable read, answers a token with more than the margin left without drawing a nonce, and otherwise asks for the lease |
| `Polling.FreshReadEndsTheCall` | tokenstore/pgstore/refresh.go:136-148 | a first read with more than the margin left is the call's answer, and it takes no lease |
| `Polling.NextReadEnds` | tokenstore/pgstore/refresh.go:109-158 | once a token write or a failure has landed since the first read, or the row is gone, the next pass returns: the new session if a token was written, failure marker or not, else `ErrRefreshFailed`, else `ErrNoSession`, apart from a timeout and an errored read |
| `Polling.UnsettledReadAsksAgain` | tokenstore/pgstore/refresh.go:160-175 | a later pass whose read settles nothing asks for the lease again |
| `Polling.CallsBackOff` | tokenstore/pgstore/refresh.go:175-186 | the n-th wait of a call is 25 ms doubled n times, at most 500 ms, a lost write is no wait, and the call lasts at least as long as its waits |
| `Polling.PollEndsTheCall` | tokenstore/pgstore/refresh.go:93-203 | the same of every pass of every call: no pass follows, and the call answers that |
| `DeadHolder.DeadHolderIsTakenOver` | tokenstore/pgstore/refresh.go:85-111 | with the default wait, a call that began more than two step delays after a dead holder took the lease takes it over itself, within a poll of the lease's end, and every pass up to that one starts before the deadline; begun more than four delays after, it has the lease before the deadline |
| `RefreshMethod.Database.Run` | tokenstore/pgstore/postgres/queries.sql:1-112 | one statement on the table object is one recorded event of the world |
| `RefreshMethod.Database.Pause` | tokenstore/pgstore/refresh.go:381-391 | everybody else's turn, and at least the time waited for |
| `RefreshMethod.RecordFailure` | tokenstore/pgstore/refresh.go:302-348 | the failure marker is fenced, and a fenced-out one turns the failure into a lost lease |
| `RefreshMethod.RunTheExchange` | tokenstore/pgstore/refresh.go:208-286 | the exchange and its write-back on the table object are those of the loop function |
| `RefreshMethod.AskOrWait` | tokenstore/pgstore/refresh.go:160-202 | asks for the lease and waits, comes round again or answers as the loop function does |
| `RefreshMethod.ReadAndJudge` | tokenstore/pgstore/refresh.go:117-158 | reads the row and judges it against what the first read saw, as the loop function does |
| `RefreshMethod.OnePass` | tokenstore/pgstore/refresh.go:93-203 | one turn of the loop is one `Pass`, the deadline check and the lost-write counter included |
| `RefreshMethod.RefreshSession` | tokenstore/pgstore/refresh.go:72-204 | the imperative loop ends, and returns and leaves behind what the function `RefreshLoop.Refresh` says, of which the theorems above speak |
| `Sweep.BatchSize` | tokenstore/pgstore/pgstore.go:627-637 | refuses exactly the sizes that are not positive, and narrows the others to 32 bits |
| `Sweep.OldestFirst` | tokenstore/pgstore/postgres/queries.sql:52-52 | the order is by expiry and then by the id in lexicographic byte order |
| `Sweep.FirstOfIsBatch` | tokenstore/pgstore/postgres/queries.sql:49-54 | the batch has as many candidates as the limit allows and passes none over for a later one in (expires_at, id) order |
| `Sweep.BatchIsDetermined` | tokenstore/pgstore/postgres/queries.sql:51-54 | the order leaves one batch only: any two sets with that property are equal |
| `Sweep.StepKeeps` | tokenstore/pgstore/postgres/queries.sql:36-55 | every step of overlapping sweepers keeps batches disjoint, expired and within their limit, and every row accounted for |
| `Sweep.SweepsConserveRows` | tokenstore/pgstore/pgstore.go:578-609 | for every interleaving of sweepers and other statements, answers sum to the rows swept, each is swept once and only past its expiry, and rows left, swept and dropped add up to all there ever were |
| `Sweep.ZeroMeansNothingForMe` | tokenstore/pgstore/pgstore.go:586-593 | a sweep finds nothing if and only if every expired row is locked by another, and then the table is clean if and only if nothing is locked |
| `Sweep.BacklogFirst` | tokenstore/pgstore/postgres/queries.sql:47-55 | a single sweeper's batch takes the rows expired at its start before all others |
| `Sweep.BacklogRunsDown` | tokenstore/pgstore/pgstore.go:578-593 | whatever other callers create meanwhile, k sweeps by a single sweeper leave at most backlog - k * limit of the rows expired at its start |
| `Sweep.DeleteExpired` | tokenstore/pgstore/pgstore.go:594-609 | refuses a batch size that is not positive without a change, and else removes the determined batch and returns its size |
| `Sweep.SweepUntilClean` | tokenstore/pgstore/pgstore.go:578-593 | calling until 0 ends, the answers sum to the rows removed, and those are the expired rows and no others |
| `Keyring.CollectEntries` | cookie_keyring.go:86-188 | the validation loop accepts exactly if all secrets have the right length and no two keys share an id or an instant |
| `Keyring.NewCookieKeyring` | cookie_keyring.go:86-188 | builds a ring exactly if the keys are accepted and one is in force, and then a sorted, consistent ring of exactly those keys |
| `Keyring.FindSealingKey` | cookie_keyring.go:203-217 | the walk finds the specified sealing key, and finds none only if every use-after lies ahead |
| `Keyring.SealingKeyIsInForce` | cookie_keyring.go:203-217 | the sealing key exists exactly if a use-after has passed, and is the one key with the greatest passed use-after |
| `Keyring.AcceptedRingKeepsSealing` | cookie_keyring.go:165-188 | a ring accepted once can seal at every later time |
| `Keyring.CurrentIffNoBoundary` | cookie_crypto.go:211-260 | a value sealed at t1 is under the sealing key at t2 if and only if no use-after lies in (t1, t2] |
| `Keyring.SubringSealsAlike` | cookie_keyring.go:203-217 | a ring with fewer keys seals alike while it holds the key in force |
| `Envelope.ValidCookieName` | cookie_crypto.go:326-341 | accepts exactly the non-empty tokens of section 4.1.1 of RFC 6265 |
| `Envelope.LabelsAreInjective` | session_sealer.go:174-176 | session, auth-redirect and per-row labels never collide, for any valid names and any row ids |
| `Envelope.AadIsInjective` | cookie_crypto.go:272-282 | the additional data determines version, kind, key id and domain |
| `Envelope.PurposesAreSpelled` | cookie_crypto.go:287-308 | the purpose bytes are the strings of the source |
| `Envelope.FillHeader` | cookie_crypto.go:161-186 | the buffer the writer fills in place is version, kind, key id and nonce |
| `Envelope.RawParses` | cookie_crypto.go:211-247 | the reader's slices of an envelope are the fields it was written with |
| `Envelope.ForeignBytesAreRefused` | cookie_crypto.go:211-235 | bytes are refused as not sealed exactly if they are no envelope of a version from 1 to 16, and as of an unknown version exactly if they are one of 2 to 16 |
| `Envelope.OpensExactly` | cookie_crypto.go:211-260 | a sealed value opens as its plaintext exactly if kind and domain match and the key is in the ring, and else fails with the error of what did not match |
| `Envelope.NothingForged` | cookie_crypto.go:211-260 | whatever opens was sealed, with this kind, for this domain, under that key |
| `Vault.SealKeepsHonest` | cookie_crypto.go:161-186 | a seal adds one record, under the key in force, and changes no other |
| `Vault.SupersededBy` | cookie_keyring.go:203-217 | from the use-after of a later key on, nothing is sealed under the earlier |
| `Vault.WithoutOpensAlike` | cookie_crypto.go:211-260 | without a superseded key only values sealed under it before its supersession are lost |
| `CookieStore.ResealKeepsTheSession` | token_store_cookie.go:199-301 | a re-sealed session keeps its token, subject and issued-at, and its new value opens as that session until it expires |
| `CookieStore.MintedHandleOpensUntilExpiry` | token_store_cookie.go:133-175 | Get accepts a minted handle, under any ring, exactly while its key is in the ring and the login's expiry has not come, as the login's session with the token it was minted with |
| `CookieStore.AcceptedWasSealed` | token_store_cookie.go:133-175 | whatever Get accepts was sealed for this cookie as a session with a token and has not expired, and the answer is that session, stale exactly if its key no longer seals |
| `CookieStore.StepKeeps` | token_store_cookie.go:117-301 | Create, Update, Refresh and Reseal keep every session traced to its login, and forget none |
| `CookieStore.OpsMintWhatTheyAreGiven` | token_store_cookie.go:117-301 | each of them that is not refused, and exactly when is stated, hands out one session more, of its login and with the token it was handed (Reseal: the session's own), and Get of the new cookie answers that token |
| `CookieStore.AbsoluteExpiry` | token_store_cookie.go:117-301 | along every run, issued-at, expiry and subject of every descendant are the login's, and no ring accepts it at or past login plus maximum age |
| `CookieStore.RetiringAKeyIsSafe` | token_store_cookie.go:133-175 | after every run, from supersession plus the maximum age on, Get answers every cookie value alike with and without the key, up to the wording of a refusal |
| `PgStore.PayloadRoundTrips` | tokenstore/pgstore/payload.go:42-89 | a sealed payload opens as what it was under any later ring that has its key, and else as `ErrNoSession` |
| `PgStore.ResealKeepsTheSession` | tokenstore/pgstore/pgstore.go:514-536 | a re-sealed session differs in its handle only, the new value names the same row, and what the old value names does not change |
| `PgStore.AbsoluteExpiry` | tokenstore/pgstore/pgstore.go:345-536 | along every run, what Get accepts has the issued-at and expiry its row was inserted with and the subject and id token Create sealed for it, through every rewrite of the payload, and is never accepted at or past insertion plus maximum age |
| `PgStore.SealedHandleAnswers` | tokenstore/pgstore/pgstore.go:408-444 | what Get answers in full for a sealed handle and a sealed row, under any ring: accepted exactly while both keys are in the ring, the row is there and the maximum age has not passed, with the row's token, the login's identity, the handle given, and stale exactly if the handle's key no longer seals |
| `PgStore.AcceptedWasSealed` | tokenstore/pgstore/pgstore.go:408-444 | whatever Get accepts is a sealed handle and a row with a payload sealed for it, and the answer is what they say |
| `PgStore.PayloadCarriesTheToken` | tokenstore/pgstore/pgstore.go:455-497 | what Create, Update or a refresh seals for a row opens as the login's identity with the token it was handed |
| `PgStore.HandleNamesItsRow` | tokenstore/pgstore/pgstore.go:612-624 | a handle sealed for a row names that row, and is current exactly while its key seals |
| `PgStore.CreateIsRemembered` | tokenstore/pgstore/pgstore.go:345-405 | what Create fixed of a session, no later step changes |
| `PgStore.RetiringAKeyIsSafe` | tokenstore/pgstore/pgstore.go:408-444 | after every run, from supersession plus maximum age plus the seal-to-insert lag on, Get answers every cookie value alike with and without the key, up to the wording of a refusal |
| `PgStore.RetirementMustWaitOutTheLag` | tokenstore/pgstore/pgstore.go:345-400 | one instant earlier there is a run and a live session that a replica without the key refuses |
| `RequestAuth.CookieDiscipline` | application_auth.go:671-791 | for every store, at most one session Set-Cookie is written, it clears exactly if the request carried a cookie and resolution failed with `ErrNoSession` or `ErrRefreshRejected`, and a value that is put moves the handle and fits |
| `RequestAuth.NoSessionToGoOnWith` | application_auth.go:1285-1360 | what is answered and which cookie is cleared when there is no cookie, no session or no token |
| `RequestAuth.FreshSessionGoesOn` | application_auth.go:671-700 | a token with more than ten seconds left is answered as it is, and the cookie is replaced exactly if the session is stale and was re-sealed into another handle that fits |
| `RequestAuth.RefreshedSessionGoesOn` | application_auth.go:700-736 | else the answer is the token of what Refresh made of the session, re-sealed if stale; a handle that moved is set, with its expiry, or the request ends without a session if it does not fit |
| `RequestAuth.FailedRefreshGoesNowhere` | application_auth.go:700-736 | a refresh that fails fails the request the same way, and one without a token leaves no session |
| `RequestAuth.BrowserKeepsUp` | application_auth.go:700-736 | whoever goes on with a refreshed session leaves its handle in the browser |
| `RequestAuth.ResolvedSessionHasTokenUnlessResealDropsIt` | application_auth.go:671-736 | resolution goes on without a token if and only if a stale session was refreshed and Reseal returned one without a token |
| `RequestAuth.SetTokenCookie` | application_auth.go:1237-1275 | writes the cookie exactly if name, value and attributes fit the size limit, and else writes nothing |
| `RequestAuth.ClearTokenCookie` | application_auth.go:1362-1375 | writes one clearing cookie |
| `RequestAuth.RejectTokenCookie` | application_auth.go:1339-1360 | clears exactly if the failure says that the session is over |
| `RequestAuth.ReadTokenCookie` | application_auth.go:1285-1337 | writes what `ReadCookie` says, and a session it returns has a token |
| `RequestAuth.MigrateSessionCookie` | application_auth.go:778-791 | sets a cookie exactly if the handle moved and fits |
| `RequestAuth.CheckTokenExpiry` | application_auth.go:671-736 | writes and answers what `CheckExpiry` says |
| `RequestAuth.RequireAuth` | application_auth.go:450-540 | writes exactly the cookies of `Resolve`, and lets the request through, sends it to the login or reports the store unavailable accordingly |
| `RequestAuth.OptionalAuth` | application_auth.go:547-592 | writes exactly the cookies of `Resolve`, and goes on without a user whenever there is none |
| `RequestAuth.Keepalive` | application_auth.go:298-340 | writes exactly the cookies of `Resolve`, and answers 204, 401 or unavailable accordingly |
| `EndToEnd.RefreshGoneMeansOver` | application_auth.go:801-822 | with `exchangeToken`, a refresh error that ends the session means that the session is over |
| `EndToEnd.OnlyADeadSessionLosesItsCookie` | application_auth.go:671-745 | over the Postgres store, a cleared cookie implies that its value names no row, or the row was missing, expired or unopenable during the request, or an exchange was refused to an attempt that owned the lease when it recorded that or could not record it, or a re-sealed handle is too large |
| `EndToEnd.GetKeeps` | tokenstore/pgstore/pgstore.go:408-444 | Get against a concurrent history answers the row it read, field by field, and refuses exactly if that is missing, expired or unopenable, or the read errored |
| `EndToEnd.UpdateWritesTheToken` | tokenstore/pgstore/pgstore.go:455-503 | an Update that answered left a row that opens with the token it was given, with no lease and no failure marker, and answered that session |
| `EndToEnd.DeleteRemoves` | tokenstore/pgstore/pgstore.go:544-558 | once Delete has answered, the row is gone, and it fails only if its statement errored |
| `EndToEnd.DeleteOfNothing` | tokenstore/pgstore/pgstore.go:540-550 | deleting by a value that opens to nothing succeeds and changes nothing |
| `EndToEnd.LogoutIsFinal` | tokenstore/pgstore/pgstore.go:455-558 | after a Delete that answered, every later Get, Update or Refresh, on any replica, by any handle that names the row, is refused, and none brings the row back |
| `DocForm.ReplaceBlocks` | docform/form.go:96-148 | computes the specified replacement; the removed count is always 0 and the clamp never fires |
| `DocForm.PutGet` | docform/form.go:93-148 | after a replacement the component finds exactly its replacement, and what it does not own is unchanged and in order |
| `DocForm.OthersKeep` | docform/form.go:93-148 | a replacement leaves the blocks of a disjoint matcher as they are |
| `DocForm.PutPut` | docform/form.go:93-148 | a second replacement forgets a first that left anything behind |
| `DocForm.EmptyPutLosesThePlace` | docform/form.go:110-116 | after an empty replacement the next one goes last |
| `DocForm.GetPutIffTogether` | docform/form.go:93-148 | putting back what is there changes nothing if and only if the component's blocks stand together |
| `DocForm.StripPrefix` | docform/form.go:152-163 | in whatever order the keys are visited, keeps exactly the keys under the name and a dot, with that stripped |
| `DocForm.SharedFieldsIff` | docform/form.go:150-163 | two components can read a field in common if and only if one name with its dot begins the other |
| `DocForm.ParseValues` | docform/form.go:82-91 | one entry for each component name, holding its stripped fields |
| `DocForm.ApplyAll` | docform/form.go:62-80 | the loop is the components applied in turn |
| `DocForm.ExtractAll` | docform/form.go:24-38 | one block for each component, in order, of the blocks it owns |
| `FormLens.Compose` | docform/form.go:62-80 | one component first and the rest after is all of them in one walk |
| `FormLens.ApplyAllIsOneWalk` | docform/form.go:60-80 | for separate and tidy components, `ApplyAll` equals the one-walk reference on the original document, with the replacements each makes of its original blocks |
| `FormLens.EachFindsItsOwn` | docform/form.go:60-80 | after `ApplyAll` each component's blocks, among the meta blocks or the links, are exactly what it made of its own blocks of the document and of the fields under its name |
| `FormLens.OtherTargetsStay` | docform/form.go:72-77 | the content never changes, and meta blocks or links that no component targets do not either |
| `FormLens.UnmanagedBlocksStay` | docform/form.go:60-80 | blocks no component owns keep their contents and order |
| `FormLens.ReplacementSitsAtFirstMatch` | docform/form.go:93-95 | each replacement stands in one piece where the component's first match was: the unowned blocks before and after it are the ones before and after that match |

## Left out

- RotationSafety.RotationIsSafe: assumes that no commit errors, no answer is lost, nobody dies mid-exchange and no out-of-band Update runs, because it is false otherwise; each has a run that shows it.
- DeadHolder.DeadHolderIsTakenOver: assumes that nobody else intervenes and that no step is delayed by more than a bound.
- OwnLeases.ExchangesAreBounded: assumes that all replicas are configured with the same lease.
- Sweep.SweepUntilClean: has the table to itself; with other callers at work `BacklogRunsDown` bounds what is left of the rows expired at the start.
- FormLens.ApplyAllIsOneWalk: assumes disjoint matchers on one target and components that write only blocks they own, which the interface does not enforce.
- AES-GCM, SHA-256, base64, JSON and RFC 3339: library code, seen as an ideal AEAD, an injective hash, and codecs with a left inverse. The hex of a row id and the byte layout of the envelope are modelled.
- singleflight in `CookieTokenStore.Refresh`: only the body it runs is modelled.
- Postgres locking, pgx, migrations, contexts and timers: statements are atomic, and a statement may error with or without having run.
- OIDC discovery, token verification and the HTTP of the token endpoint: the provider is an exchange step that may refuse, answer, or rotate.
- Login, callback, logout handler and the auth-redirect cookie, apart from the label its value is sealed for.
- detachedDeadline: it bounds how long an exchange may take, which is a premise here.
- Reading keys from the environment and option functions: the model starts from the parsed key list and the resolved configuration. Two instants of keys are compared as numbers.
- Store.DeleteSubject and the nil checks of the store's methods: one branch each before a statement that is modelled.
- ValidateAll and rendering of document forms: they call one component each. newsdoc's `AllBlocks` and `DropBlocks` are taken to be order-preserving filters that copy.
- Page rendering, translations, menus, page mux, base path, languages and log levels: presentation.

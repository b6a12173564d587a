# A verified model of the payroll and escrow backend

The backend answers payment, escrow and agreement requests next to a chain
indexer. Most of what can go wrong in it goes wrong between steps: two processes
race for one idempotency key, a session is rotated while a request that carries it
is halfway through, the indexer inserts rows while a balance is being paged, a
backfill dies between two transactions. This project models those protocols in
Dafny and proves what they keep over whole runs, together with the algorithms that
must agree with a simple specification.

Run `dafny verify dfyconfig.toml` in this directory to check every proof. Nothing
here executes the original program.

## How the model is laid out

Each component has the same two layers. Code that updates shared state is a class
whose methods carry out the source's statements in place, with arbitrary
interference by other processes between them where the source awaits; each method
is proved against a function on values. The theorems are lemmas about those
functions, over sequences of steps of any length. In a run, a step that is not
enabled changes nothing, so every list of steps is a run.

| file | component |
|---|---|
| `IdempotencyStore.dfy`, `IdempotencyRuns.dfy` | the durable idempotency table, its claim protocol, the response wrapper of the limiter |
| `StableSerialize.dfy`, `KeyTies.dfy`, `JsonText.dfy` | the canonical printer behind request fingerprints, what it owes to the key comparison |
| `SessionTable.dfy`, `SessionSteps.dfy`, `SessionRuns.dfy`, `SessionAccess.dfy`, `SlidingThrottle.dfy` | session rows, rotation families, bulk revocation, sweeping, the write throttle |
| `ChallengeStore.dfy`, `VerifyProtocol.dfy` | login challenges and the `/auth/verify` handler |
| `AgreementIndex.dfy` | the in-memory agreement index and its reorg rollback |
| `EscrowBalance.dfy` | the offset-paged balance replay |
| `Keyset.dfy`, `EventList.dfy`, `AnalyticsRollup.dfy` | keyset paging, the event list, the analytics collector |
| `Backfill.dfy`, `BackfillRuns.dfy` | the checkpointed backfill and its crashes |
| `CircuitBreaker.dfy` | the RPC circuit breaker |
| `RecentlyUsed.dfy`, `AddressCache.dfy`, `AddressForms.dfy` | address normalisation behind its LRU |
| `TokenAmount.dfy`, `Text.dfy` | the exact decimal printer, shared text functions |
| `Common.dfy` | options, minimum, maximum |

## What the proofs found

Several properties hold only under a condition; each is stated with its exact
condition.

* One holder per idempotency key needs every operation to settle before its own
  record expires: no run gives a held key a second holder exactly up to that moment
  (`AloneUntilIffBeforeExpiry`). A newcomer whose statements come in a row takes it
  exactly from then on (`HeldKeyIsTakenIffOverrun`), and a late completion then
  records its response under the other request's fingerprint
  (`LateCompletionRecordsForeignResponse`).
* A recorded response is final exactly until its row expires
  (`AnswersUntilIffBeforeExpiry`): a claim that begins before and sends its INSERT
  after the sweep executes again (`RecordedThenExecutedAgain`), while one that still
  meets the row is answered by it however late (`AnsweredWhileRowStands`).
* Serialised bodies are independent of key order exactly when the key comparison
  ties no two distinct keys other than array indices (`InvariantIffNoTies`);
  `localeCompare` ties some, so this is a property of the runtime's collation. Array
  indices are exempt because every object lists them first and in ascending order.
* A rotation that is committed but answered with an error cannot be repeated: the
  old token is then reported as reused, which ends the family, the token nobody
  received included (`RetryAfterLostReply`).
* A sweep returns the number of deleted rows exactly when no attempt deleted rows and
  then threw (`SweepExpiredSessions`).
* The stored expiry respects the absolute one exactly when the sliding lifetime is
  configured no longer than the absolute lifetime (`CapHoldsIffConfigured`).
* The write throttle costs 60 seconds less one millisecond, or the sliding lifetime
  if that is shorter, and no less; it costs nothing exactly when the absolute lifetime
  is no longer than the sliding one, or the sliding one is not positive (`LagIsExact`).
* Bulk revocation is total, whatever row its probe returns, exactly when there is
  nothing to revoke or no selected row is revoked yet (`BulkRevocationIsTotalIff`).
  After the logout of one of two sessions of an address, the call that revokes all
  of them may stop at the revoked row and leave the other token accepted
  (`LogoutHidesSession`).
* The challenge cap is not hard: a restore ignores it and exceeds it exactly when
  the store is full (`RestoreOvershootsIffFull`).
* The agreement index stays the plain list of its entries exactly as long as every
  removal is separable (`RunReflectsIff`): no entry that stays carries metadata of an
  agreement that goes, and the removal takes that agreement off exactly those users
  whom no staying entry names. Entries of one agreement that agree on parties and
  block always are; an agreement first indexed without a block and then with one is
  not (`UntrackedEntryLost`).
* A completed backfill gave every row its event exactly when the rows come from
  different transactions in none of which an event already sits at index 0
  (`CompletedRunIsTotalIffTransactionsFree`): the synthetic event takes index 0,
  and `(transaction_hash, event_index)` is unique.
* The backfill's checkpoint keeps milliseconds while the column holds microseconds, and
  the next call scans what is strictly older. With events that do not clash, no run
  loses a row exactly when no two missing rows fall in one millisecond
  (`NoRowIsLostIffMillisecondsApart`). Different timestamps are not enough: of two rows
  stamped 400 microseconds apart a call of one row may lose the second for good
  (`DifferentStampsLoseARow`).
* The analytics cursor keeps milliseconds as well, but points forward. No
  row is lost by it (`CollectorLosesNothing`), but a still table is collected as it
  is exactly when the last row of each full page is stamped at a whole millisecond
  (`StillTableCollectedIff`).
* The circuit breaker's pruned list counts all failures in the window exactly when
  none of them was cut off by an earlier prune, at whatever times the calls come
  (`PrunedCountExactIff`); a clock that does not run back never cuts one off.

## Model

| member | source | states |
|---|---|---|
| StableSerialize.EqualTextMeansSame | src/middleware/idempotency-store.ts:83-99 | two bodies that serialise alike are the same JSON value up to key order, for any key comparison: the printer is unambiguous |
| KeyTies.SerializeDecidesEquality | src/middleware/idempotency-store.ts:83-99 | with a tie-free key comparison, equal text and equality up to key order are the same thing |
| KeyTies.InvariantIffNoTies | src/middleware/idempotency-store.ts:83-99 | over values whose objects list their entries as the language does, key-order invariance holds exactly for the comparisons that never tie two distinct keys other than array indices |
| KeyTies.ListedTextDecidesEquality | src/middleware/idempotency-store.ts:83-99 | for such values and comparisons equal text and equality up to key order are the same thing, ties between array indices notwithstanding |
| KeyTies.SortAsListed | src/middleware/idempotency-store.ts:92-95 | the stable sort of listed entries breaks ties by the order of listing: array indices first and ascending |
| KeyTies.TieBreaksInvariance | src/middleware/idempotency-store.ts:83-99 | two distinct keys that tie and are no array indices make some pair of equal objects print differently |
| StableSerialize.PrintSelfDelimiting | src/middleware/idempotency-store.ts:83-99 | a printed value followed by any delimiter determines the value and the rest, through strings, escapes, arrays and objects |
| JsonText.SerializedIsJson | src/middleware/idempotency-store.ts:83-99 | the text is a JSON text, by the grammar of RFC 8259, of a value that is the same up to key order and whose objects list their members in the order of the comparison |
| JsonText.EscapeStandsFor | src/middleware/idempotency-store.ts:86-88 | every character inside a string is written as itself or by the escape that RFC 8259 gives it |
| JsonText.EscapeIsShort | src/middleware/idempotency-store.ts:86-88 | the escape has two characters where there is such a one, six lower-case ones for other control characters, and everything else is left as it is |
| KeyTies.FingerprintDecidesEquality | src/middleware/idempotency-store.ts:109-111 | with an injective digest, equal fingerprints mean equal bodies up to key order, and conversely, for comparisons that tie at most array indices |
| IdempotencyStore.ClaimStepProgress | src/middleware/idempotency-store.ts:240-313 | whatever other processes do between its statements, a claim ends after at most nine statements |
| IdempotencyStore.ClaimedMeansTakenOver | src/middleware/idempotency-store.ts:226-338 | a claim succeeds only by the statement that writes its own fresh row over a missing, failed or expired one; every other statement of a claim leaves the table alone |
| IdempotencyStore.ClaimGivesUp | src/middleware/idempotency-store.ts:240-338 | a claim that keeps losing a retryable row to other processes gives up after the fourth loss and no earlier; when the row is gone it inserts again if it has not lost yet, and gives up otherwise |
| IdempotencyStore.IdempotencyTable.Claim | src/middleware/idempotency-store.ts:166-179 | the claim loop under interference is a walk of the statement machine ending in the returned result, and the table is what its last statement left |
| IdempotencyStore.IdempotencyTable.ResolveExisting | src/middleware/idempotency-store.ts:240-313 | the recursion with its attempt bound, including the row that vanishes between two statements, is the same walk from where it starts |
| IdempotencyStore.IdempotencyTable.InsertClaim | src/middleware/idempotency-store.ts:226-238 | INSERT ON CONFLICT DO NOTHING: the whole new table and the row count |
| IdempotencyStore.IdempotencyTable.Reclaim | src/middleware/idempotency-store.ts:320-338 | the guarded UPDATE: the whole new table and the row count |
| IdempotencyStore.IdempotencyTable.Complete | src/middleware/idempotency-store.ts:189-195 | only an in-progress row is completed, by key and not by owner |
| IdempotencyStore.IdempotencyTable.Fail | src/middleware/idempotency-store.ts:203-209 | only an in-progress row is failed, by key and not by owner |
| IdempotencyStore.IdempotencyTable.CleanupExpired | src/middleware/idempotency-store.ts:219-224 | deletes exactly the rows expired at `now` and returns their number |
| IdempotencyStore.ResponseCapture.CaptureResponse | src/middleware/rate-limit.ts:427-449 | the first response body is captured and written once: a 5xx fails the record, anything else completes it, and an unreachable store changes nothing |
| IdempotencyRuns.AtMostOneHolder | src/middleware/idempotency-store.ts:166-338 | in every run in which holders settle in time, at most one client holds a key, its row is in progress, unexpired and carries its fingerprint, and every replayed response came from an execution of the same key and fingerprint |
| IdempotencyRuns.FreeKeyIsTaken | src/middleware/idempotency-store.ts:226-238 | in any state a claim of a key without a row executes and leaves its own fresh row, with a day to run |
| IdempotencyRuns.RowDecidesClaim | src/middleware/idempotency-store.ts:240-338 | in any state a claim of a key with a row, its statements in a row, executes exactly when the row has failed, however recently, or has expired; a completed row replays its response, or conflicts for another fingerprint, and one in progress says so; the table is given in each case |
| IdempotencyRuns.ResponseDecidesNextClaim | src/middleware/rate-limit.ts:427-449 | after a 5xx the next claim of the key executes at any clock; after any other response it gets that response or a conflict until the row expires |
| IdempotencyRuns.HeldKeyIsTakenIffOverrun | src/middleware/idempotency-store.ts:240-338 | in every state in which holders have the rows they claimed, a newcomer whose statements come in a row gets a held key exactly when the holder has outlived its own record, and then two clients run |
| IdempotencyRuns.AloneUntilIffBeforeExpiry | src/middleware/idempotency-store.ts:226-338 | from every state with one owner per key, no run whose clock stays within a horizon gives a held key a second holder, however statements are interleaved, exactly when the horizon ends before the holder's record expires |
| IdempotencyRuns.OverrunBreaksExclusion | src/middleware/idempotency-store.ts:320-338 | a run from the empty store in which two clients execute one key, because the first overran |
| IdempotencyRuns.LateCompletionRecordsForeignResponse | src/middleware/idempotency-store.ts:189-195 | the unfenced completion of the overrun client then stands under the other request's fingerprint |
| IdempotencyRuns.RecordedResponseIsFinal | src/middleware/rate-limit.ts:379-449 | once a response is recorded, every later claim that ends before the row expires replays exactly it, or reports a conflict for another fingerprint; it never executes, timely or not |
| IdempotencyRuns.RecordedStays | src/middleware/idempotency-store.ts:189-224 | no step changes a recorded row before it expires |
| IdempotencyRuns.StraddlingClaimExecutes | src/middleware/idempotency-store.ts:219-313 | for every recorded row and every later moment from its expiry on, a claim that arrives now and sends its INSERT then, after the sweep, executes |
| IdempotencyRuns.AnswersUntilIffBeforeExpiry | src/middleware/rate-limit.ts:379-449 | in every run whose clock stays within a horizon a later claim is only ever answered by the recorded row, exactly when the horizon ends before the row expires |
| IdempotencyRuns.AnsweredWhileRowStands | src/middleware/idempotency-store.ts:240-313 | a claim that arrived before the row expires is answered by it however late its statements meet it, as long as it stands |
| IdempotencyRuns.RequestIsRecorded | src/middleware/rate-limit.ts:379-449 | from the empty store every answer below 500 is recorded with the fingerprint and the expiry of its request |
| IdempotencyRuns.RecordedThenExecutedAgain | src/middleware/idempotency-store.ts:219-313 | so a run from the empty store executes the same request twice although its first answer was recorded in time |
| IdempotencyRuns.ReexecutionNeedsFailureOrExpiry | src/middleware/rate-limit.ts:379-449 | in every run, two successive claims of a key have a recorded failure or an elapsed expiry between them |
| IdempotencyRuns.LogIsWhatHappened | src/middleware/rate-limit.ts:379-449 | the log of a run has a claim for every client that begins to execute and a failure for every row that fails, and nothing else |
| SessionTable.Sessions.CreateSession | src/auth/session.ts:86-131 | a login inserts exactly the new row of a new family and returns its lifetime, or throws: on blank input, a taken hash or a database error, after which the row may be there although nobody has its token |
| SessionTable.Sessions.RequireSession | src/auth/session.ts:145-223 | validation reads and slides in two steps with anything in between: the verdict is that of the table read, the write touches only that row's expiry and last-seen time, and a database error of either is answered with false, even when the write took effect |
| SessionTable.Sessions.RotateSession | src/auth/session.ts:340-442 | rotation is one transaction: rotated, reused with the family revoked, or invalid, with the whole new table in each case; a database error is answered with invalid and leaves the old table, or the new one if only the reply was lost |
| SessionRuns.RetryAfterLostReply | src/auth/session.ts:363-442 | after a rotation that was committed but answered with invalid, presenting the old token at any later time is reported as reuse exactly while its row stands, and then leaves no live token in the family |
| SessionTable.Sessions.RevokeSelected | src/auth/session.ts:455-674 | bulk revocation by family or address stops early exactly when nothing was asked for or the probed row is revoked; otherwise, unless it fails, exactly the selected unrevoked rows become revoked and no other row changes |
| SessionTable.BulkRevocationIsTotalIff | src/auth/session.ts:455-472 | no selected row is left unrevoked, whatever row the probe returns, exactly when none was left before or no selected row is revoked |
| SessionTable.BulkRevocationMeans | src/auth/session.ts:455-674 | a bulk revocation revokes exactly the rows of the address or of the family asked for, besides those revoked before, and changes nothing else; it probes one of these rows, and does nothing if that is revoked or nothing was asked for |
| SessionRuns.LogoutHidesSession | src/auth/session.ts:578-590 | from any table: two logins of an address and the logout of the first, after which revoking all sessions of the address may probe the revoked row and leave the second token accepted |
| SessionTable.Sessions.RevokeInBatches | src/auth/session.ts:474-546 | the batch loop ends, and is exact whatever page the database picks and however often a batch is retried |
| SessionTable.Sessions.RevokeWithRetry | src/auth/session-retry.ts:62-95 | it succeeds exactly when one of the first three attempts does and those before it fail in a way that is retried; attempts that fail before or after taking effect are absorbed: at worst some of the rows are revoked, on success all, and no others |
| SessionTable.Sessions.RevokeSession | src/auth/session.ts:254-316 | revoking one token touches that row alone and is idempotent |
| SessionTable.Sessions.SweepExpiredSessions | src/auth/session.ts:773-871 | a completed sweep deletes exactly the expired or revoked rows, keeps rotated unexpired ones, and returns the number of deleted rows exactly when no attempt deleted rows and then threw |
| SessionTable.Sessions.DeleteWithRetry | src/auth/session-retry.ts:62-95 | the same three attempts; a retried delete has the effect of one delete, of none only if no attempt took effect, and returns the number of deleted rows unless an attempt deleted them and then threw, when it returns zero |
| SessionRuns.FamilySafety | src/auth/session.ts:340-442 | in every reachable table a family has at most one live token, one address and one absolute expiry, and no token of it is accepted later than the absolute lifetime after the first login |
| SessionRuns.CapHoldsIffConfigured | src/auth/session.ts:86-131 | every stored expiry stays within the absolute one in all runs exactly when the sliding lifetime is no longer than the absolute one |
| SessionRuns.DeadForever | src/auth/session.ts:145-223 | a rotated, revoked or deleted token is never accepted or rotated again in any later run |
| SessionRuns.KillingSteps | src/auth/session.ts:340-442 | revocation, deletion and rotation make a token dead, and rotation leaves exactly its successor live in the family |
| SessionRuns.ReuseKillsFamily | src/auth/session.ts:363-388 | a rotation that reports reuse leaves no live token in the family, one rooted at a row without family id included |
| SessionRuns.ReusedFamilyNeverSucceeds | src/auth/session.ts:363-388 | after a reported reuse no token of that family is accepted or rotated in any later run |
| SessionAccess.OnlyTheOwnerIsServed | src/auth/session.ts:145-223 | in every reachable state a token is accepted, rotated or reported as reused only for the wallet whose login its family began with, and a rotation asked for by another changes nothing |
| SessionAccess.OwnersStay | src/auth/session.ts:86-131 | no later step changes the wallet of a family |
| SessionAccess.LoginLastsItsLifetime | src/auth/session.ts:86-223 | as long as nobody writes, rotates, revokes or deletes it, a new token is accepted, and can be rotated, for its wallet exactly up to the shorter of the two lifetimes after the login; whatever else is asked of it is refused without effect |
| SessionAccess.SuccessorLastsItsLifetime | src/auth/session.ts:340-442 | the token a rotation hands out serves the same wallet for a sliding lifetime but not past the login's absolute one, and the lifetime answered is exactly that |
| SessionAccess.ValidationProlongs | src/auth/session.ts:176-204 | a validation prolongs the token to a sliding lifetime after its own time, but not past the absolute one, exactly when the last write is a minute old or there was none; with any steps between its read and its write that spare the token |
| SessionAccess.RevokedIsReuse | src/auth/session.ts:363-388 | a revoked token presented by its wallet is reported as reused |
| SessionAccess.SweepIsUnseen | src/auth/session.ts:773-790 | a sweep drops exactly the revoked rows and those whose time is over, and so changes no verdict of a later validation and no report of reuse about a row it keeps |
| SlidingThrottle.ThrottleSandwiched | src/auth/session.ts:176-204 | on every nondecreasing sequence of requests the throttled session accepts whatever an always-sliding session with 59.999 s less accepts, and nothing an always-sliding one rejects |
| SlidingThrottle.LagIsExact | src/auth/session.ts:55-58 | a slack suffices exactly when it reaches the smaller of 59.999 s and the sliding lifetime, or the absolute lifetime is no longer than the sliding one |
| ChallengeStore.Challenges.SweepExpiredChallenges | src/auth/challenge.ts:133-175 | the paginated sweep over a key snapshot and the full sweep: the whole new store |
| ChallengeStore.Challenges.CreateChallenge | src/auth/challenge.ts:212-252 | a creation counts, sweeps on schedule, returns the active nonce or makes room and issues a new one, or reports a full store: the whole new store and the answer |
| ChallengeStore.Challenges.GetChallenge | src/auth/challenge.ts:261-281 | a lookup drops the record it finds expired and leaves all others |
| ChallengeStore.Challenges.ConsumeChallenge | src/auth/challenge.ts:303-312 | an unexpired record is handed out and removed |
| ChallengeStore.Challenges.RestoreChallenge | src/auth/challenge.ts:330-342 | a record goes back only into an empty slot and before its expiry |
| ChallengeStore.Challenges.VerifyChallenge | src/auth/challenge.ts:361-391 | a record is found by its own nonce alone, and stays; only one found expired is dropped |
| ChallengeStore.ChallengeIsIssued | src/auth/challenge.ts:212-252 | a challenge is refused exactly when the address is unusable, or has no active challenge while a hundred thousand others are active; an active nonce is handed out again with its remaining time, otherwise the new one is stored for five minutes; no other active challenge is lost |
| ChallengeStore.IssuedIsTakenOnce | src/auth/challenge.ts:303-342 | an issued challenge can be read or taken up to five minutes later, taken once only, and put back within its time |
| ChallengeStore.LookupsFindActive | src/auth/challenge.ts:261-391 | reading, taking and checking find exactly the active record, checking only with its nonce, and none of them loses an active record of another address |
| ChallengeStore.RestoredIsFound | src/auth/challenge.ts:330-342 | a record comes back exactly into an empty slot and within its time, and changes nothing else |
| ChallengeStore.FiftiethCreationSweeps | src/auth/challenge.ts:220-224 | whatever happened since the store was empty, exactly every fiftieth creation drops the expired records among the next five hundred keys; another drops none unless the store is full |
| ChallengeStore.SweepsOnlyExpired | src/auth/challenge.ts:133-175 | no sweep removes or changes an unexpired record |
| ChallengeStore.PassAdvances | src/auth/challenge.ts:133-175 | a pass moves the cycle past the page it inspected, or ends it with nothing left that had expired when the cycle began |
| ChallengeStore.SweepCycle | src/auth/challenge.ts:133-252 | whatever creates, reads, consumes, restores and clears come between passes, a cycle inspects its snapshot in order, no key twice, and leaves no record that had expired at its start |
| ChallengeStore.EveryRunKeepsCycle | src/auth/challenge.ts:133-342 | the cycle invariant holds along every run of store operations |
| ChallengeStore.CycleEndsInTime | src/auth/challenge.ts:133-175 | a cycle that is not over has had fewer passes than its snapshot has pages left, in every run |
| VerifyProtocol.HandleVerify | src/routes/auth.ts:180-256 | the handler is a walk of the machine; its response is determined by what its awaits answer, the store its first move met and the signature check: locked out, no active challenge, bad signature, session granted or failed, and an error exactly when an await throws; the walk ends with the step of that response |
| VerifyProtocol.MovesAreSteps | src/routes/auth.ts:180-256 | each move of such a walk is what the machine's step does in any state, whatever the other requests are |
| VerifyProtocol.OneSuccessPerNonce | src/routes/auth.ts:180-256 | under every interleaving a nonce yields at most one successful response, only to a request whose signature over it is valid, and is nowhere else |
| VerifyProtocol.BuriedForever | src/routes/auth.ts:180-256 | nothing brings a nonce back after a rejected signature, a success or a lost verification |
| VerifyProtocol.RestoreIsConservative | src/auth/challenge.ts:330-342 | a restore puts back exactly its own record, only into an empty slot before its expiry, and never over a newer challenge |
| VerifyProtocol.StoreStaysBounded | src/auth/challenge.ts:238-248 | with at most k verifications in flight, stored and in-flight challenges together stay within the cap plus k |
| VerifyProtocol.RestoreOvershootsIffFull | src/auth/challenge.ts:330-336 | a restore leaves the store past the cap exactly when it was past it, or full while the record is unexpired and its slot empty |
| AgreementIndex.AgreementStore.AddAgreementToIndex | src/starknet/agreement-index.ts:142-195 | the three maps after an add, with the high-water block |
| AgreementIndex.AgreementStore.RemoveAgreementsAtBlock | src/starknet/agreement-index.ts:230-269 | the three maps after the entries of a block are removed, with and without metadata, and no empty list left behind |
| AgreementIndex.AgreementStore.RollbackToBlock | src/starknet/agreement-index.ts:281-303 | the loop over the blocks above the safe one removes them all at once, in effect |
| AgreementIndex.AgreementStore.GetUserAgreements | src/starknet/agreement-index.ts:197-202 | whatever plain list of entries the index mirrors, the ids of those that name the user |
| AgreementIndex.AgreementStore.GetPendingBlockRange | src/starknet/agreement-index.ts:313-321 | the range of blocks that could still be reorganised |
| AgreementIndex.RunReflects | src/starknet/agreement-index.ts:142-303 | after any adds, block removals and rollbacks, while live entries of an id agree, the three maps say exactly what the plain list of live entries says |
| AgreementIndex.IndexIsPlainList | src/starknet/agreement-index.ts:142-303 | the same from the empty index: `byUser` is the inverse of the parties relation with no empty sets |
| AgreementIndex.RemovalReflectsIff | src/starknet/agreement-index.ts:230-269 | removing blocks leaves the index of the entries that stay exactly when the two are separable: what stays carries no metadata of what goes, and exactly the users named by nothing that stays lose the agreement |
| AgreementIndex.RollbackReflectsIff | src/starknet/agreement-index.ts:281-303 | the same for a rollback and the blocks above its safe block |
| AgreementIndex.RunReflectsIff | src/starknet/agreement-index.ts:142-303 | along any adds, removals and rollbacks the index is the plain list before and after every operation exactly when every removal is separable |
| AgreementIndex.RemoveBlocksReflects | src/starknet/agreement-index.ts:230-269 | removing blocks leaves the index of the entries outside them |
| AgreementIndex.RemoveBlocksCompose | src/starknet/agreement-index.ts:230-269 | removing two disjoint groups of blocks in turn is removing their union |
| AgreementIndex.RollbacksCompose | src/starknet/agreement-index.ts:281-303 | rolling back to a and then to b is rolling back to the lower, head included |
| AgreementIndex.RollbackKeeps | src/starknet/agreement-index.ts:281-303 | a rollback keeps exactly the untracked entries and those up to the safe block |
| AgreementIndex.RollbackDropsPending | src/starknet/agreement-index.ts:313-321 | rolling back to just below the pending range drops exactly the pending blocks |
| AgreementIndex.PendingIsUnconfirmed | src/starknet/agreement-index.ts:313-321 | after any adds, removals and rollbacks a block is pending exactly when it lies less than the confirmation depth below the head, which is the highest block seen, lowered by rollbacks; nothing is pending while the head is 0 |
| AgreementIndex.UntrackedEntryLost | src/starknet/agreement-index.ts:230-269 | a reachable removal that is not separable: two adds of one id that disagree on the block |
| EscrowBalance.GetAgreementBalance | src/routes/escrow.ts:386-503 | the balance is the clamped sum of the counted events, funded less released less refunded, and the contract's answer when there is none or a query fails; on a table that stands still these are the sums of its own events |
| EscrowBalance.ReplayPage | src/routes/escrow.ts:416-430 | one page with the set of seen ids: the events newly counted and their signed sum |
| EscrowBalance.EveryInitialEventCounted | src/routes/escrow.ts:398-438 | while events are inserted anywhere in the order between queries, every event of the first table is counted, nothing outside the last table is, and only a database error prevents a result |
| EscrowBalance.NoneCountedTwice | src/routes/escrow.ts:416-423 | no event that has an id is counted twice, however rows move between pages |
| EscrowBalance.BalanceIsSandwiched | src/routes/escrow.ts:398-448 | on a growing table the sums are those of the last table read over a set of its events that holds all of the first one's; so for every kind of event the amount counted lies between those of the two tables |
| EscrowBalance.StillTableIsOnePass | src/routes/escrow.ts:398-438 | on a table that stands still the pages add up to the table itself, for every batch size |
| EscrowBalance.SumsOfPermutation | src/routes/escrow.ts:424-429 | the sums do not depend on the order of counting |
| EscrowBalance.NetIsHeld | src/routes/escrow.ts:425-429 | the running balance is the funded amounts less the released and the refunded ones, and no other event counts |
| EscrowBalance.EmptyIdCountedTwice | src/routes/escrow.ts:416-423 | the double count of a row without id, for every page-sized table that ends in one; the indexer writes no such row |
| EscrowBalance.CountedTwiceIffNoId | src/routes/escrow.ts:416-423 | some growing table makes the replay count an event twice exactly when the event has no id: the guard on the id matters for no other event |
| Keyset.RankOnlyRises | src/routes/escrow.ts:398-412 | in a table that only grows, no row ever comes earlier |
| Keyset.PageKeepsFaithful | src/routes/events.ts:772-815 | reading the first rows past the cursor keeps what was read ascending, without repeats, and leaves nothing behind the cursor unread |
| EventList.BuildConditions | src/routes/events.ts:749-793 | the pushed conditions, the three-way OR among them, together select the rows strictly after the cursor in the order of the query |
| EventList.ListEvents | src/routes/events.ts:732-821 | a page is the first rows of the filtered order after the cursor; `hasMore` and the next cursor are exact |
| EventList.PageIsWhatWasAskedFor | src/routes/events.ts:772-815 | a page holds rows of the agreement and type asked for and past the cursor, by block, index and id, none skipped; `hasMore` says exactly whether any is left, and then the page is full and its cursor is its last row |
| EventList.NothingLostOrRepeated | src/routes/events.ts:772-815 | a client that follows the cursors while rows are inserted anywhere sees no row twice or out of order, and once told there is no more has every matching row of its first request |
| EventList.FollowEnds | src/routes/events.ts:801-815 | it is told so after as many requests as the last table fills pages |
| EventList.StillTableIsListed | src/routes/events.ts:772-815 | on a table that stands still the pages concatenate to the filtered table, for every limit |
| EventList.ListsWhatWasAskedFor | src/routes/events.ts:747-815 | following the cursors lists exactly the rows of the agreement and type asked for |
| AnalyticsRollup.CollectRollupBatches | src/routes/analytics.ts:111-145 | the loop, watched for any number of its queries, is the collector over them, with the short page, the empty page and the stalled cursor |
| AnalyticsRollup.CollectorIsExact | src/routes/analytics.ts:111-145 | over rows stamped at whole milliseconds it never stalls, ends once it has asked often enough, repeats no row, holds every matching row of the first table and, without inserts, exactly those |
| AnalyticsRollup.CollectorLosesNothing | src/routes/analytics.ts:111-145 | however rows are stamped and inserted, a collector that ends holds every matching row of the first table |
| AnalyticsRollup.StillTableCollectedIff | src/routes/analytics.ts:125-141 | a still table is collected exactly when the last row of each of its full pages is stamped at a whole millisecond |
| AnalyticsRollup.LastRowRepeatsIffInexact | src/routes/analytics.ts:125-141 | the query after a page selects that page's last row again exactly when the row is stamped between two milliseconds |
| AnalyticsRollup.CursorAdvances | src/routes/analytics.ts:130-141 | the last row of a page is never the cursor the page was fetched with |
| Backfill.BackfillJob.PerformBackfill | src/routes/backfill-events.ts:391-600 | a call scans the newest rows of its agreement and past its cursor whose transaction has no event of the job's own type, as many as the limit allows; every event it adds is that of a scanned row, field by field; a call that dies after any number of its transactions leaves exactly the committed batches and their checkpoint, and one that does not also answers what it did |
| Backfill.ScanIsScan | src/routes/backfill-events.ts:419-452 | the scanned rows, in terms of the transactions and types of existing events, the agreement, the cursor and the limit |
| Backfill.CallAddsEventsOf | src/routes/backfill-events.ts:484-512 | the added events: type EmployeeAdded or MilestoneAdded by job, index 0, the documented id, and the other fields of a scanned row |
| Backfill.CheckpointSays | src/routes/backfill-events.ts:463-575 | after every number of committed transactions the checkpoint counts whole batches of a hundred rows, stops at the millisecond of the last of them, and says whether the call runs, is idle or is complete |
| Backfill.BackfillJob.CommitBatches | src/routes/backfill-events.ts:472-528 | the batch loop with one transaction a batch: after each, inserts and checkpoint agree, the cursor cut down to its millisecond |
| Backfill.BackfillJob.InsertBatch | src/routes/backfill-events.ts:503-512 | rows are inserted one by one unless a unique key is taken, and counted |
| Backfill.BatchAdvances | src/routes/backfill-events.ts:500-528 | committing one more batch is the checkpoint of one more batch of rows, totals included |
| BackfillRuns.CheckpointIsExact | src/routes/backfill-events.ts:409-528 | with one millisecond and one transaction per missing row, after any sequence of resumed calls with any limits and crashes the checkpoint totals are the durable scans and inserts, and the rows committed are the newest missing rows, each once |
| BackfillRuns.ScanResumes | src/routes/backfill-events.ts:427-452 | the query of a resumed call returns exactly the missing rows after the checkpoint |
| BackfillRuns.CompletedRunIsTotalIff | src/routes/backfill-events.ts:484-512 | with one millisecond per missing row, a completed run gave every missing row its event exactly when their events clash neither with each other nor with existing ones |
| BackfillRuns.CompletedRunIsTotalIffTransactionsFree | src/routes/backfill-events.ts:486-512 | the same in terms of transactions: distinct, and index 0 free in each |
| BackfillRuns.UncutCallsComplete | src/routes/backfill-events.ts:564-575 | with one millisecond and one transaction per missing row, calls that are not cut short finish after at most one more call than there are missing rows |
| BackfillRuns.IdsNeverCollide | src/routes/backfill-events.ts:112-118 | a backfill id equals no chain event's id, and another backfill id only within its own transaction |
| BackfillRuns.RunKeepsKeys | src/routes/backfill-events.ts:503-512 | no run deletes an event or breaks a unique key |
| BackfillRuns.LostForever | src/routes/backfill-events.ts:427-432 | a row the checkpoint has passed without an event never gets one |
| BackfillRuns.TieLosesARow | src/routes/backfill-events.ts:427-432 | the first two missing rows of one millisecond: calls of one row each lose the second for good |
| BackfillRuns.DifferentStampsLoseARow | src/routes/backfill-events.ts:514-521 | two rows with different timestamps, ids and transactions in one millisecond: one call of one row that dies after its batch loses the second |
| BackfillRuns.NoRowIsLostIffMillisecondsApart | src/routes/backfill-events.ts:427-521 | with events that do not clash, no run with allowed limits and any crashes loses a missing row exactly when no two missing rows fall in one millisecond |
| CircuitBreaker.EndpointCircuitBreaker.IsCallPermitted | src/starknet/circuit-breaker.ts:89-107 | permission and the move to half-open once the cooldown is over |
| CircuitBreaker.EndpointCircuitBreaker.RecordSuccess | src/starknet/circuit-breaker.ts:113-126 | a success counts towards closing in half-open, prunes in closed, and is ignored in open |
| CircuitBreaker.EndpointCircuitBreaker.RecordFailure | src/starknet/circuit-breaker.ts:132-148 | a failure reopens in half-open, is counted in the window in closed, and is ignored in open |
| CircuitBreaker.EndpointCircuitBreaker.PruneOldFailures | src/starknet/circuit-breaker.ts:207-210 | keeps exactly the failures later than the cutoff, in order |
| CircuitBreaker.HistoryAgrees | src/starknet/circuit-breaker.ts:89-210 | after every sequence of calls with a clock that does not run back, the fields agree with the full history since the breaker entered its state |
| CircuitBreaker.OpensExactlyAtThreshold | src/starknet/circuit-breaker.ts:132-148 | a closed breaker opens exactly when the unpruned failures since it closed that lie in the window reach the threshold |
| CircuitBreaker.PrunedCountExactIff | src/starknet/circuit-breaker.ts:132-148 | at whatever times the calls come, the pruned list never counts too many failures, and counts all in the window exactly when none of them was cut off by a prune after it |
| CircuitBreaker.OpensExactlyUnlessForgotten | src/starknet/circuit-breaker.ts:132-148 | so no clock opens the breaker early, and it opens exactly at the threshold unless a failure in the window was cut off |
| CircuitBreaker.RejectsExactlyInCooldown | src/starknet/circuit-breaker.ts:89-107 | a call is rejected exactly while the breaker is open and inside the cooldown of the call that opened it |
| CircuitBreaker.ClosesExactlyAfterSuccesses | src/starknet/circuit-breaker.ts:113-139 | a half-open breaker closes exactly when the successes since it became half-open reach the threshold, with no failure among them, and reopens on any failure |
| CircuitBreaker.OpenThroughCooldown | src/starknet/circuit-breaker.ts:94-102 | nobody gets through before the cooldown is over, whatever else is reported meanwhile |
| CircuitBreaker.BackwardClockMissesAFailure | src/starknet/circuit-breaker.ts:207-210 | an instance of a cut-off failure: a breaker with a threshold of two stays closed with two failures in its window |
| AddressCache.NormalizedAddressCache.NormalizeStarknetAddress | src/utils/address.ts:60-93 | on every call sequence the cached function returns what the uncached one does, errors included, and remembers accepted inputs only |
| AddressCache.NormalizedAddressCache.GetCachedAddress | src/utils/address.ts:19-27 | a hit is exactly an input among the 1024 most recently used ones, and refreshes it |
| AddressCache.NormalizedAddressCache.CacheAddress | src/utils/address.ts:29-37 | afterwards the cache holds the most recently used accepted inputs of the whole history, at most 1024 |
| AddressCache.SameKeyIffSameNumber | src/utils/address.ts:60-93 | two accepted inputs get one key exactly when they denote one number |
| AddressCache.NormalizeIsIdempotent | src/utils/address.ts:60-93 | a canonical form is accepted and is its own canonical form |
| AddressCache.CanonicalDenotes | src/utils/address.ts:67-78 | the canonical form is 64 lower-case hex digits of the number denoted |
| AddressForms.AddressIsAnswered | src/utils/address.ts:60-93 | every way to write an address, with or without prefix, in either case and with redundant zeros, is answered by its lower-case digits at full width; it is refused exactly when it has more than 64 digits, or mixes cases and is not spelled as the checksum asks |
| AddressForms.OthersAreRefused | src/utils/address.ts:60-76 | a blank text is refused as missing, and every other text that is no address as not hexadecimal |
| AddressForms.TrimKeepsTheMiddle | src/utils/address.ts:61 | white space around an address does not matter |
| RecentlyUsed.NewestOfUsed | src/utils/address.ts:29-37 | using an input in the bounded list is using it in the unbounded one and forgetting the rest |
| RecentlyUsed.ByLastUseIsOrdered | src/utils/address.ts:19-27 | the list of used inputs is ordered by their last use in the history |
| TokenAmount.PrintingIsExact | src/utils/codec.ts:81-121 | every integer amount printed at any precision, read back at it, is itself |
| TokenAmount.SameTextIffSameQuantity | src/utils/codec.ts:81-121 | two amounts at two precisions print alike exactly when they are the same quantity |
| TokenAmount.NoTrailingFractionZero | src/utils/codec.ts:114-120 | no printed fraction is empty or ends in a zero |
| TokenAmount.PrintedTextDenotes | src/utils/codec.ts:81-121 | of the exported printer: a bad precision is a range error, then a text that is no integer a type error, and otherwise the text, read at the given precision, is the amount given, without an empty fraction or one that ends in a zero |
| TokenAmount.UntrustedIsValidated | src/utils/codec.ts:85-100 | a text is printed exactly when it is a decimal integer and the precision a non-negative integer; otherwise the type error or the range error, and a decimal text prints as its integer |

## Left out

- `IdempotencyRuns.LateCompletionRecordsForeignResponse` is a single run; the exact condition for losing exclusion is `AloneUntilIffBeforeExpiry`.
- `SessionTable.Sessions.RotateSession`: the isolation of the database transaction is assumed, so rotation is one atomic step; `requireSession` is two.
- `SessionTable.Sessions.RevokeSelected`: exact on a table without concurrent writers, in which the probe sees what the loop sees; a legacy row without family id is its own family by token hash, and `revokeFamily` does not match it.
- `AnalyticsRollup.CollectRollupBatches`: a page's rows always have their id and timestamp; whether the loop ends when rows are stamped between milliseconds is not claimed.
- `Backfill.BackfillJob.PerformBackfill`: does not model block and contract diagnostics of the checkpoint, start and end times, the preview list, or that `created` in the answer is recounted from ids; the handler's `failed` status after an error is left out too, since no call reads it.
- `BackfillRuns.CheckpointIsExact`: one caller at a time, fixed source rows, no agreement filter and no explicit cursor; the method itself takes both. Completion and loss are characterised exactly beside it.
- `EscrowBalance.GetAgreementBalance`: the contract call is a parameter and its own failures are not modelled; amounts are already decimal numbers, as the table's check demands.
- `EventList.ListEvents`: the byte encoding of cursors is left out; a cursor is its three fields, and an invalid one is no cursor.
- `CircuitBreaker.EndpointCircuitBreaker.IsCallPermitted`: a comment promises a single probe in half-open; the code admits every caller, and so does the model. Each call reads the clock once.
- `TokenAmount.UntrustedIsValidated`: a precision that is not a finite number is outside the model.
- SHA-256, signature verification, the address checksum and random nonces, tokens and ids: a digest assumed injective, parameters, and values never used before.
- Postgres collation of text columns: a parameter that is a strict total order. `localeCompare` is a parameter too.
- Clock readings: the wall clock never runs back, and one call sees one reading, except across the awaits of `/auth/verify`.
- JSON numbers other than their printed tokens, and `undefined`.
- A missing index and an empty index of a contract are the same here.
- The in-memory idempotency maps of billing, escrow and diagnostics, the lockout counters beyond their place in `/auth/verify`, the analytics cache, and page-size clamps: easier repeats of what is modelled.
- `transactions.ts`, `previous_transactions.ts`, `test-copy.ts` and `reprocess-events.ts`: the handlers refer to undefined names or are stale copies, so their behaviour is not fixed by the code.
- Routing, validation, headers, configuration, logging, metrics, RPC and contract calls: no invariant of their own.
- Floating-point display helpers: rounding is not modelled.
- Page sizes of session sweeps and revocations, of the balance replay and of the collector: used as in the source, but what is proved holds for any size.
- The RPC client module is not part of this model.

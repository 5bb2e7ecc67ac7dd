# Verified models of the security service's stateful guards

This project models the guards of the security service whose guarantees hold over whole runs, and proves those
guarantees in Dafny. Each guard has three layers:

1. **A class** with the fields the TypeScript object updates (`InMemoryReplayProtectionStore`,
   `ApplicationRateLimiter`, `AuditService`, `ContainmentAgent`, ...), whose methods keep the branches and loops of the
   source.
2. **A step function** that says what one call does to the contents of those fields (`ConsumeStep`, `CheckStep`,
   `AppendStep`, `EvaluateStep`, ...). Every method is proved equal to its step function, result and new state.
   Beside it stand lemmas that say what the step does from its arguments and the state alone, by field and by name
   (`AnswerIsExact`, `NextRecordByName`, `CheckAtCapacityEvicts`, `RangesAreExact`, ...).
3. **Run theorems** about every sequence of steps, usually against a reference that knows none of the machinery: no
   map, no pruning, no cleanup, no sweep, no status field.

`dafny verify dfyconfig.toml` checks everything.

## Main results

- **Replay protection.** After any run of consumptions the in-memory store is exactly the last
  min(capacity, unexpired) accepted nonces, and it refuses exactly what a map-free reference refuses
  (`StoreIsWindowOverHistory`). Authenticated credentials are never accepted again while the capacity holds, if they
  were not stamped in the future (`AcceptedCredentialsAreSingleUse`), and that hypothesis is exact
  (`ReusableExactlyWhenPostdated`).
- **The asynchronous protocol.** For every interleaving of any number of requests on any number of nodes, acceptances
  of one key are more than a lifetime apart, answers fail closed, refusals as replays are justified, and a race has
  exactly one winner. A second use of credentials that are not postdated has to pass the gate before the first one's
  lifetime ends and consume its nonce after (`SecondUseStraddlesTheLifetime`), and such a run exists.
- **Rate limiter.** Every interval of a window's length, at any time, holds at most the limit; cleanups inserted
  anywhere into a run that never reaches capacity change no answer and keep it from reaching capacity; a denial is exact about when the next request is admitted.
- **Agent sandbox.** Answers are those of a reference that keeps every recorded call; from it follow the bounds on every
  minute, on loops and on sessions, conservation across the two maps, and that refused calls leave no trace.
- **Audit ledger.** Verification is exact; with a collision-free hash the head hash of an intact chain determines the
  whole chain up to the key order of details; tampering is reported where it happened; file and memory stay in sync over
  every run of appends and restarts; with failed writes, a reload is valid exactly when no completed append followed a
  failed one without a restart in between; fail-stop holds, with the exact cases where it does not.
- **Containment.** Queries and listings over lazily expired records answer like an eager reference that reads only the
  calls made; releases do so exactly when the record is not past its deadline and unswept.
- **Policy engine.** Re-sorting at every registration keeps the one stable descending order of the registrations;
  evaluation picks the earliest registered of the highest-priority matching rules; the default rules' decisions have
  exact conditions.
- **Luhn and versions.** The exact errors the Luhn check misses, and the total preorder of version numbers under which
  scans are downward closed.

## Modelling decisions

- The clock is an argument, one reading per call, non-decreasing over a run. Generated ids and times are arguments.
- A JavaScript `Map` whose order matters is a sequence of entries with distinct keys (`OrderedMap`); setting an existing
  key keeps its position. Where order is never used it is a `map`.
- Values that JavaScript treats as absent stay absent: a stored expiry of 0, an empty key at the front of the replay
  store, a first timestamp of 0, a time to live of 0, an empty agent id on reset.
- Numbers are integers, or reals for risk scores, priorities and CVSS scores. NaN is modelled where the source can produce
  it: unparsable dates, and Luhn characters that are no digits.
- Records of the audit chain are runtime objects, not typed records: what a file line parses to is loaded unchecked, as in
  the source. Reading a member of a restored null throws. `Realizable` says which JSON values JavaScript objects can be.
- SHA-256, HMAC, JSON text and date parsing are function values (`Codec`, `Env`). `CollisionFree` and `Lawful` state what
  is assumed of them, as preconditions of the lemmas that need it.
- The asynchronous check is a state machine whose requests move between their await points; its health read is a step of
  its own, so every interleaving of the source is among the runs.
- Class invariants are `Valid()`; ghost fields (`view`, `registered`) hold the contents that step functions speak of.

Where the code and its documentation disagree, the model follows the code: docs/AUDIT_LEDGER.md promises that writes are
rejected after any failed check, but re-initializing an open ledger onto a file with an unparsable line or a null record
leaves it open (`FailStopIsExact`); src/integrations/auth/replay-store.ts:136 asks for lifetimes longer than the clock skew, but the
authenticator uses lifetimes equal to it, which is why postdated credentials can be used twice
(`ReusableExactlyWhenPostdated`); docs/CONTAINMENT_MODEL.md treats a record as expired at its deadline, but a release may
still succeed after it (`LateReleaseSucceeds`).

## Model

| member | source | states |
|---|---|---|
| ReplayStore.InMemoryReplayProtectionStore.constructor | src/integrations/auth/replay-store.ts:43-45 | the store starts empty with its capacity |
| ReplayStore.InMemoryReplayProtectionStore.CleanExpired | src/integrations/auth/replay-store.ts:104-114 | the deleting loop drops exactly the expired prefix |
| ReplayStore.InMemoryReplayProtectionStore.Has | src/integrations/auth/replay-store.ts:47-56 | the answer and the store after a lookup, including the deletion of an expired entry behind a live one |
| ReplayStore.InMemoryReplayProtectionStore.Record | src/integrations/auth/replay-store.ts:58-68 | the store after cleaning, eviction and recording |
| ReplayStore.InMemoryReplayProtectionStore.Consume | src/integrations/auth/replay-store.ts:70-87 | answer and store are those of `ConsumeStep`, whose runs the lemmas below describe |
| ReplayStore.InMemoryReplayProtectionStore.Clear | src/integrations/auth/replay-store.ts:100-102 | the store is emptied |
| ReplayStore.CleaningKeepsWindow | src/integrations/auth/replay-store.ts:104-114 | the prefix scan turns the window of one time into the window of a later time, so it misses no expired entry |
| ReplayStore.ConsumeKeepsWindow | src/integrations/auth/replay-store.ts:70-87 | one consumption refuses exactly the nonces of the window and keeps the store a window |
| ReplayStore.StoreIsWindowOverHistory | src/integrations/auth/replay-store.ts:70-87 | after every run the store is the last min(capacity, unexpired) accepted nonces, and the accepted ones are those of the map-free reference |
| ReplayStore.StoreIsBoundedSortedAndClean | src/integrations/auth/replay-store.ts:70-114 | within capacity, sorted by expiry, without repeats and without expired entries after every call |
| ReplayStore.RefusedExactlyWhileHeld | src/integrations/auth/replay-store.ts:70-87 | a nonce is refused exactly until its lifetime ends or capacity evicts it |
| ReplayStore.ConsumeIsExact | src/integrations/auth/replay-store.ts:70-87 | on any store a nonce is refused exactly when an entry holds it with an expiry, other than 0, that has not passed |
| ReplayStore.BoundBreaksExactly | src/integrations/auth/replay-store.ts:70-87 | one consumption exceeds the capacity exactly when it appends a key to a full store whose front is absent or the empty key |
| ReplayStore.EmptyNonceBreaksTheBound | src/integrations/auth/replay-store.ts:78-83 | a run showing that the falsy empty key is not evicted and the bound then fails |
| DistributedStore.DistributedReplayProtectionStore.constructor | src/integrations/auth/replay-store.ts:144-150 | default prefix, the shared backend or a new empty one, simulated failure |
| DistributedStore.DistributedReplayProtectionStore.SetHealthy | src/integrations/auth/replay-store.ts:152-154 | the health flag is set |
| DistributedStore.DistributedReplayProtectionStore.Has | src/integrations/auth/replay-store.ts:162-172 | throws when unhealthy; otherwise the answer, deleting an expired entry |
| DistributedStore.DistributedReplayProtectionStore.Record | src/integrations/auth/replay-store.ts:174-178 | throws when unhealthy and changes nothing; otherwise sets the entry |
| DistributedStore.DistributedReplayProtectionStore.Consume | src/integrations/auth/replay-store.ts:183-193 | the atomic check-and-set on the prefixed key, unavailable and without effect when unhealthy |
| DistributedStore.DistributedReplayProtectionStore.Health | src/integrations/auth/replay-store.ts:195-211 | the health reading |
| DistributedStore.SettlingIsExact | src/integrations/auth/replay-store.ts:183-193 | when a consumption rejects, refuses or succeeds, and what it leaves of every key |
| DistributedStore.LookupForgetsExactly | src/integrations/auth/replay-store.ts:162-172 | a healthy lookup forgets exactly the expired entry it asks for |
| DistributedStore.UnsharedPrefixesBothConsume | src/integrations/auth/replay-store.ts:144-193 | nodes with different prefixes both consume a nonce: the shared-prefix hypothesis is needed |
| Credentials.RegistryIsExact | src/integrations/auth/credentials.ts:67-98 | the registered services with their businesses and names, and no others |
| Credentials.GateIsExact | src/integrations/auth/credentials.ts:108-136 | a request reaches the store if and only if its service is registered for its business and its timestamp is within five minutes on either side; otherwise which refusal it gets |
| Credentials.VerdictIsExact | src/integrations/auth/credentials.ts:164-188 | with a consumed nonce, refused exactly when a signature came with a body and is not the digest of timestamp, nonce and body |
| Credentials.AnswerIsExact | src/integrations/auth/credentials.ts:103-189 | the whole answer of a synchronous check, and which answers leave the store alone |
| Credentials.SignatureBindsTheJoinedText | src/integrations/auth/credentials.ts:164-183 | under one signature a second request is authenticated if and only if its timestamp, nonce and body join to the text of the first |
| Credentials.ColonFreeNoncesJoinUniquely | src/integrations/auth/credentials.ts:288-296 | with one timestamp and no colon in the nonces, joined texts are equal exactly for equal nonces and bodies |
| Credentials.ColonsMoveBetweenNonceAndBody | src/integrations/auth/credentials.ts:288-296 | a colon moved from the body into the nonce keeps the verdict, so the condition on nonces is needed |
| Credentials.SignatureBindsTheBody | src/integrations/auth/credentials.ts:164-183 | with a faithful digest a signature authenticates its credentials with one body only |
| Credentials.RunKeepsWindow | src/integrations/auth/credentials.ts:103-162 | through a run of synchronous checks the store stays the window over the consumed nonces |
| Credentials.StillHeld | src/integrations/auth/credentials.ts:138-155 | a consumed nonce is refused within its lifetime and the capacity, whatever was presented in between |
| Credentials.AcceptedCredentialsAreSingleUse | src/integrations/auth/credentials.ts:127-162 | credentials not stamped in the future are refused at every later presentation, forever, unless capacity evicts them within their lifetime |
| Credentials.ReusableExactlyWhenPostdated | src/integrations/auth/credentials.ts:127-162 | credentials can be consumed twice if and only if they were stamped later than the clock at first use |
| Authenticator.EcosystemAuthenticator.constructor | src/integrations/auth/credentials.ts:51-53 | a fresh in-memory store of 100 000 entries |
| Authenticator.EcosystemAuthenticator.SetReplayStore | src/integrations/auth/credentials.ts:55-57 | the store is replaced |
| Authenticator.EcosystemAuthenticator.ResetReplayStore | src/integrations/auth/credentials.ts:63-65 | a fresh empty in-memory store |
| Authenticator.EcosystemAuthenticator.VerifyCredentials | src/integrations/auth/credentials.ts:103-189 | on memory one `VerifyStep`; on a distributed store the answer is unavailable although the nonce is spent |
| AsyncProtocol.StepKeepsSafe | src/integrations/auth/credentials.ts:194-282 | every event of the protocol keeps the safety invariant |
| AsyncProtocol.RunsAreSafe | src/integrations/auth/credentials.ts:194-282 | the invariant holds in every reachable world |
| AsyncResults.AcceptancesAreApart | src/integrations/auth/credentials.ts:229-255 | in every interleaving two acceptances of one key are strictly more than one lifetime apart |
| AsyncResults.SecondUseStraddlesTheLifetime | src/integrations/auth/credentials.ts:218-255 | of two acceptances of credentials that are not postdated, the second passed the gate within the first one's lifetime and consumed after it |
| AsyncAnswers.SecondUseHappens | src/integrations/auth/credentials.ts:218-255 | a run with such a second acceptance |
| AsyncResults.AnswersFailClosed | src/integrations/auth/credentials.ts:229-282 | unavailable if and only if the node was unhealthy at one of its two readings; authenticated only past the gate and healthy at both |
| AsyncAnswers.AnswersMatchTheRequest | src/integrations/auth/credentials.ts:194-282 | in every interleaving, which requests are refused by service, business and timestamp, and whom an authenticated answer names |
| AsyncAnswers.EventsDoWhatTheySay | src/integrations/auth/replay-store.ts:152-211 | clock and health events change what they name, and a health reading is the node's flag |
| AsyncResults.UnhealthyConsumptionChangesNothing | src/integrations/auth/replay-store.ts:156-193 | a consumption on an unhealthy node is refused, and exactly the unsuccessful ones leave the backend unchanged |
| AsyncJustification.StepKeepsJustified | src/integrations/auth/replay-store.ts:183-193 | every event keeps entries and refusals backed by a consumption |
| AsyncJustification.RunsAreJustified | src/integrations/auth/replay-store.ts:183-193 | from an empty backend this holds in every reachable world |
| AsyncResults.ReplayRefusalsAreReplays | src/integrations/auth/credentials.ts:241-248 | a request is refused as a replay only within one lifetime of a consumption of its key |
| AsyncResults.ReplayRefusalsNameAConsumption | src/integrations/auth/credentials.ts:241-248 | a replay refusal has a request with the same prefixed nonce that consumed within five minutes before |
| AsyncResults.RaceHasOneWinner | src/integrations/auth/replay-store.ts:183-193 | of the requests that reach the store in a lifetime, exactly one consumes |
| SlidingWindow.PruningKeepsSuffix | src/server/rate-limiter.ts:120-122 | pruning an ascending list keeps exactly its suffix inside the window |
| SlidingWindow.PruneTwice | src/server/rate-limiter.ts:120-122 | pruning twice is pruning once, at the later start |
| SlidingWindow.AdmittingKeepsSpacing | src/server/rate-limiter.ts:124-141 | admitting below the limit keeps any limit + 1 successive times a window apart |
| SlidingWindow.SpacingBoundsEveryInterval | src/server/rate-limiter.ts:120-141 | spaced times put at most the limit into every interval of the window's length, at every time |
| RateLimiter.KeysAreFaithful | src/server/rate-limiter.ts:109-160 | cleanup recovers the tier from every key, also when the identifier holds colons, and keys do not collide |
| RateLimiter.CeilDiv | src/server/rate-limiter.ts:127 | division rounded up |
| RateLimiter.Decide | src/server/rate-limiter.ts:124-151 | the answer to a check whose pruned bucket is given |
| RateLimiter.ApplicationRateLimiter.constructor | src/server/rate-limiter.ts:62-78 | no buckets, default tiers and capacity for absent ones, and a timer for a positive interval only |
| RateLimiter.ApplicationRateLimiter.CheckLimit | src/server/rate-limiter.ts:103-152 | answer and buckets are those of `CheckStep`, whose runs the lemmas below describe |
| RateLimiter.ApplicationRateLimiter.CleanExpired | src/server/rate-limiter.ts:157-168 | exactly the idle buckets are deleted, and counted |
| RateLimiter.ApplicationRateLimiter.EvictIfFullNow | src/server/rate-limiter.ts:173-184 | at capacity the oldest tenth is evicted, at least one bucket |
| RateLimiter.ApplicationRateLimiter.GetTrackedCount | src/server/rate-limiter.ts:186-188 | the number of buckets |
| RateLimiter.ApplicationRateLimiter.Reset | src/server/rate-limiter.ts:190-192 | no buckets are left |
| RateLimiterCalls.CheckAtCapacityEvicts | src/server/rate-limiter.ts:113-118 | a check on a new key at capacity drops exactly the oldest tenth of the capacity, at least one bucket, and keeps the others in order |
| RateLimiterCalls.CheckWithRoomKeeps | src/server/rate-limiter.ts:113-122 | a check with room or on a tracked key removes nothing and writes only its own bucket |
| RateLimiterCalls.EvictsExactly | src/server/rate-limiter.ts:173-184 | which buckets an event evicts |
| RateLimiterCalls.CleaningIsExact | src/server/rate-limiter.ts:157-168 | a bucket is dropped exactly when idle for longer than its tier's window, or a minute for a window of 0 |
| RateLimiterCalls.CleaningKeepsOrder | src/server/rate-limiter.ts:157-168 | what a cleanup keeps stays in order |
| RateLimiterCalls.AnswerIsExact | src/server/rate-limiter.ts:124-151 | every field of an answer, the retry hint being the least that reaches the reset |
| RateLimiterRuns.PrunedBucketIsRecent | src/server/rate-limiter.ts:120-122 | a pruned bucket, or none, is the admitted history inside the window |
| RateLimiterRuns.CheckKeepsOwnKey | src/server/rate-limiter.ts:103-152 | a check keeps its key's invariant and answers like the log of its history |
| RateLimiterRuns.CleaningKeepsKey | src/server/rate-limiter.ts:157-168 | a cleanup keeps every key's invariant: a dropped bucket held only times every later check prunes |
| RateLimiterRuns.RunKeepsKey | src/server/rate-limiter.ts:103-184 | the invariant holds for every key after every run, evictions included |
| RateLimiterResults.IntervalsAreBounded | src/server/rate-limiter.ts:116-141 | every interval (t - window, t], for every t, holds at most the limit of admitted requests |
| RateLimiterResults.BucketShowsTheWindow | src/server/rate-limiter.ts:120-141 | a bucket is sorted and equals the admitted history inside the window of its last access |
| RateLimiterResults.ReportIsExact | src/server/rate-limiter.ts:120-151 | admitted if and only if the window holds fewer than the limit; reported count and remainder are those of the window after the check |
| RateLimiterResults.TrackedBucketsAreBounded | src/server/rate-limiter.ts:173-184 | there are never more buckets than the capacity |
| RateLimiterResults.FewKeysNeverFull | src/server/rate-limiter.ts:173-184 | a run with no more keys than the capacity evicts nothing |
| RateLimiterResults.ResultIsLogAnswer | src/server/rate-limiter.ts:103-152 | a check answers what the full log of its key's history says |
| RateLimiterResults.HistoryIsSlidingLog | src/server/rate-limiter.ts:103-152 | without evictions the history is that of a sliding log that knows no buckets |
| RateLimiterResults.AnswersFollowTheLog | src/server/rate-limiter.ts:103-168 | without evictions all answers are a function of the checks alone |
| RateLimiterResults.CleanupIsInvisibleWithFewKeys | src/server/rate-limiter.ts:109-168 | two runs with the same checks, on no more keys than the capacity, give the same answers wherever their cleanups are |
| RateLimiterCleanup.InsertingKeepsRoom | src/server/rate-limiter.ts:113-184 | a run with cleanups inserted holds no more buckets at any time, so it does not reach capacity either |
| RateLimiterCleanup.CleanupIsInvisible | src/server/rate-limiter.ts:109-168 | inserting cleanups anywhere into a run that never reaches capacity changes no answer, in any field |
| RateLimiterResults.RetryHintIsTight | src/server/rate-limiter.ts:127 | the retry hint reaches the reset time with under a second of overshoot |
| RateLimiterResults.DenialOnLogIsExact | src/server/rate-limiter.ts:124-141 | on an unchanged log a retry is admitted exactly from the reset time on |
| RateLimiterResults.DenialIsExact | src/server/rate-limiter.ts:124-141 | in a run, every retry before the reset time is denied and the first one from it on is admitted |
| RateLimiterResults.DenialsHappen | src/server/rate-limiter.ts:124-141 | a run that meets every hypothesis of `DenialIsExact` |
| AgentSandbox.AgentSandboxRuntime.constructor | src/ai/agent-sandbox.ts:25-40 | empty maps and the defaults for absent options |
| AgentSandbox.AgentSandboxRuntime.EvaluateToolExecution | src/ai/agent-sandbox.ts:49-145 | answer and maps are those of `EvaluateStep`, whose runs the lemmas below describe |
| AgentSandbox.AgentSandboxRuntime.ResetAgentHistory | src/ai/agent-sandbox.ts:150-157 | one agent's history, or both maps when the id is absent or empty |
| AgentSandbox.CountBack | src/ai/agent-sandbox.ts:91-99 | the backward loop counts the trailing identical calls |
| AgentSandbox.Verdict | src/ai/agent-sandbox.ts:59-144 | the guards in order give the verdict and say whether the call is recorded |
| SandboxRuns.VerdictIsExact | src/ai/agent-sandbox.ts:59-144 | recorded, permitted and flagged as a loop exactly when quota, window, loop and high-impact guards say so, with the counts after the call |
| SandboxRuns.LoopGuardIsExact | src/ai/agent-sandbox.ts:89-101 | the loop guard counts exactly the last calls with the same tool and arguments |
| SandboxRuns.QuotaIsPerSession | src/ai/agent-sandbox.ts:52-74 | a session's quota is decided by the calls recorded in that session alone, the default one standing for no session |
| SandboxRuns.HistoryStandsForLog | src/ai/agent-sandbox.ts:55-57 | the stored history holds what the full log holds of the last minute, now and later |
| SandboxRuns.CountsAreTotals | src/ai/agent-sandbox.ts:62-123 | a session's count is the number of its recorded calls, by any agent |
| SandboxRuns.ResultIsLogAnswer | src/ai/agent-sandbox.ts:49-145 | every answer is the one a reference with the full log gives |
| SandboxRuns.ReportIsExact | src/ai/agent-sandbox.ts:59-144 | the reported counts are the agent's calls in the last minute and the session's total, after the call |
| SandboxRuns.LogIsSpaced | src/ai/agent-sandbox.ts:76-123 | recorded calls are spaced by the minute limit, and identical ones in a row by the window |
| SandboxRuns.IntervalsAreBounded | src/ai/agent-sandbox.ts:54-87 | every half-open minute, at every time, holds at most the allowed calls of an agent |
| SandboxRuns.RecordingKeepsLoopsSlow | src/ai/agent-sandbox.ts:89-112 | recording a call keeps every run of as many identical calls as the threshold at least a window long |
| SandboxRuns.ThresholdOfOneRecordsNothing | src/ai/agent-sandbox.ts:101-112 | with a threshold of one or less nothing is recorded |
| SandboxRuns.SessionsAreBounded | src/ai/agent-sandbox.ts:62-74 | no session ever has more recorded calls than its quota |
| SandboxRuns.RecordedCallsAreConserved | src/ai/agent-sandbox.ts:117-123 | every recorded call is counted once for its session and once for its agent: stored counts and full logs add up to the number of recorded calls |
| SandboxRuns.StoredHistoriesAreConserved | src/ai/agent-sandbox.ts:54-122 | the stored histories together hold of the last minute exactly the calls recorded in it |
| SandboxRuns.RefusalIsInvisible | src/ai/agent-sandbox.ts:55-112 | deleting a refused call from a run changes no later answer |
| Json.KeyOrderIsStrictAndTotal | src/audit/audit-service.ts:184-188 | the order in which a sorted copy enumerates its keys is strict, total and transitive |
| Json.FirstDifferenceDecides | src/audit/audit-service.ts:185 | keys are sorted by their first differing character, shorter before longer |
| Json.IndicesAreSmallNumerals | src/audit/audit-service.ts:184-188 | the keys that come first are the canonical numerals below 2^32 - 1 |
| Json.IndexOrderIsNumeric | src/audit/audit-service.ts:184-188 | keys that are array indices come by value |
| Json.SortedFields | src/audit/audit-service.ts:180-190 | a sorted object has ascending keys and every member's sorted value |
| Json.CanonicalIffAgree | src/audit/audit-service.ts:180-190 | two values have one canonical form if and only if they differ at most in key order above any array and in members named `__proto__` |
| Json.SortingIsIdempotent | src/audit/audit-service.ts:180-190 | sorting twice is sorting once |
| Json.ProtoMemberIsInvisible | src/audit/audit-service.ts:184-188 | a member named `__proto__` is lost from the canonical form |
| Json.OrderUnderArrayIsVisible | src/audit/audit-service.ts:181-183 | key order under an array stays visible, so the exception is needed |
| AuditRecords.MemberOfMembers | src/audit/audit-service.ts:55-67 | an object built from some members has exactly those under their names |
| AuditRecords.PayloadByName | src/audit/audit-service.ts:153-178 | what is hashed, member by member: as it is, the details in canonical order, not the hash |
| AuditRecords.PayloadDetermines | src/audit/audit-service.ts:153-178 | what is hashed determines every hashed member up to the key order of the details |
| AuditLedger.AuditService.constructor | src/audit/audit-service.ts:22-26 | the chain starts with the given records |
| AuditLedger.AuditService.Append | src/audit/audit-service.ts:31-71 | the record appended, with its sequence, link and hash; an exception over a null record |
| AuditLedger.AuditService.VerifyIntegrity | src/audit/audit-service.ts:83-147 | valid when nothing is wrong, otherwise the least faulty index with its first fault, a null record being an exception |
| AuditLedger.NextRecordByName | src/audit/audit-service.ts:31-67 | the appended record by member name: the caller's values, generated ones for empty, the link and the hash |
| AuditLedger.FaultsByName | src/audit/audit-service.ts:93-138 | which fault is reported, from the members of the record and of the one before it |
| AuditLedger.IntactIffFaultless | src/audit/audit-service.ts:83-147 | the loop's criterion is the recursive definition of an intact chain |
| AuditLedger.VerdictIsExact | src/audit/audit-service.ts:83-147 | valid exactly of intact chains, and only one answer is possible |
| AuditLedger.AppendKeepsIntact | src/audit/audit-service.ts:31-71 | appending keeps a chain intact |
| AuditLedger.NextRecordMembers | src/audit/audit-service.ts:31-67 | the appended record has its sequence, its link and the caller's values, and its hash is over them |
| AuditLedger.HeadHashBindsChain | src/audit/audit-service.ts:83-178 | with a collision-free hash, intact chains with one head hash have equal length and equal records at every index, up to key order of details above any array (and members named `__proto__`) |
| AuditLedger.ContentChangeIsReported | src/audit/audit-service.ts:115-138 | changed content is reported at its index |
| AuditLedger.RehashedChangeIsReportedNext | src/audit/audit-service.ts:104-140 | a rehashed change is reported at the next index, or not at all at the end of the chain |
| JsStrings.SplitAtSeparator | src/audit/persistent-storage.ts:36 | splitting at a newline separates a line from what follows |
| JsStrings.TrimIsExact | src/audit/persistent-storage.ts:36 | trimming takes white space off both ends, and all of it |
| PersistentRuns.LineByLine | src/audit/persistent-storage.ts:36 | the lines of a file are its pieces, trimmed, without blank ones |
| PersistentLedger.PersistentAuditLedger.constructor | src/audit/persistent-storage.ts:17-20 | closed, with an empty memory, over its file |
| PersistentLedger.ParseLines | src/audit/persistent-storage.ts:38-52 | the values of the lines, or the first line that does not parse |
| PersistentLedger.PersistentAuditLedger.Initialize | src/audit/persistent-storage.ts:22-67 | outcome, flag and memory are those of `InitializeStep` |
| PersistentLedger.PersistentAuditLedger.Append | src/audit/persistent-storage.ts:69-85 | outcome, memory and file are those of `AppendStep`, also when the write fails |
| PersistentLedger.Verdict | src/audit/persistent-storage.ts:54-66 | the one verdict there is on a chain |
| PersistentRuns.FileReadsBack | src/audit/persistent-storage.ts:35-52 | reading the file of some records finds no corrupt line and those records |
| PersistentRuns.ReloadFindsTheRecords | src/audit/persistent-storage.ts:22-67 | initializing a file in sync succeeds, counts its records and loads them |
| PersistentRuns.AppendKeepsSync | src/audit/persistent-storage.ts:69-85 | a completed append keeps file and memory in sync, closed or open |
| PersistentRuns.RunKeeps | src/audit/persistent-storage.ts:22-85 | over every run the file holds exactly the records returned, intact unless the run is broken, and an open memory leads it by the lost ones |
| PersistentRuns.ReloadIsValidExactly | src/audit/persistent-storage.ts:22-85 | a reload is valid, with the count of records returned, if and only if no completed append followed a failed one without a restart in between |
| PersistentRuns.FileAndMemoryStayInSync | src/audit/persistent-storage.ts:22-85 | over every run of completed appends and restarts the file holds exactly the records returned, memory agrees, and a reload is valid with their count |
| PersistentRuns.InvalidFileStopsTheLedger | src/audit/persistent-storage.ts:60-75 | after a restart onto an invalid file every append is refused and the file never changes |
| PersistentRuns.FailStopIsExact | src/audit/persistent-storage.ts:38-75 | after a failed initialization a write still goes through exactly when the ledger was open, the damage is an unparsable line or a null record, and the last record in memory is not null |
| PersistentRuns.OpenLedgerStaysOpen | src/audit/persistent-storage.ts:43-50 | an open ledger over an unparsable line stays open and writes |
| PersistentRuns.ParsedNonRecordCloses | src/audit/persistent-storage.ts:54-63 | a line that parses to no record verifies as tampered and closes the ledger |
| PersistentRuns.NullRecordThrows | src/audit/persistent-storage.ts:54-61 | a null line throws in verification, leaves the flag, and makes the next append throw |
| PersistentRuns.FailedWriteBreaksTheFile | src/audit/persistent-storage.ts:77-79 | after one failed write the next completed one leaves a file that reloads as tampered at its index |
| Containment.ContainmentAgent.constructor | src/agents/containment.ts:27-31 | no records, with default limits for absent ones |
| Containment.EffectiveTtl | src/agents/containment.ts:35-36 | a given or the default lifetime is kept up to the maximum and never exceeds it |
| Containment.ContainmentAgent.Quarantine | src/agents/containment.ts:33-54 | the ledger with the new record, swept; the object returned is the stored one |
| Containment.ContainmentAgent.Release | src/agents/containment.ts:88-125 | succeeds exactly while the status says ACTIVE; the ledger after release and sweep |
| Containment.ContainmentAgent.IsQuarantined | src/agents/containment.ts:127-147 | whether a record blocks the target, and how far the early-returning query swept |
| Containment.ContainmentAgent.GetActiveQuarantines | src/agents/containment.ts:149-165 | every overdue record is marked, and the active record objects are listed in order |
| Containment.ContainmentAgent.GetQuarantineById | src/agents/containment.ts:167-169 | the record under an id, if any |
| ContainmentRuns.StepRecord | src/agents/containment.ts:88-165 | each call releases a record, or expires it, or leaves it as it is |
| ContainmentRuns.DeadlineIsExact | src/agents/containment.ts:34-37 | the deadline is the given or default lifetime after the start, at most the maximum |
| ContainmentRuns.ReleaseIsNoted | src/agents/containment.ts:94-98 | a release writes status, flag, time, operator and reason, and keeps the rest |
| ContainmentRuns.RecordTells | src/agents/containment.ts:88-165 | in every run a record keeps what was requested; an active one was never released, an expired one is past its deadline, a released one was released |
| ContainmentRuns.QueryIsEager | src/agents/containment.ts:127-147 | a target is quarantined if and only if some matching quarantine was never released and its deadline has not passed |
| ContainmentRuns.ListingIsEager | src/agents/containment.ts:149-165 | the listing shows exactly the quarantines in force, in order |
| ContainmentRuns.QueryAgreesWithListing | src/agents/containment.ts:127-165 | query and listing agree on every target at every time |
| ContainmentRuns.LockoutIsBounded | src/agents/containment.ts:33-54 | a blocked target was quarantined within the maximum time to live before now |
| ContainmentRuns.ReleaseIsEagerOrStale | src/agents/containment.ts:88-94 | a release succeeds on a quarantine in force and on an overdue one not yet swept, never both |
| ContainmentRuns.ReleaseIsEagerExactly | src/agents/containment.ts:88-94 | a release answers like the eager reference if and only if the record is not overdue and unswept |
| ContainmentRuns.ReleaseAfterListingIsEager | src/agents/containment.ts:88-165 | a release right after a listing answers like the eager reference |
| ContainmentRuns.LateReleaseSucceeds | src/agents/containment.ts:88-94 | a run in which a release succeeds after the deadline |
| ContainmentRuns.EndedRecordsAreFinal | src/agents/containment.ts:88-165 | released and expired records never change again |
| ContainmentRuns.OneReleaseSucceeds | src/agents/containment.ts:88-97 | at most one release of an id succeeds |
| ContainmentRuns.RecordsAreConsistent | src/agents/containment.ts:33-165 | active flag if and only if ACTIVE, release note if and only if RELEASED, lifetime within the maximum |
| Rbac.GrantIsExact | src/identity/rbac.ts:52-93 | granted if and only if no role restricts the action and some role or explicit permission allows it |
| Rbac.RoleTable | src/identity/rbac.ts:8-45 | what every role allows and restricts |
| Rbac.ReasonsAreTrue | src/identity/rbac.ts:58-92 | the reason given for a grant or refusal is true of the subject |
| Rbac.OrderOfRolesIsIrrelevant | src/identity/rbac.ts:52-93 | order and repetition of roles and permissions change no grant |
| PolicyEngine.SortByPriority | src/policy/engine.ts:23-24 | the sort yields the stable descending order |
| PolicyEngine.SortIsDescending | src/policy/engine.ts:23-24 | the sorted list is descending in priority |
| PolicyEngine.SortIsStable | src/policy/engine.ts:23-24 | within every priority the order of registration is kept |
| PolicyEngine.StableOrderIsUnique | src/policy/engine.ts:23-24 | there is one stable descending order, whatever algorithm sorts |
| PolicyEngine.ResortingIsSorting | src/policy/engine.ts:21-25 | sorting the sorted list with one more rule is sorting all registrations |
| PolicyEngine.PolicyEngine.constructor | src/policy/engine.ts:14-16 | the default rules are registered |
| PolicyEngine.PolicyEngine.RegisterRule | src/policy/engine.ts:21-25 | the list stays the stable sort of the registrations, now with one more |
| PolicyEngine.PolicyEngine.ResetRules | src/policy/engine.ts:30-33 | only the default rules are registered |
| PolicyEngine.PolicyEngine.EvaluateWithPrecedence | src/policy/engine.ts:45-81 | the decision is that of the registrations; the chain is the rules up to the first match, only that one matched |
| PolicyEngine.PolicyEngine.Evaluate | src/policy/engine.ts:38-40 | the same decision |
| PolicyEngine.FirstMatchingOfInsert | src/policy/engine.ts:21-66 | an inserted rule takes over exactly when it matches and outranks the rule that matched first |
| PolicyEngine.EvaluationPicksTheWinner | src/policy/engine.ts:53-66 | first match over the sorted list is the earliest registered of the highest-priority matching rules |
| PolicyEngine.DecisionIsTheWinners | src/policy/engine.ts:45-81 | the decision is the winner's |
| PolicyEngine.NoWinnerFallsBack | src/policy/engine.ts:74-80 | there is a winner exactly when some rule matches; otherwise the zero-trust denial |
| PolicyEngine.RegisteringChangesOnlyFromAbove | src/policy/engine.ts:21-25 | one more rule decides exactly when it matches and outranks the winner; otherwise the decision stays |
| DefaultPolicy.RequiredPermissionIsExact | src/policy/engine.ts:161-184 | which permission an action needs, by prefixes and words of its lower-case text |
| DefaultPolicy.CaseIsIrrelevant | src/policy/engine.ts:162 | the case of letters in an action changes no needed permission |
| DefaultPolicy.GrantedIsTheCheck | src/policy/engine.ts:159-205 | the access rule passes exactly when no role restricts the action and some role or explicit permission has what it needs |
| DefaultPolicy.DefaultDecision | src/policy/engine.ts:87-223 | decision, rule, reason, approvers and target of the winning default rule |
| DefaultPolicy.AgentsDoNotWrite | src/policy/engine.ts:172-178 | an agent's create, write and update actions are denied |
| DefaultPolicy.AgentsExecute | src/policy/engine.ts:178-184 | an agent's unrestricted, insensitive execution at low risk is allowed |
| DefaultPolicy.DecisionsAreExact | src/policy/engine.ts:87-223 | the exact condition of each of the four types of decision |
| DefaultPolicy.DecisionsNameTheirRule | src/policy/engine.ts:87-223 | a decision carries the id of the rule that won; approvers only with an approval, a target only with an escalation |
| DefaultPolicy.FallbackIsNeverReached | src/policy/engine.ts:207-223 | with the default rules some rule decides every input, whatever else is registered |
| DefaultPolicy.AllowIsDownwardClosed | src/policy/engine.ts:87-223 | less risk never takes an allowance away |
| DefaultPolicy.MoreRiskLiftsADenialExactly | src/policy/engine.ts:87-223 | more risk turns a denial into an escalation in exactly one case, so denials are not upward closed |
| DefaultPolicy.RoleOrderIsIrrelevant | src/policy/engine.ts:158-205 | order and repetition of roles change no decision type |
| DefaultPolicy.OneRestrictionOverrides | src/policy/engine.ts:185-201 | a restriction in any one role excludes an allowance, whatever is granted elsewhere |
| Luhn.PassesLuhnCheck | src/ai/model-armor.ts:159-172 | the loop computes the weighted sum test, false on any character that is no digit |
| Luhn.PassesIsTheReference | src/ai/model-armor.ts:159-172 | passing is the reference sum, from the right, of plain digits and digit sums of doubles |
| Luhn.OneChangeIsDetected | src/ai/model-armor.ts:159-172 | changing one character of a passing number makes it fail |
| Luhn.SwapIsDetectedExactly | src/ai/model-armor.ts:159-172 | an adjacent swap passes if and only if the digits are equal or are 0 and 9 |
| Luhn.OneCheckDigit | src/ai/model-armor.ts:159-172 | every digit prefix has exactly one passing check character, any other prefix none |
| CveScanner.CompareVersions | src/supply-chain/cve-scanner.ts:103-116 | the loop gives the sign of the first difference |
| CveScanner.NumbersReadAsDecimals | src/supply-chain/cve-scanner.ts:104-105 | digits read as the decimal they write, signed, up to the first other character |
| CveScanner.OtherTextReadsAsZero | src/supply-chain/cve-scanner.ts:104-105 | leading white space is skipped, and what is no number reads as 0 |
| CveScanner.VersionsAreReadByPart | src/supply-chain/cve-scanner.ts:104-105 | a version is read part by part between its dots |
| CveScanner.CompareIsExact | src/supply-chain/cve-scanner.ts:103-116 | the sign is the component-wise order with missing components read as 0 |
| CveScanner.CompareIsATotalPreorder | src/supply-chain/cve-scanner.ts:103-116 | antisymmetric sign, transitive, strictly so when one step is strict |
| CveScanner.EqualIffSameWithoutZeros | src/supply-chain/cve-scanner.ts:103-116 | equal if and only if the components agree after dropping trailing zeros |
| CveScanner.IsVersionVulnerable | src/supply-chain/cve-scanner.ts:83-101 | the test is membership in the range that the text denotes |
| CveScanner.CleaningIsExact | src/supply-chain/cve-scanner.ts:84 | white space and one leading v are taken off the installed version |
| CveScanner.RangesAreExact | src/supply-chain/cve-scanner.ts:83-101 | what each form of range contains, by the order of versions or by text |
| CveScanner.TargetOfARange | src/supply-chain/cve-scanner.ts:86-100 | the target is outside of "<" and inside of "<=" and "==" |
| CveScanner.RangesAreDownwardClosed | src/supply-chain/cve-scanner.ts:86-96 | a range with an upper bound holds every older version of one it holds |
| CveScanner.CVEVulnerabilityScanner.constructor | src/supply-chain/cve-scanner.ts:15-17 | the default advisories are registered |
| CveScanner.CVEVulnerabilityScanner.RegisterAdvisory | src/supply-chain/cve-scanner.ts:22-26 | the map stays the registrations grouped by package, in order |
| CveScanner.CVEVulnerabilityScanner.ScanComponents | src/supply-chain/cve-scanner.ts:31-55 | the grouped scan reports what comparing every component with every registration reports, in order |
| CveScanner.ScanIsExact | src/supply-chain/cve-scanner.ts:31-55 | a match is reported if and only if some advisory hits some component |
| CveScanner.ScanInOrder | src/supply-chain/cve-scanner.ts:31-55 | every hitting pair is reported once, component by component and then in the order of registration |
| CveScanner.MatchesSayWhatWasFound | src/supply-chain/cve-scanner.ts:38-52 | every match carries the component's name and version and the advisory's own data |
| CveScanner.DefaultRanges | src/supply-chain/cve-scanner.ts:118-158 | the packages of the default advisories and the versions below which they report |
| CveScanner.ScansAreDownwardClosed | src/supply-chain/cve-scanner.ts:31-55 | an upper-bound advisory that reports a version reports every older version of the package |

## Left out

- HTTP routing, server start-up, dashboards, logging and asset copying: plumbing around the guards.
- Metrics and audit records written by other guards: they change no answer of the guard that writes them.
- SHA-256, HMAC, timing-safe comparison, JSON text and date parsing: function values with stated laws.
- Error message texts: errors are constructors, with the values the texts would show where they are decisions.
- Two clock readings inside one call: each call reads the clock once.
- The asynchronous check on an in-memory store: its health is always good and its consumption is the synchronous one.
- `clear` and `record` on the shared backend during a protocol run: the protocol's requests never call them.
- Names inherited from `Object.prototype` in the entity registry and in the role table: they are no registered entity and
  no defined role.
- Numbers beyond 2^53, NaN and infinite configuration values, and ISO dates outside the years 0 to 9999, whose text order is
  not their time order.
- One tenth of a capacity is taken in integers; the source rounds a floating-point product down.
- Key order compares characters by code point; the source compares UTF-16 units.
- Partly written lines of the ledger file: a write completes or leaves the file as it was.
- JSON numbers that are no integers in details and in restored records.
- Appends made directly on the service behind a persistent ledger (src/audit/persistent-storage.ts:95-97): they leave the
  memory ahead of the file exactly as a failed write does (`FailedWriteBreaksTheFile`).
- The sandbox's hash of the arguments: an arbitrary string per call.
- Callers that keep a quarantine record and write to its fields, the `FAILED` status that nothing sets, metadata and
  correlation ids; two quarantines under one generated id.
- Rules whose evaluation depends on anything but the input; descriptions of rules and evaluation times.
- `toLowerCase` outside ASCII.
- Alerts generated from scan matches (src/supply-chain/cve-scanner.ts:60-78): a filter and a map.
- Key rotation, just-in-time grants, threat history, tenants and attribute-based rules: the same expiry and window arguments
  in a simpler setting.

# AnchorKit: a verified model

AnchorKit anchors off-chain attestations on the Stellar network. This project models the
parts of it that keep state over time, and proves what they promise over every run, every
interleaving and every input.

| component | files here | what is proved |
|---|---|---|
| sliding-window rate limiter | `SlidingWindow`, `RequestLog`, `RateLimiterModel`, `RateLimiterRefinement`, `RateLimiterRetention`, `RateLimiterPruning`, `RateLimiterBounds`, `RateLimiterConservation`, `RateLimiterExactness`, `RateLimiterQuota`, `RateLimiterAdmissibility`, `RateLimiter` | two counters per key answer exactly as a full request log; exactly when pruning cannot be observed; how large a burst can get, and exactly when it stays within the limit; exactly when reported quotas are true, and when an admissible request stays admissible |
| attestation contract | `ContractModel`, `ContractProofs`, `ContractRuns`, `ContractAnswers`, `Paging`, `Rent`, `Contract` | a well-formed append-only log per pair in every reachable state; conservation of the count; batch = fold; no resurrection; pauses freeze; when each entry point succeeds and with which error it fails; who is in charge and who signs; paging while the contract runs; rent windows |
| M-of-N governance | `Multisig` | when a signer list is accepted; exactly when quorums intersect; what counting list entries does and does not prove |
| circuit breaker | `CircuitBreakerModel`, `CircuitBreakerProofs`, `CircuitBreaker` | state and answer from the history alone, load bound and probe discipline over all interleavings; exactly when a second probe can join the first, and that it can happen |
| retrying delivery | `DeliveryModel`, `Delivery` | termination, number of sends and time taken for every world; exact behaviour against a host that is down |
| idempotent processing | `IdempotencyModel`, `Processor` | first write wins; exactly when a key is delivered at most once, and when a duplicate repeats the first outcome |
| hostname scanner | `DomainValidator` | the one-pass scan equals the label grammar |

Objects that the source updates in place are classes here (`RateLimiter`, `Ledger`,
`CircuitBreaker`, `Permit`, `CircuitBreakerRegistry`, `IdempotencyStore`, `MultisigStore`),
loops are loops, and each such method is proved equal to a function on values. The theorems
about runs are about those functions. `Prelude` holds the shared option, result and 64-bit
types. Sending, clocks, storage faults and the other users of
a shared breaker are parameters.

Modelling choices. Clock and window length of the rate limiter are whole milliseconds and the
clock does not go back; limits are real numbers and the estimate is exact. The 64-bit counters
of the contract trap when full, as its release profile checks overflow; expiry times saturate.
An invocation that fails leaves the ledger as it was, which is the host's doing: `Ledger.Invoke`
restores it and `Ledger.AttestBatch` shows what would stay behind otherwise.

## Where the code and its documentation differ

The model follows the code.

- `webhook-sdk/src/circuit_breaker.rs:164-166` says an ordinary success cannot arrive while the
  circuit is open. It can, from a permit granted earlier; `OrdinaryBesideProbe` gives such a run
  for every configuration. For the same reason "exactly one probe" (lines 7-10) holds only under
  the conditions that `ExactlyOneProbe` and `SecondProbeIff` state.
- `sdk/src/types/rateLimit.ts:20-22` says a counter has decayed to nothing one window after the
  last request. It takes two; `PruningInvisibleIff` says for every configuration which retention
  is long enough.
- `sdk/src/types/rateLimit.ts:12-15` calls the limits the maximum within `windowMs`.
  `CapsTrailingIff` says for which configurations that is true of every stretch of that length,
  per attestor and globally.
- `src/contract.rs:212-214` says batch entries are validated before any is written. The maximum
  lifetime is not; `PartialWriteIff` says exactly when a refused batch has written something, and
  `RollbackNeeded` is an example.
- `src/contract.rs:447-448` says rotating signers requires M-of-N signatures. The signatures are
  not looked at and no signer's authorisation is asked for; `RotateIff` states what is.
- `webhook-sdk/src/processor.rs:78` says a duplicate of a failed delivery returns the same error.
  It returns the cached failure as a successful duplicate: `FailureThenDuplicate`, and
  `DuplicateAgreesIff` for every run.
- `webhook-sdk/src/processor.rs:17` promises at-most-once execution. `AtMostOnceIff` says exactly
  when it holds, and `OverlapDeliversTwice` is a run in which it does not.
- `src/contract.rs:430` says `initialize_multisig` is callable once. It can be repeated until there
  are both an admin and a stored set; `InstallIff` has the condition and `InstalledTwice` an example.
- `sdk/src/types/rateLimit.ts:39-42` calls `remaining` the requests left. `QuotaExactIff` says for
  which configurations exactly that many succeed.
- `webhook-sdk/src/retry.rs:6` calls `max_retries` the number of retries. It is the number of
  attempts, and zero still makes one.

## Model

| member | source | states |
|---|---|---|
| SlidingWindow.CreateState | sdk/src/services/rateLimiter.ts:41-48 | a new counter starts at the aligned start of the time's window and has counted nothing |
| SlidingWindow.AlignIff | sdk/src/services/rateLimiter.ts:37-39 | the start is the one multiple of the window length with the time less than a window after it |
| SlidingWindow.RollByIndex | sdk/src/services/rateLimiter.ts:51-71 | rolling is a case split on how many windows have passed: none keeps, one shifts, more clear; a clock that went back keeps |
| SlidingWindow.EstimateOutside | sdk/src/services/rateLimiter.ts:74-78 | before the current window the previous count weighs in full, after it not at all |
| SlidingWindow.RollCompose | sdk/src/services/rateLimiter.ts:51-71 | rolling to t1 and then to t2 is rolling to t2, so lazy rolling leaves no trace |
| SlidingWindow.EstimateDecays | sdk/src/services/rateLimiter.ts:51-78 | with nothing counted in between the estimate never rises with time, also across window boundaries |
| SlidingWindow.FitsScaled | sdk/src/services/rateLimiter.ts:74-78 | the admission test equals a test on whole numbers, previous * (w - e) + current * w + w against limit * w |
| RequestLog.RollExact | sdk/src/services/rateLimiter.ts:51-71 | rolling the exact counts of a log at one time gives the exact counts at a later time |
| RequestLog.ForgottenIsFresh | sdk/src/services/rateLimiter.ts:173-187 | an attestor silent for two windows has exactly the counters of one never seen |
| RateLimiterRefinement.CallRefines | sdk/src/services/rateLimiter.ts:126-171 | one call reports what the full log would report and keeps all counters exact |
| RateLimiterRefinement.RunRefines | sdk/src/services/rateLimiter.ts:126-187 | every run of calls and sweeps reports what the full log would report; all tracked counters equal the log's counts, and whoever is untracked has none in the last two windows |
| RateLimiterRetention.RunSound | sdk/src/services/rateLimiter.ts:126-187 | every run of every configuration, whatever its retention: the global counter is exact, no attestor's counter exceeds the exact one, with a retention of a window it lacks at most a previous window older than the retention, and every admitted request passed each limit that is enforced |
| RateLimiterRetention.WeighedCap | sdk/src/services/rateLimiter.ts:144-154 | a window never admits more than the limit; once it has admitted anything by offset e, its count plus the decayed previous count stays within the limit, unless nothing of the previous window is less than a window old |
| RateLimiterPruning.AdmitsAtLeast | sdk/src/services/rateLimiter.ts:126-187 | whatever the retention, a request the full log would admit is admitted |
| RateLimiterPruning.AnswersAsLog | sdk/src/services/rateLimiter.ts:126-187 | whenever pruning is harmless every run reports what the full log would report |
| RateLimiterPruning.TwoWindowsHarmless | sdk/src/services/rateLimiter.ts:22-26 | a retention of two windows, the default, prunes harmlessly whatever the limits |
| RateLimiterPruning.Invisible | sdk/src/services/rateLimiter.ts:119-121 | dropping any denied calls, adding or dropping sweeps, and changing when the limiter prunes leave the full status of every remaining call unchanged |
| RateLimiterRefinement.SweepsEveryNth | sdk/src/services/rateLimiter.ts:20-29 | the limiter sweeps at every pruneIntervalCalls-th call and from then on tracks only attestors seen within the retention before that call |
| RateLimiterRefinement.CallLeaves | sdk/src/services/rateLimiter.ts:126-157 | after one call from any state: exactly the counters its sweep keeps, and the caller's and the global one rolled, one higher if and only if the request is allowed |
| RateLimiterRefinement.TrackedExactly | sdk/src/services/rateLimiter.ts:126-187 | in every run, whatever its clock does, an attestor is tracked, with the time of its last call, if and only if no sweep since then, asked for or every n-th call, came the retention or more after it |
| RateLimiterConservation.GlobalIsSum | sdk/src/services/rateLimiter.ts:141-154 | at the end of every run the global counters are the sums of the tracked attestors' counters: the current ones with a retention of a window, the previous ones too with two |
| RateLimiterBounds.BurstBound | sdk/src/services/rateLimiter.ts:7-18 | in every run, globally whatever the retention and per attestor with one of at least a window: at most L in a fixed window, at most L + p*e/windowMs and fewer than 2L in any stretch of windowMs |
| RateLimiterQuota.QuotaExact | sdk/src/services/rateLimiter.ts:147-160 | of further calls at the same instant exactly the first min(remaining, remainingGlobal) succeed |
| RateLimiterQuota.QuotaExactIff | sdk/src/types/rateLimit.ts:39-42 | for every configuration, that is so after every run if and only if the retention is positive, or the limiter never prunes by itself, or nothing is ever admitted, or the global limit is always the tighter one |
| RateLimiterAdmissibility.StaysAdmissible | sdk/src/services/rateLimiter.ts:126-154 | a request that would be admitted stays so until something else is admitted, if the limiter never prunes by itself or no counter old enough to be swept would still block |
| RateLimiterAdmissibility.AdmissibilityPersistsIff | sdk/src/services/rateLimiter.ts:126-187 | for every limit, window and retention that is so, whatever the prune interval, if and only if nothing is retained, or nothing is ever admitted, or there are no p, c and z such that p requests in one window and c in the next, all at least the retention old with z ms of it left, block one more under the attestor's limit but not under the global one |
| RateLimiterAdmissibility.PersistsClosedForm | sdk/src/services/rateLimiter.ts:126-187 | if floor(G) > floor(L) that condition is retention <= 0 or L < 1 or floor(L) * (2w - retention) <= (L - 1) * w |
| RateLimiterAdmissibility.HarmlessPersists | sdk/src/services/rateLimiter.ts:22-26 | the condition holds wherever pruning cannot be observed, the default retention included |
| RateLimiterAdmissibility.BlockedRun | sdk/src/services/rateLimiter.ts:127-133 | for every such p, c and z the run in which a denied call moves the sweep and makes a later request inadmissible |
| RateLimiterBounds.IdleReadmits | sdk/src/services/rateLimiter.ts:22-26 | with limits of at least one, two idle windows always readmit, whatever the retention |
| RateLimiterBounds.StatusReports | sdk/src/services/rateLimiter.ts:147-170 | every field of a status: the two caps, the largest room left under each, which cap is blamed, and a retry time that is the next window's start |
| RateLimiterBounds.RetryHint | sdk/src/types/rateLimit.ts:43-44 | after a denied call of any run, waiting out retryAfterMs is enough if the window that just ended leaves room by itself, and with a retention above a window only then |
| RateLimiterExactness.CapsTrailingIff | sdk/src/types/rateLimit.ts:12-15 | for every configuration, per attestor and globally: no stretch of windowMs ever holds more than the limit if and only if nothing is ever admitted or a full burst leaves no room, floor(L) * min(2, w) + w > floor(L' * w), where L' is the limit that holds the scope back |
| RateLimiterExactness.PruningInvisibleIff | sdk/src/types/rateLimit.ts:18-24 | for every limit, window and retention: pruning cannot be observed, whatever the prune interval, if and only if floor(L) * (2w - retention) <= (L - floor(L)) * w |
| RateLimiting.RateLimiter.CheckAndConsume | sdk/src/services/rateLimiter.ts:126-171 | the mutable limiter moves and reports as the value model |
| RateLimiting.RateLimiter.CountCall | sdk/src/services/rateLimiter.ts:127-133 | the call counter and the opportunistic sweep move as the value model |
| RateLimiting.RateLimiter.Judge | sdk/src/services/rateLimiter.ts:147-170 | computes the status from the two estimates as the value model |
| RateLimiting.RateLimiter.Prune | sdk/src/services/rateLimiter.ts:178-187 | whatever the visiting order, exactly the entries idle for the retention are removed, and their number returned |
| RateLimiting.RateLimiter.Reset | sdk/src/services/rateLimiter.ts:195-199 | back to the state of a new limiter |
| RateLimiting.NewRateLimiter | sdk/src/services/rateLimiter.ts:91-113 | accepts exactly the valid configurations, fills in the default retention of two windows and the default interval of 500 calls, and reports the first check that fails |
| CircuitBreakerProofs.LoadBound | webhook-sdk/src/circuit_breaker.rs:140-186 | once open at t0 and until a success, in every interleaving the k-th permit comes no earlier than t0 + k * cooldown and is a probe |
| CircuitBreakerProofs.EveryInterleaving | webhook-sdk/src/circuit_breaker.rs:162-186 | half-open means a probe is unresolved; the failure count is the ordinary failures since the last success |
| CircuitBreakerProofs.FollowsHistory | webhook-sdk/src/circuit_breaker.rs:140-186 | in every interleaving the opening time is that of the last trip since the last success, where every failure that finds the threshold reached is a trip, late ones included; state and next answer follow from it and from whether a probe was let through since |
| CircuitBreakerProofs.OpenEndsWithCooldown | webhook-sdk/src/circuit_breaker.rs:144-154 | an open circuit admits a probe exactly from the end of its cooldown on |
| CircuitBreakerProofs.ExactlyOneProbe | webhook-sdk/src/circuit_breaker.rs:7-10 | if no ordinary permit is out when a probe is granted, one probe is out in half-open and none otherwise, and the circuit is open only with its threshold reached |
| CircuitBreakerProofs.SecondProbeIff | webhook-sdk/src/circuit_breaker.rs:155-171 | from any reachable half-open state, for any probe that is out, another can be granted before it resolves if and only if any other permit is out |
| CircuitBreakerProofs.OrdinaryBesideProbe | webhook-sdk/src/circuit_breaker.rs:162-171 | for every configuration a run that opens with an ordinary permit out, whose success closes the circuit, and goes on to half-open with that permit beside the probe |
| CircuitBreaking.CircuitBreaker.TryAcquire | webhook-sdk/src/circuit_breaker.rs:140-160 | grants, refuses and changes state as the transition system |
| CircuitBreaking.CircuitBreaker.RecordSuccess | webhook-sdk/src/circuit_breaker.rs:162-171 | closes and clears the breaker |
| CircuitBreaking.CircuitBreaker.RecordFailure | webhook-sdk/src/circuit_breaker.rs:173-186 | counts, trips and re-opens as the transition system |
| CircuitBreaking.Permit.Success | webhook-sdk/src/circuit_breaker.rs:95-99 | reports one success; the destructor that follows adds nothing |
| CircuitBreaking.Permit.Failure | webhook-sdk/src/circuit_breaker.rs:101-104 | reports one failure; the destructor that follows adds nothing |
| CircuitBreaking.Permit.Drop | webhook-sdk/src/circuit_breaker.rs:113-119 | an unreported permit counts as a failure, a reported one as nothing |
| CircuitBreaking.CircuitBreakerRegistry.BreakerFor | webhook-sdk/src/circuit_breaker.rs:207-213 | a host keeps its breaker, a new host gets a closed one, and hosts never share |
| DeliveryModel.BackoffCapped | webhook-sdk/src/retry.rs:29-34 | no wait exceeds the maximum |
| DeliveryModel.BackoffGrows | webhook-sdk/src/retry.rs:29-34 | with a multiplier of at least one, waits never get shorter |
| DeliveryModel.BackoffStarts | webhook-sdk/src/retry.rs:29-34 | the first wait is the initial backoff, up to the cap |
| DeliveryModel.BackoffGeometric | webhook-sdk/src/retry.rs:29-34 | with a whole multiplier each wait is that multiple of the one before, up to the cap |
| DeliveryModel.BackoffMeans | webhook-sdk/src/retry.rs:29-34 | every wait is the initial backoff times that power of the multiplier, capped, in whole milliseconds rounded down; negative becomes zero |
| DeliveryModel.PowSplits | webhook-sdk/src/retry.rs:30-31 | powers multiply when exponents add, and the first power is the number itself |
| DeliveryModel.AttemptMeans | webhook-sdk/src/delivery.rs:55-98 | one attempt under a breaker that others use meanwhile: refused without a send, or one send reported to the breaker as it then is; a failure is retried after the backoff for the attempts before it |
| DeliveryModel.DeliverTakes | webhook-sdk/src/delivery.rs:50-98 | the time a delivery takes is that of its sends and the pauses between them, plus the last pause if it is cut off |
| DeliveryModel.DeliverEnds | webhook-sdk/src/delivery.rs:50-98 | whatever the host, clock and other tasks do: at most max(1, maxRetries) sends; success is the first successful send, with its attempt number, status, body, time and the error before it, and leaves the breaker closed; giving up means every attempt failed; only a breaker stops earlier |
| DeliveryModel.DownHost | webhook-sdk/src/delivery.rs:50-98 | alone against a down host, whatever the pauses: how many sends are made, ending at the first pause shorter than the cooldown once the threshold is reached; CircuitOpen exactly when attempts were left; the circuit left open exactly when the threshold was reached |
| DeliveryModel.DownHostShort | webhook-sdk/src/delivery.rs:50-98 | if the pause after the threshold is reached is shorter than the cooldown, exactly min(threshold - f, max(1, maxRetries)) sends |
| Delivering.Attempt | webhook-sdk/src/delivery.rs:60-83 | one permit per send, resolved exactly once by the outcome; refused without sending when the circuit is open |
| Delivering.Deliver | webhook-sdk/src/delivery.rs:50-98 | the loop refines the model; each permit it takes is its own, one per send, and resolved on return |
| IdempotencyModel.CachedForever | webhook-sdk/src/idempotency.rs:46-62 | a cached response never changes |
| IdempotencyModel.DeliveriesBounded | webhook-sdk/src/processor.rs:40-86 | in every interleaving, faults included, a key is delivered at most as often as calls looked it up before its first record |
| IdempotencyModel.BoundAttained | webhook-sdk/src/processor.rs:40-64 | from any point that bound can still be reached |
| IdempotencyModel.AtMostOnceIff | webhook-sdk/src/processor.rs:15-20 | from any point of any interleaving the calls already under way deliver a key at most once in all if and only if at most one call looked it up before its first record |
| IdempotencyModel.OverlapDeliversTwice | webhook-sdk/src/processor.rs:40-54 | two overlapping calls that deliver one key twice |
| IdempotencyModel.SequentialAtMostOnce | webhook-sdk/src/processor.rs:35-86 | one call at a time: at most one delivery plus one per lost record, and every finished call reported the one cached outcome, a failed first call as an error |
| IdempotencyModel.EndsAsDelivered | webhook-sdk/src/processor.rs:53-84 | in every interleaving a call that delivered ends with its own response, or with the error if the delivery failed, unless its record is lost |
| IdempotencyModel.DuplicatesAnswer | webhook-sdk/src/processor.rs:44-50 | in every interleaving a call whose lookup finds its key cached ends with that response and no error |
| IdempotencyModel.DuplicateAgreesIff | webhook-sdk/src/processor.rs:72-83 | in every interleaving a call that delivered and one that found its key cached agree on success or error if and only if that delivery succeeded; one call at a time the second also returns that delivery's response |
| IdempotencyModel.FailureThenDuplicate | webhook-sdk/src/processor.rs:78-83 | a run in which the first call fails and its duplicate succeeds with the cached failure |
| Processing.IdempotencyStore.Insert | webhook-sdk/src/idempotency.rs:46-62 | first write wins, other keys untouched |
| IdempotencyModel.LookupFindsFirst | webhook-sdk/src/idempotency.rs:46-83 | after any sequence of inserts a lookup finds the first one made for its key, and nothing else |
| Processing.IdempotencyStore.Get | webhook-sdk/src/idempotency.rs:66-83 | returns the response of the first insert ever made for the key |
| Processing.ResponseMeans | webhook-sdk/src/processor.rs:57-76 | what is cached for a delivery: the attempt number and status of the first send that succeeded, or the text of the error it ended with |
| Processing.Process | webhook-sdk/src/processor.rs:40-86 | a cached key is answered from the table without a send; any other is delivered, the caller gets the attempt and status of the first successful send or the delivery error, and exactly that, error text included, is cached for the key and nothing else changes; storage faults surface; table and result are those of the interleaving model |
| DomainValidator.LabelsSplit | src/domain_validator.rs:44-49 | the grammar's labels are the dot-free pieces that join back to the input |
| DomainValidator.ScanStep | src/domain_validator.rs:35-61 | the scanner takes a byte exactly when the prefix can still become valid |
| DomainValidator.IsValidDomainSyntax | src/domain_validator.rs:26-68 | accepts exactly when the given length is 3..255 and there are at least two labels, all valid |
| DomainValidator.ValidateAnchorDomain | src/domain_validator.rs:13-15 | equals the hostname grammar |
| DomainValidator.ValidateDomainSyntax | src/domain_validator.rs:22-24 | equals the grammar below 2^32 bytes; beyond, only the length's residue is checked |
| DomainValidator.CutExactly | src/domain_validator.rs:22-24 | exactly which strings the 32-bit cut makes it accept against the grammar, and that there are some |
| Multisig.CheckDistinct | src/multisig.rs:63-72 | true iff no signer occurs twice |
| Multisig.ObjectionMeans | src/multisig.rs:127-150 | which of the three objections a proposed set meets, and that a valid one meets none |
| Multisig.CheckSigners | src/multisig.rs:127-150 | the checks in order: no objection iff the signers are distinct and the threshold between one and their number |
| Multisig.IsAuthorizedSigner | src/multisig.rs:116-123 | true iff the signer is configured |
| Multisig.VerifyMultisig | src/multisig.rs:45-113 | the loops give the verdict, error precedence included |
| Multisig.VerifyIff | src/multisig.rs:31-44 | accepted iff as many signatures as signers, at least threshold, all distinct and authorised, and the first threshold signatures of 65 bytes |
| Multisig.VerdictMeans | src/multisig.rs:45-113 | which error a refused list gets, in order: not set up, numbers differ, too few, repeated, unknown signer, length of a signature; the first length is looked at whatever the threshold |
| Multisig.QuorumsIntersectIff | src/multisig.rs:45-113 | any two accepted lists share a configured signer if and only if the threshold is a majority |
| Multisig.MultisigStore.InitializeMultisig | src/multisig.rs:127-159 | stores the set iff there is no objection to it |
| Multisig.MultisigStore.RotateSigners | src/multisig.rs:178-209 | replaces a valid set, advancing the nonce; otherwise changes nothing |
| Multisig.MultisigStore.IncrementNonce | src/multisig.rs:163-168 | advances only the nonce, saturating |
| Multisig.CountValidSigners | src/contract.rs:463-473 | the loop counts list entries that name an authorised signer |
| Multisig.EntriesAreHits | src/contract.rs:463-473 | that count is the number of positions of the list that hold an authorised signer |
| Multisig.EntriesVersusSigners | src/contract.rs:463-473 | that count is at least the number of signers named, and equal iff no authorised signer is listed twice |
| Multisig.EntriesProveQuorumIff | src/contract.rs:463-477 | reaching the threshold by entries proves as many signers, for every list, iff the threshold is one |
| ContractProofs.StepInv | src/contract.rs:185-390 | every invocation keeps the log invariant, and appends an entry only when not paused and with the authority the entry needs |
| ContractProofs.LogInvariant | src/storage.rs:178-221 | in every reachable state: history keys are exactly 1..seq, numbered; the stored attestation exists iff seq > 0 and equals entry seq; revocations directly follow the active entry they revoke, same terms; issue times never decrease; an attestation implies an admin; stored signer sets are valid |
| ContractProofs.HistoriesOnlyGrow | src/storage.rs:190-210 | earlier histories are prefixes of later ones |
| ContractProofs.Conservation | src/storage.rs:147-158 | the count is the number of active entries over all pairs, and all histories together hold between count and 2 * count entries |
| ContractRuns.CountIsAccepted | src/storage.rs:147-158 | the count is the number of accepted attestations of the run, single or batched |
| ContractRuns.BatchIsFold | src/contract.rs:222-255 | a non-empty batch commits iff the caller may attest, every entry alone passes, and the counters have room; then it equals attesting one by one; else nothing changes |
| ContractAnswers.AttestIff | src/contract.rs:185-306 | an attest succeeds iff the contract runs, the attestor is listed and authorised it, the lifetime is positive and within the type's maximum, the type has at most 24 characters and no counter is full; each error iff its check is the first to fail |
| ContractAnswers.BatchRefused | src/contract.rs:222-235 | the errors of a batch before any entry is looked at |
| ContractAnswers.BatchMalformed | src/contract.rs:237-242 | the first entry without a lifetime or with too long a type gives a batch its error |
| ContractAnswers.BatchFailsAs | src/contract.rs:244-253 | otherwise the first entry that could not be attested after those before it gives the error it would give alone |
| ContractAnswers.OverflowLeaves | src/contract.rs:294-296 | what stays in storage, for the host to undo, when a 64-bit counter overflows between the writes |
| ContractRuns.PartialWriteIff | src/contract.rs:210-255 | a refused batch has written something, for the host to undo, if and only if the caller may attest, the pre-check passes, the first entry is written, and not every entry passes with room in the counters |
| ContractRuns.RollbackNeeded | src/contract.rs:237-253 | an entry over its maximum lifetime is refused only after the entries before it are written |
| ContractRuns.AttestMakesValid | src/contract.rs:262-306 | an accepted attest makes its pair valid exactly until now + ttl, under its own hash and attestor, appends exactly that to its history, and leaves everything else alone |
| ContractRuns.RevokeExactly | src/contract.rs:333-360 | in any reachable state, exactly when a revoke commits, and all it changes |
| ContractAnswers.RevokeIff | src/contract.rs:333-360 | in every state, when a revoke succeeds, and each error iff its check is the first to fail |
| ContractAnswers.RenewIff | src/contract.rs:371-390 | a renewal succeeds, paused or not, iff the authorised caller is the admin or the attestor of an existing attestation, and stores nothing new; each error iff its check is the first to fail |
| ContractRuns.NoResurrection | src/contract.rs:317-326 | between successful attests for a pair, is_valid can only go from true to false |
| ContractRuns.PauseFreezes | src/contract.rs:76-85 | while the contract stays paused, attestations, histories and count are constant |
| ContractRuns.GovernanceFollows | src/contract.rs:43-117 | in every run the admin, the pause flag and the allow-list are what the last successful call about them made them |
| ContractAnswers.InitializeIff | src/contract.rs:43-52 | succeeds iff there is no admin and the new one authorised it, and each error otherwise |
| ContractAnswers.AdminCallIff | src/contract.rs:61-174 | each of the eight admin calls succeeds iff there is an admin who authorised it and its own condition holds, with its own error otherwise, and touches nothing but the settings |
| ContractRuns.AdminAuthority | src/contract.rs:61-174 | once there is an admin, nothing about the administration changes without their authorisation |
| ContractRuns.InstallIff | src/contract.rs:431-440 | a signer set is installed iff it is valid and there are not yet both an admin and a stored set |
| ContractRuns.InstalledTwice | src/contract.rs:430-440 | before there is an admin a second set replaces the first |
| ContractRuns.RotateIff | src/contract.rs:449-481 | whoever authorised the call, a rotation succeeds iff enough list entries name stored signers and the new set is valid; without repeats, iff a threshold of signers is named |
| ContractAnswers.GovernErrors | src/contract.rs:431-481 | which error a refused installation or rotation gives, and that an accepted one changes the signer set alone |
| ContractRuns.SignersFollow | src/multisig.rs:127-209 | in every run the stored set is the last one installed or rotated in, and its nonce counts the rotations since, saturating |
| ContractRuns.MaximumPrecedence | src/storage.rs:284-313 | in every run the maximum lifetime is the last per-type override, else the last default, else 365 days, and never zero |
| Paging.PageMeans | src/storage.rs:234-280 | a page entry by entry: how many it has and which, forward and backward, from number 0 and beyond the end |
| Paging.ListHistory | src/storage.rs:234-280 | the loops return the stored entries number by number, as many as asked for or left, forward or backward; number 0 costs a forward page one place; nothing beyond the end; no limit is an error |
| Paging.ForwardWalkExact | src/storage.rs:223-233 | pages read forward from 1, resuming after the last number, join to a gap-free prefix of every later history; an empty page means the then-current end; full pages bound the walk |
| Paging.BackwardWalk | src/storage.rs:253-265 | pages read backward join to the first seen history reversed, as far as the cursor has come, whatever is appended meanwhile |
| Paging.BackwardWalkEnds | src/storage.rs:253-265 | the backward walk is complete within as many pages as there were entries, and an empty page comes exactly when it is |
| Paging.WalksInRun | src/contract.rs:396-422 | both walks, with requests made at any points of any run of the contract |
| Rent.ExtendToIsClamp | src/storage.rs:60-67 | for every 64-bit lifetime the conversion is the exact clamp of a fifth of it between 30 days and the ceiling, and monotone |
| Rent.CoversIff | src/storage.rs:42-53 | the window covers the remaining life to within a ledger iff the network ceiling does not cut it |
| Rent.BumpLeavesHalf | src/storage.rs:69-75 | a gated bump never shortens an entry, leaves at least half the window, and changes nothing while more than half is left |
| Rent.WindowCoversLife | src/storage.rs:131-145 | while no maximum above 365 days is configured, every stored attestation's window covers its remaining life, does not exceed it or 30 days, and stays below the ceiling |
| Contract.Ledger.PushAttestationHistory | src/storage.rs:194-210 | advances the pair's number and stores the entry under it |
| Contract.Ledger.RecordAttestation | src/contract.rs:262-306 | objects and writes nothing, or writes latest record, history and count, up to a counter that is full |
| Contract.Ledger.StoreAttestation | src/contract.rs:294-296 | the three writes in order, and what is stored when a counter overflows between them |
| Contract.Ledger.Attest | src/contract.rs:185-208 | guards in order, then records |
| Contract.Ledger.AttestBatch | src/contract.rs:222-255 | both loops, partial writes included, as the model |
| Contract.Ledger.Revoke | src/contract.rs:333-360 | guards in order, then writes and appends the revocation, up to a counter that is full |
| Contract.Ledger.RenewAttestation | src/contract.rs:371-390 | changes no stored content |
| Contract.Ledger.Initialize | src/contract.rs:43-52 | once, and only with the new admin's authorisation |
| Contract.Ledger.Administer | src/contract.rs:61-174 | the admin-only calls, each with its guard and effect |
| Contract.Ledger.Govern | src/contract.rs:431-482 | initialisation and rotation of the signer set |
| Contract.Ledger.Invoke | src/contract.rs:39-40 | one invocation commits as the model says or leaves the ledger as it was |

## Left out

- Ledger archival, rent prices, footprint and metering: they belong to the host; persistent entries are taken as present, and the rent window is an amount asked for.
- Event publishing, error numbers and `Symbol` decoding: wire shape only; a type is a string and its length the string's.
- SHA-256, HMAC and signature verification: foreign cryptography; keys and hashes are plain values and signatures are only measured, as in the source.
- HTTP, SQLite and logging: sending is an oracle and the table a map; `cleanup_old_records` is not part of this model.
- Floating point: estimates and backoffs are exact; rounding of doubles is not modelled.
- Rate limiter with a clock that goes back, fractional milliseconds or non-finite inputs: not modelled.
- RateLimiterBounds.RetryHint: with a retention of a window or less only one direction is stated, since a sweep can drop the counter before the retry.
- CircuitBreaking.CircuitBreaker.RecordFailure: the 32-bit failure counter is unbounded here, as is the attempt counter of a delivery.
- Read-only entry points of the contract, the state lookup of a breaker and `src/migrations.rs`: single lookups, and one schema version.
- Streaming clients, CLI, developer panel, React components, configuration and discovery: timers, user interface and I/O.

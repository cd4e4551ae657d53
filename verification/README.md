# Verification of the service API's stateful core

A Dafny model of the parts of the service API that keep two stores in step,
share state between concurrent requests, or promise an arithmetic or textual
law, with proofs of those promises. `dafny verify dfyconfig.toml` checks the
whole project.

Loops, module-level maps and database updates are modelled as methods over
fields, arrays, maps and sequences, each proved equal to a specification
function; the results below are then proved of those functions, for every
input, run or interleaving. Database, chain, auth service, clock and network
are explicit state or arbitrary parameters.

- `Reconciler`, `LeaseClose` (over `LeaseWorld`): the lease reconciler, the
  user's close with its siblings, and runs that mix both.
- `PatCache`: validation of personal access tokens as interleaved steps.
- `LeaseChain`, `TimerHistory`: the "running since" timer, its second
  implementation in the explain script, and the histories that create rows.
- `Balance`: the gate for time-limited deployments and solvency over runs.
- `Placeholders`, `SecondPass`, `Interpolation`: the `{{...}}` text engines, and
  what interpolating twice does.
- `EventStream`: the queue and waiter of the subscriptions.
- `Backfill`: the service-registry backfill.
- `Sanitize`, `AuditCounters`: what audit events persist, and their counters.
- `StorageTrend`, `ChainGeometry`, `Compose`: accumulated storage, the block
  geometry cache, the compose printer and its firewall ports.
- `Ascii`, `Option`, `OrderedMap`, `Decimals`: shared values (`OrderedMap` is
  the insertion-ordered JavaScript `Map`).

## Where the code and what it says differ

The model follows the code; each point has a lemma named here.

- A chain close that fails is meant to refuse the user's close
  (src/resolvers/akash.ts:675-682), but the orchestrator returns failures
  instead of throwing them (src/services/akash/orchestrator.ts:1057-1060) and
  the resolver does not look at the result, so the row becomes CLOSED over a
  running lease: `TargetLeaksIff`, `OrchestratorDefeatsRefusal`.
- Marking a mismatch CLOSED while its dseq is still listed makes it a leak, so
  one round of the reconciler need not converge: `OneRoundSuffices`,
  `RoundClearsLeaks`. A CLOSE_FAILED row over a running lease is in none of
  the report's lists: `AllClearMeaning`.
- The "recent" value of the 429 fallback is always past its TTL, and of any age
  beyond: `ExpiredIffFallback`, `FallbackHasNoAgeLimit`. A refreshed token is
  not protected from eviction: `RefreshDoesNotProtect`.
- Past 100 rows the timer does reset: `TimerSlidesPastCap`. So it does when a
  stale failure message meets a row whose close failed, as CLOSE_FAILED is not
  among the handlers' terminal states: `RetryTimerIff`,
  `StaleFailureResetsTimer`. A manual start on Phala overwrites the time a row
  became active: `SecondActivationMovesTimer`.
- The offered maximum can itself be refused when the hourly cost is not a
  whole number of cents, as on Akash: `OfferedMaximumCanBeRefused`.
  Reservations of deployments that are not ACTIVE yet are not counted, so an
  admission may not fit: `StepStaysSolventIff`, `PendingReservationsOvercommit`.
- An event that finds the consumer waiting only wakes it and is lost:
  `RunConserves`, `PromptConsumerGetsNothing`.
- Bigints, functions and symbols are not truncated by the sanitiser:
  `StringsAreBoundedIff`. The rolling five-minute counters never forget:
  `CountersBalance`.
- Interpolating twice can differ from once, as when an empty value follows a
  literal `{`: `TwiceIsOnceIff`, `EmptyVariableReopens`. Keys with digits cannot
  be referenced: `DigitKeysAreInvisible`.
- A persisted geometry row is trusted unchecked: `AnswersAreSaneIff`.

## Modelling choices

- A dseq answered as closed or already gone is taken to be no longer listed. A
  failed or throwing close may or may not have landed on chain. Each call is
  one atomic step. A throw in the reconciler's loop covers a failing row
  update as well as a failing close.
- The sibling query and its loop are one pass over the table in row order. Row
  ids are unique (the primary key) and dseqs unique where a statement says so
  (the schema's key is owner and dseq, for one owner).
- One `now` stands for the clock readings within one synchronous stretch of
  code. Rates, hours and seconds per block are exact reals.
- A call's result is delivered to all callers that joined a validation at the
  moment it settles.
- Resuming sets its link in an update after the row is created; the model
  creates the row with the link. A queue handler's check for terminal states
  and the write that follows it are one step.
- Object keys inherited from `Object.prototype`, and the special key
  `__proto__`, are not modelled: maps have only their own keys. Case folding is
  ASCII. A string's length is its number of characters.

## Model

| member | source | states |
|---|---|---|
| Reconciler.Script.LoadDbRows | scripts/reconcile-akash-leases.ts:121-161 | the map of rows holds, for every positive dseq, the status of its last row, and nothing for placeholders |
| Reconciler.Script.ScanChain | scripts/reconcile-akash-leases.ts:192-211 | the first pass lists each orphan and each suspended leak exactly once, and as "healthy active" every listed ACTIVE dseq, mismatches included |
| Reconciler.Script.ScanRows | scripts/reconcile-akash-leases.ts:213-231 | the second pass lists each zombie and each mismatch exactly once |
| Reconciler.Script.BuildReport | scripts/reconcile-akash-leases.ts:173-242 | the five lists of the report are, without duplicates, exactly the dseqs of each finding |
| Reconciler.Script.CloseOnChain | scripts/reconcile-akash-leases.ts:298-321 | for any pattern of answers, exactly the dseqs whose close takes effect leave the chain, and exactly the rows whose close is reported successful are synced |
| Reconciler.Script.FixZombies | scripts/reconcile-akash-leases.ts:323-343 | exactly the ACTIVE rows of the listed dseqs become CLOSED |
| Reconciler.Script.Reconcile | scripts/reconcile-akash-leases.ts:345-381 | a whole round, report first and repairs in the order of `main`, refines the dseq-by-dseq transition `Round` |
| Reconciler.FindingMeaning | scripts/reconcile-akash-leases.ts:183-231 | what the report says of a dseq, in terms of its lease and the status of its last row |
| Reconciler.LastStatusMeaning | scripts/reconcile-akash-leases.ts:142-160 | the status kept for a dseq is that of its last row |
| Reconciler.ChainAfterRound | scripts/reconcile-akash-leases.ts:298-321 | the leases after a round: gone exactly those without a row, or with a CLOSED, FAILED, PERMANENTLY_FAILED or SUSPENDED one, whose close did not fail without effect |
| Reconciler.RowAfterRound | scripts/reconcile-akash-leases.ts:311-343 | every row after a round: CLOSED or PERMANENTLY_FAILED where the close of such a lease was reported successful, CLOSED where it was ACTIVE over no lease or one not open and fixing is on, else unchanged |
| Reconciler.UniqueRowAfterRound | scripts/reconcile-akash-leases.ts:298-343 | with unique dseqs that depends on the row itself and its lease alone |
| Reconciler.RoundFinding | scripts/reconcile-akash-leases.ts:173-343 | the finding of each dseq after a round is determined by its finding before and its own close alone; a repaired mismatch becomes a leak, every other repaired finding is settled |
| Reconciler.OneRoundSuffices | scripts/reconcile-akash-leases.ts:183-231 | with every close succeeding, one round empties the report if and only if it held no mismatch |
| Reconciler.TwoRoundsConverge | scripts/reconcile-akash-leases.ts:183-343 | from any state of chain and table, two rounds with every close succeeding empty the report |
| Reconciler.ClearIsFixpoint | scripts/reconcile-akash-leases.ts:293-377 | once the report is empty a further round, with any flags and answers, changes nothing |
| Reconciler.HealthyUntouched | scripts/reconcile-akash-leases.ts:192-231 | no round, whatever fails, touches the lease or the rows of a dseq without a finding |
| Reconciler.RoundMoves | scripts/reconcile-akash-leases.ts:192-231 | the set of dseqs of each finding after a round, in terms of the repaired ones |
| Reconciler.RoundLowersBacklog | scripts/reconcile-akash-leases.ts:298-343 | for every pattern of failed and throwing closes, orphans + leaks + zombies + 2 x mismatches falls by exactly the number of repaired findings |
| Reconciler.RepairsAreBounded | scripts/reconcile-akash-leases.ts:298-381 | over any run of rounds the repairs add up to the fall of that count, and never exceed what it was at the start |
| Reconciler.UniqueStatus | scripts/reconcile-akash-leases.ts:142-160 | with unique positive dseqs no row is hidden behind a later one |
| Reconciler.AllClearMeaning | scripts/reconcile-akash-leases.ts:183-211 | an empty report means: every listed lease has an ACTIVE row and is open, or has a row in a status the script passes over (CLOSE_FAILED among them), and every ACTIVE row is listed |
| LeaseClose.DeploymentService.CancelSiblings | src/resolvers/akash.ts:756-779 | all in-progress siblings become CLOSED whatever their chain closes answer; only siblings with a positive dseq are closed on chain |
| LeaseClose.DeploymentService.CloseOpenRow | src/resolvers/akash.ts:660-779 | the main path: chain close, then row, refund, policy and siblings, or nothing in the database when refused |
| LeaseClose.DeploymentService.CloseAkashDeployment | src/resolvers/akash.ts:576-782 | state and reply of a whole call, over its four outcomes |
| LeaseClose.Replies | src/resolvers/akash.ts:591-601 | a row that does not exist is answered NotFound, and any reply but success leaves rows, policies and refund counts as they were |
| LeaseClose.ReplyToRow | src/resolvers/akash.ts:599-682 | the reply for a row, by its status and by what the chain call did |
| LeaseClose.RowsAfterClose | src/resolvers/akash.ts:603-779 | after a successful call the target is CLOSED, and another row changes if and only if it belongs to the same service, is in one of the six in-progress statuses, and the target was not SUSPENDED |
| LeaseClose.LeasesAfterClose | src/resolvers/akash.ts:660-774 | the leases a call takes away: the target's, unless it was CLOSED or SUSPENDED or the close had no effect, and those of the rows it changed along with it |
| LeaseClose.OtherLeasesStay | src/resolvers/akash.ts:756-763 | row and lease of another service, or in another status, are untouched by any call |
| LeaseClose.SettledByClose | src/resolvers/akash.ts:608-738 | the policies and refund counts after a call, refused ones included |
| LeaseClose.LeaseAfterClose | src/resolvers/akash.ts:660-779 | a row keeps its lease through a call unless it is the target and its close took effect, or a sibling whose close did |
| LeaseClose.TargetLeaksIff | src/resolvers/akash.ts:662-691 | after a call on a row that was not CLOSED or SUSPENDED, the row is CLOSED over a listed lease exactly when the chain call returned FAILED and had not landed |
| LeaseClose.OrchestratorDefeatsRefusal | src/services/akash/orchestrator.ts:1038-1062 | with the repository's orchestrator, which returns failures instead of throwing them, no call is ever refused, and every failed close of a listed lease ends in a CLOSED row over it |
| LeaseClose.DoneSettlesTarget | src/resolvers/akash.ts:603-738 | a successful call closes its row, stops its policy and zeroes its reservation, touches no other policy, and attempts exactly one refund unless settlement failed |
| LeaseClose.NewLeaksIff | src/resolvers/akash.ts:603-779 | the rows that begin to be CLOSED over a listed lease in one call, exactly |
| LeaseClose.StepKeepsRows | src/resolvers/akash.ts:599-779 | closes and rounds keep every row's identity, and CLOSED is final |
| LeaseClose.StepRefunds | src/resolvers/akash.ts:616-624 | only the call on a row refunds it, and only while it moves to CLOSED |
| LeaseClose.ClosedIsNeverRefunded | src/resolvers/akash.ts:599-601 | over any run of closes and rounds, a CLOSED row gets no refund |
| LeaseClose.RefundedAtMostOnce | src/resolvers/akash.ts:599-719 | over any run of closes and rounds, at most one refund is attempted for each row |
| LeaseClose.CancelledSiblingIsNeverRefunded | src/resolvers/akash.ts:755-779 | a sibling cancelled by a close is refunded neither by that call nor ever after |
| LeaseClose.CallStaysCleanIff | src/resolvers/akash.ts:576-782 | from a clean state (no row CLOSED or SUSPENDED over a listed lease) one call leads to a clean state if and only if it is refused, or leaves the chain alone, or takes away the leases its target and siblings have |
| LeaseClose.RunsStayCleanIff | src/resolvers/akash.ts:576-782 | a run of closes and reconcile rounds from a clean state passes through clean states only, if and only if every call is like that and no round marks a mismatch CLOSED |
| LeaseClose.RoundClearsLeaks | scripts/reconcile-akash-leases.ts:192-211 | a round whose closes all take effect leaves no CLOSED row over a listed lease, if and only if it marked no mismatch CLOSED |
| PatCache.EvictIsValid | src/auth/middleware.ts:128-143 | after an eviction the cache holds at most 10000 entries, all of them unchanged ones |
| PatCache.NoEvictionBelow | src/auth/middleware.ts:128-129 | at or below 10000 entries an eviction changes nothing |
| PatCache.EvictionLeaves | src/auth/middleware.ts:128-143 | above, it leaves exactly the unexpired entries if these are at most 10000, else the last 7500 of them in insertion order |
| PatCache.RefreshDoesNotProtect | src/auth/middleware.ts:134-141 | refreshing the oldest key keeps its place in the order, so it is evicted even when its answer is the newest |
| PatCache.StepKeepsInv | src/auth/middleware.ts:157-248 | every start or completion keeps the in-flight table in step with the outstanding validations, and every cached answer attributable to the service |
| PatCache.CallMeaning | src/auth/middleware.ts:157-190 | a call case by case: an unexpired entry is returned, a validation in flight is joined, without a configured service it throws, else a validation is recorded after an eviction |
| PatCache.ArriveMeaning | src/auth/middleware.ts:199-247 | a response case by case: a valid identity and a null are returned to all that wait and cached for the TTL and for 5000 ms; a rate limit returns what the validation had seen; a rate limit without that, and any other failure, throws; only verdicts count as answers and change the cache |
| PatCache.RunIsSafe | src/auth/middleware.ts:157-248 | in every interleaving at most one validation per token is outstanding, every waiter waits for its own token, and every returned value is an answer given for that token: through the 429 fallback one that had expired when its validation started, otherwise one unexpired or just given |
| PatCache.RunReturnsLatest | src/auth/middleware.ts:163-247 | in every interleaving, whatever a call returns is the newest answer the service has given about its token by then: a superseded answer is never returned |
| PatCache.CallsBalance | src/auth/middleware.ts:157-248 | in every interleaving and for every token, calls = returned + thrown + still waiting |
| PatCache.RunStaysBounded | src/auth/middleware.ts:185-247 | cache size plus outstanding validations stays within 10000 plus the peak of outstanding validations |
| PatCache.RunIsBounded | src/auth/middleware.ts:128-247 | the same for cache size plus in-flight table |
| PatCache.ExpiredIffFallback | src/auth/middleware.ts:163-211 | under a clock that does not run backwards, and for a positive TTL, the very answer a call returned is past its TTL if and only if it came through the 429 fallback, whose comment calls it recent |
| PatCache.FallbackHasNoAgeLimit | src/auth/middleware.ts:207-211 | and every age from the TTL on does occur there |
| PatCache.SweptNext | src/auth/middleware.ts:131-133 | one step of the pass over expired entries deletes the visited key if and only if it has expired |
| PatCache.TokenValidator.DeleteExpired | src/auth/middleware.ts:131-133 | the first eviction loop leaves exactly the unexpired keys, in order |
| PatCache.TokenValidator.DeleteOldest | src/auth/middleware.ts:134-141 | the second eviction loop drops exactly the requested number of oldest keys |
| PatCache.TokenValidator.EvictExpiredEntries | src/auth/middleware.ts:128-143 | the eviction in place equals the specification function |
| PatCache.TokenValidator.BeginValidate | src/auth/middleware.ts:157-190 | a call up to its first await: cache hit, joining, throwing, or eviction followed by recording the new validation |
| PatCache.TokenValidator.HandleResponse | src/auth/middleware.ts:205-242 | each kind of response: what is cached, and what all waiters get, or that they throw |
| PatCache.TokenValidator.FinishValidate | src/auth/middleware.ts:199-247 | the continuation of a validation, after which its in-flight entry is gone however it ended |
| LeaseChain.SinceIsMinimum | src/lib/leaseChain.ts:82-104 | the value returned is attained by a visited row and no visited row is earlier |
| LeaseChain.WalkMeaning | src/lib/leaseChain.ts:82-102 | which link the walk follows for each provider, and where it ends |
| LeaseChain.WalkCycles | src/lib/leaseChain.ts:56-57 | from the first repeated row on, the unguarded walk visits nothing new |
| LeaseChain.StoppingIsExact | src/lib/leaseChain.ts:82-102 | on every graph, cyclic or not, stopping at a repeated or missing row gives the value of the full bounded walk |
| LeaseChain.ResolveActiveSince | src/lib/leaseChain.ts:59-105 | the loop with its visited set returns the earliest time among the first 100 positions of the unguarded walk |
| LeaseChain.LoadChain | scripts/explain-deployment-timer.ts:41-69 | the explain script loads the distinct rows of that walk, at most 100, and stops only where it is exhausted |
| LeaseChain.ExplainAgrees | scripts/explain-deployment-timer.ts:172-187 | folding any such chain gives what the API returns |
| LeaseChain.Explain | scripts/explain-deployment-timer.ts:170-187 | the script's own loop over its chain returns the API's value |
| TimerHistory.HistoryIsForward | src/lib/leaseChain.ts:31-34 | in every history each link leads to an existing, older row, and only one link is set |
| TimerHistory.GuardNeverFires | src/lib/leaseChain.ts:56-57 | in every history no walk meets a row twice |
| TimerHistory.LinkedTimer | src/lib/leaseChain.ts:82-104 | a linked row's timer is no later than its parent's if and only if the row the cap pushes out is not earlier than all that stay |
| TimerHistory.TimerNeverMovesLater | src/lib/leaseChain.ts:82-104 | while no row is activated twice, no history moves any row's timer to a later time |
| TimerHistory.SecondActivationMovesTimer | src/services/providers/phalaProvider.ts:192-195 | a second activation does, since it overwrites the row's time |
| TimerHistory.RetriedKeepsItsTime | src/services/queue/akashSteps.ts:1446-1463 | in every history a row whose failure handler created a retry is never activated again, nor for the first time |
| TimerHistory.RetryTimerIff | src/services/queue/akashSteps.ts:1598 | a retry of a retry, which is linked past the row it replaces, has a timer no later than that row's if and only if the replaced row's own time, where it has one, is not earlier than all that is left |
| TimerHistory.RetryKeepsTimer | src/services/queue/akashSteps.ts:84-90 | it keeps the timer, however long the chain, unless the replaced row is CLOSE_FAILED, a status the handlers do not treat as terminal |
| TimerHistory.StaleFailureResetsTimer | src/services/billing/escrowHealthMonitor.ts:915-921 | for such a row it can reset: a history in which it does |
| TimerHistory.ContinuationKeepsTimer | src/lib/leaseChain.ts:8-21 | timer never resets: for all three providers, at any time after a failover, resume or retry, the new row's timer is no later than the continued row's, while the latter's chain is below the cap; for a retry of a retry without that bound, of a row that is not CLOSE_FAILED |
| TimerHistory.TimerSlidesPastCap | src/lib/leaseChain.ts:36 | after n failovers, n at least 100, the timer starts at row n - 100: beyond the cap it does reset |
| Balance.GetOrgReservedCents | src/resolvers/balanceCheck.ts:68-115 | the loop sums max(0, reserved - spent) over running, ACTIVE, positive reservations |
| Balance.AllowedIsWithinMaximum | src/resolvers/balanceCheck.ts:187-201 | an allowed request asks for no more whole hours than the offered maximum |
| Balance.OfferedMaximum | src/resolvers/balanceCheck.ts:196-211 | asking again for the offered hours is accepted if and only if the rounded-up cost fits; always when rate or available amount is whole; never a whole cent short |
| Balance.OfferedMaximumCanBeRefused | src/resolvers/balanceCheck.ts:196-211 | a balance, a burn and Akash's default rate for which the offered maximum is refused when asked for |
| Balance.FewerHoursStayAllowed | src/resolvers/balanceCheck.ts:187-201 | acceptance is antitone in the hours requested |
| Balance.GateMeaning | src/resolvers/balanceCheck.ts:187-211 | the effective balance is the wallet less accrued cost and reservations; a request is allowed if and only if some whole number of cents covers its exact cost and leaves an hour of burn |
| Balance.MaximumMeaning | src/resolvers/balanceCheck.ts:196-199 | the offered maximum is the largest whole number of hours whose exact cost leaves an hour of burn |
| Balance.RemainingMeaning | src/resolvers/balanceCheck.ts:108-114 | what remains of a reservation: the most whole cents that do not exceed it together with what is spent |
| Balance.AdmittedFits | src/resolvers/balanceCheck.ts:187-218 | an accepted reservation is non-negative and fits beside the reservations counted, the accrued cost and an hour of burn |
| Balance.NothingPendingFits | src/resolvers/balanceCheck.ts:68-115 | with no reservation waiting to become ACTIVE, whatever the gate admits fits beside everything still reserved, the accrued cost and an hour of burn |
| Balance.AdmissionLeavesRoom | src/resolvers/balanceCheck.ts:187-218 | and after it the wallet covers all of these |
| Balance.StepStaysSolventIff | src/resolvers/balanceCheck.ts:68-218 | an admission, activation, debit within a reservation, other charge, stop or deposit keeps the wallet at or above everything still reserved if and only if the cost admitted or charged fits beside it |
| Balance.RunsStaySolventIff | src/resolvers/balanceCheck.ts:68-218 | along any run the wallet always covers everything still reserved, if and only if every admission and charge fits beside it at its moment |
| Balance.ActiveRunsStaySolvent | src/resolvers/balanceCheck.ts:64-218 | where every deployment is ACTIVE once admitted, it does so along every run of admissions, debits, stops and deposits, and with other charges if and only if those fit |
| Balance.BillInFullIsRun | src/resolvers/balanceCheck.ts:64-67 | all running reservations can be debited in full, in any order; that uses them up, and wallet and reservations fall by the same amount |
| Balance.BilledBalance | src/resolvers/balanceCheck.ts:64-67 | billing every running deployment all it has reserved overdraws the wallet if and only if the wallet did not cover everything reserved |
| Balance.PendingReservationsOvercommit | src/resolvers/balanceCheck.ts:76-79 | an input where an admission does not fit: two requests admitted before either is ACTIVE reserve twice the balance, since only reservations of ACTIVE deployments are counted |
| Placeholders.ReadIsReading | src/utils/envInterpolation.ts:22-32 | every text splits into literals and references that spell it, with no match inside a literal |
| Placeholders.ReadingIsUnique | src/utils/envInterpolation.ts:22-32 | that split is the only one |
| Placeholders.ReadingDeterminesReplace | src/utils/envInterpolation.ts:28-32 | the left-to-right replacement renders it: references filled in where they stand, unresolved ones verbatim, all else kept in order |
| SecondPass.KeptIff | src/utils/envInterpolation.ts:28-32 | a pass keeps a text if and only if no reference that can be read from any position of it has a value |
| SecondPass.TwiceIsOnceIff | src/utils/envInterpolation.ts:28-68 | for every text: two passes equal one if, and for values with at most one `{` only if, no literal of its reading and no value filled in opens a reference that has a value |
| SecondPass.TidyTwiceIsOnceIff | src/utils/envInterpolation.ts:28-68 | when literals hold no `{{` and values no braces, two passes equal one if and only if nowhere a literal ending in `{`, an empty reference, and the rest of a reference with a value follow one another |
| SecondPass.EmptyValueReopens | src/utils/envInterpolation.ts:28-68 | the shortest such text, for every pair of references: the second pass changes it if and only if the second reference has a value other than its own text |
| Decimals.DecimalReadsBack | src/utils/envInterpolation.ts:43 | the text of a port number denotes that number |
| Interpolation.GroupsMeaning | src/utils/envInterpolation.ts:22 | which bodies the pattern accepts, and the slug and property it reads off them |
| Interpolation.HostText | src/utils/envInterpolation.ts:37-38 | `{{services.<slug>.host}}` becomes the internal hostname, else the subdomain, else stays |
| Interpolation.PortText | src/utils/envInterpolation.ts:40-44 | `.port` becomes the first port's public number, else its container number; without ports it stays |
| Interpolation.UrlText | src/utils/envInterpolation.ts:46-53 | `.url` in all its cases |
| Interpolation.VariableText | src/utils/envInterpolation.ts:55-63 | `.env.<key>` becomes the value of the first variable with that key up to case, else stays |
| Interpolation.UnknownStays | src/utils/envInterpolation.ts:33-66 | a reference to an unknown service or property stays |
| Interpolation.BuildServiceMap | src/utils/envInterpolation.ts:73-91 | the lookup map holds the last sibling with each slug, and never a subdomain |
| Interpolation.ResolveEnvVars | src/utils/envInterpolation.ts:97-105 | every variable keeps its key and its place, and its value becomes the rendering of its reading |
| Interpolation.InterpolationRendersReading | src/utils/envInterpolation.ts:28-68 | interpolation is one left-to-right pass over the unique reading of the value |
| Interpolation.InterpolationIsIdempotentIff | src/utils/envInterpolation.ts:28-68 | interpolating twice equals interpolating once if and only if nothing opens a reference that has a value, with the same proviso on values |
| Interpolation.EmptyVariableReopens | src/utils/envInterpolation.ts:22-68 | the text `{{{services.<slug>.env.<key>}}{services.<slug>.host}}` is changed by a second interpolation if and only if that service, whose variable is empty, has a host other than the reference itself |
| Interpolation.DigitKeysAreInvisible | src/utils/envInterpolation.ts:22-63 | a variable whose key has a digit can be removed without changing any interpolation |
| Interpolation.ConnectionStringsSeeDigits | src/utils/connectionStrings.ts:20-38 | a connection string does look up such a key, and takes the first variable with that key up to case; without one it stays |
| Interpolation.HostAndPortPlaceholders | src/utils/connectionStrings.ts:25-33 | `{{host}}` and `{{port}}` of a connection string in all their cases; in another case they stay |
| Interpolation.ConnectionRendersReading | src/utils/connectionStrings.ts:25-42 | connection strings are resolved in one left-to-right pass over their unique reading |
| Interpolation.ConnectionIsIdempotentIff | src/utils/connectionStrings.ts:25-42 | and resolving twice equals resolving once under the same exact condition |
| EventStream.RunConserves | src/resolvers/index.ts:2661-2695 | in every interleaving, yielded then queued is the in-order subsequence of emitted events that found no waiter, and emitted = yielded + queued + one lost event per wake-up |
| EventStream.PromptConsumerGetsNothing | src/resolvers/index.ts:2678-2695 | events that arrive one at a time, each after the consumer waits again, are all lost |
| EventStream.Subscription.Handle | src/resolvers/index.ts:2739-2751 | the handler wakes the waiter without queueing, or queues |
| EventStream.Subscription.Advance | src/resolvers/index.ts:2755-2772 | a turn of the generator yields the head of the queue or installs the waiter |
| Backfill.PassExtendsRegistry | scripts/backfill-service-registry.ts:38-158 | a pass only appends services |
| Backfill.PassKeepsWellFormed | scripts/backfill-service-registry.ts:54-86 | ids, and pairs of type and slug, stay unique |
| Backfill.EveryRowIsSettled | scripts/backfill-service-registry.ts:19-23 | a row without a service ends up linked to a service of its own type, slug and project, or unlinked exactly when another project owns its type and slug; linked rows are unchanged |
| Backfill.ConflictsAreReal | scripts/backfill-service-registry.ts:59-68 | every reported conflict names an unlinked row, its project, and that of a service which owns its type and slug |
| Backfill.ConflictsAreReported | scripts/backfill-service-registry.ts:59-68 | every unlinked row that stays unlinked is reported |
| Backfill.CreatedServicesAreRows | scripts/backfill-service-registry.ts:79-92 | every created service has type, slug and project of a row, which is linked to it |
| Backfill.CountsAddUp | scripts/backfill-service-registry.ts:96 | rows scanned = created + reused + conflicts, and created is the growth of the registry |
| Backfill.ScriptSettlesAll | scripts/backfill-service-registry.ts:160-173 | after the whole script every site is linked to a SITE service of its own slug and project or conflicts with one of another project, and every function likewise with a FUNCTION service |
| Backfill.SecondPassIsIdle | scripts/backfill-service-registry.ts:19-23 | a second pass, even in a registry grown since, writes nothing and reports the same conflicts |
| Backfill.SecondRunIsIdle | scripts/backfill-service-registry.ts:160-173 | the whole script run twice: no change and the same conflicts |
| Backfill.Database.BackfillSites | scripts/backfill-service-registry.ts:38-97 | the loop over sites equals the specification pass |
| Backfill.Database.BackfillFunctions | scripts/backfill-service-registry.ts:99-158 | the loop over functions equals the specification pass |
| Backfill.Database.Run | scripts/backfill-service-registry.ts:160-173 | sites first, then functions in the same registry, with one list of conflicts |
| Sanitize.SanitizedIsSafe | src/lib/audit.ts:222-248 | for every payload: no value under a secret key survives, arrays have at most 65 items, nesting is bounded by the depth limit |
| Sanitize.SecretKeyMeaning | src/lib/audit.ts:215-216 | which keys are secret |
| Sanitize.ScalarMeaning | src/lib/audit.ts:224-228 | numbers, booleans and null are kept; a string keeps its first 4096 characters |
| Sanitize.ArrayMeaning | src/lib/audit.ts:229-235 | an array keeps its first 64 items and a marker with the number dropped |
| Sanitize.ObjectMeaning | src/lib/audit.ts:236-247 | an object keeps its keys in order, and all values but those of secret keys, sanitised one level deeper |
| Sanitize.StringsAreBoundedIff | src/lib/audit.ts:222-252 | strings come out at most 4097 long exactly when the visited bigints, functions and symbols have so short a text |
| Sanitize.IdempotentIff | src/lib/audit.ts:222-252 | sanitising twice equals once exactly when no visited array is longer than 65 and no visited text is truncated |
| Sanitize.SanitizeValue | src/lib/audit.ts:222-248 | the recursive procedure with its loops equals the specification function |
| AuditCounters.CountersBalance | src/lib/audit.ts:80-167 | over any interleaving attempted = succeeded + failed + rejected + outstanding, and attempted counts every call ever made |
| AuditCounters.BucketsTally | src/lib/audit.ts:85-95 | each counter of each bucket holds exactly the events of its own kind in all minutes that share the bucket |
| AuditCounters.AuditLog.GetAuditWriteStats | src/lib/audit.ts:97-115 | the totals over all five buckets |
| StorageTrend.TrendConserves | src/resolvers/index.ts:720-733 | counts sum to the number of deployments, the last total is the sum of all sizes, totals never fall for non-negative sizes |
| StorageTrend.OneMore | src/resolvers/index.ts:700-710 | what one more deployment adds to sums and counts: its pinned size, or nothing without one |
| StorageTrend.TrendIsUnique | src/resolvers/index.ts:720-733 | the specification of the trend admits only one list of points |
| StorageTrend.TallyByDay | src/resolvers/index.ts:698-718 | the nested loops tally size and count of every day |
| StorageTrend.StorageUsageTrend | src/resolvers/index.ts:698-733 | dates strictly increase, one per day with a deployment, each with that day's count and everything stored on or before it |
| ChainGeometry.SampleMeaning | src/config/pricing.ts:225-262 | which responses are accepted, in terms of height and time between the first and the last block, and that the accepted values are the rate and the nearest whole blocks to an hour and a day of it |
| ChainGeometry.SampleIsSane | src/config/pricing.ts:246-261 | every accepted sample has blocksPerDay in [12000, 16000] and within 12 of 24 blocksPerHour |
| ChainGeometry.SampleServesAnHour | src/config/pricing.ts:317-337 | for an hour after a live sample every call answers with it |
| ChainGeometry.PersistedSampleSurvivesRestart | src/config/pricing.ts:335-376 | a persisted sample answers after a restart while the API is down |
| ChainGeometry.RunStaysSane | src/config/pricing.ts:314-387 | calls, failures and restarts keep cache and persisted row sane |
| ChainGeometry.AnswersAreSaneIff | src/config/pricing.ts:314-387 | every geometry returned in any run from a fresh process is sane if and only if the persisted row is absent or sane |
| Compose.ThreeReplacesAreOne | src/templates/compose.ts:126-128 | the three sequential replacements are one character-by-character substitution |
| Compose.EscapeRoundTrip | src/templates/compose.ts:126-128 | between quotes, the escaped text reads back as the text and ends at its own closing quote (sections 5.7 and 7.3.1 of YAML 1.2.2) |
| Compose.PortMappings | src/templates/compose.ts:193-205 | the printed port entries: all public ports in order, else one fallback |
| Compose.OnePort | src/templates/compose.ts:193-197 | a port is published exactly when it is public, to its own container port |
| Compose.MappingFallback | src/templates/compose.ts:198-204 | the fallback when no port is public |
| Compose.ExposePorts | src/resolvers/spheron.ts:517-528 | the firewall ports: all positive host ports in order, else one fallback |
| Compose.ExposedFallback | src/resolvers/spheron.ts:519-528 | the fallback when no host port is positive |
| Compose.BoundPortsAreOpenIff | src/resolvers/spheron.ts:501-528 | every host port compose binds is opened exactly when all of them are positive |
| Compose.VolumeMounts | src/templates/compose.ts:213-224 | the mount entries: the attestation socket on Phala, then each volume in order |
| Compose.MountAt | src/templates/compose.ts:214-224 | the i-th volume's entry mounts that volume at its own path, after the socket on Phala |
| Compose.MountedIffDeclared | src/templates/compose.ts:213-235 | for volume names the parser lets through, a name is mounted as a volume if and only if it is declared at top level |

## Left out

- `getOrgHourlyBurnCents`, `getOrgUnbilledCents` and `assertDeployBalance`: burn and unbilled cost are arbitrary non-negative parameters of the check; the other gate is settled by reading its branches.
- `storageAnalytics`: running sums of the kind proved for the trend.
- Authentication and authorisation branches of the resolvers, the INACTIVE flag of a closed function, audit events, proxy invalidation and the concurrency counter of a close.
- Escrow settlement and refund amounts: the model counts refund attempts.
- Races between two calls of the close on one row; the billing scheduler, sweeper and other writers of deployment rows.
- TimerHistory.RetriedKeepsItsTime: a poll that passed its status check just before the failure handler ran, and activates the row after it, is not modelled; the two handlers are steps of one queue.
- Subscription set-up before the handler is registered, and `return` on the generator.
- Cyclic payloads, getters and class instances: a payload is a finite tree of plain values.
- The text of a whole compose file, its environment block, and `$` interpolation by Docker Compose.
- The AKT price cache, HTTP parsing of the block sample, and the calculation helpers of the pricing module.
- SecondPass.TwiceIsOnceIff: for a newly opened reference whose value has more than one `{` it states one direction only; then it is not decided reference by reference (SecondPass.BracesCanBalance).
- Compose.EscapeRoundTrip: reads only the three escapes the printer writes, so it says nothing of control characters other than newline, which YAML does not allow unescaped.

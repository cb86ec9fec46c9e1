# Verified model of the trading platform's deterministic core

A Dafny model of the parts of the platform whose answers must not depend on scheduling, input order or formatting, with
proofs of what they promise.

| file | what it models |
|---|---|
| `calendar.dfy`, `reporting_schedule.dfy` | the proleptic Gregorian calendar, report windows, run boundaries, window keys |
| `workflow_store.dfy` | the in-memory and the SQL workflow store, as classes over their mutable state |
| `workflow_service.dfy` | the workflow service as a step system: one step per await-free section, freely interleaved, with lost replies, throwing listeners and crashes |
| `ratio_format.dfy`, `json_canonical.dfy` | ratio rendering and the recursive canonical form behind replay signatures |
| `reconciliation.dfy` | keyed windows, their ordered diff, the run summary, and the recovery gate that reads its mismatch rate |
| `timestamps.dfy` | the text of a report timestamp, and where its order departs from the order of time |
| `attribution.dfy` | grouped cost-aware aggregation with a tie-broken representative |
| `alpha_health.dfy` | threshold breaches and the deallocation trigger |
| `promotion.dfy` | the stressed-replay gate, its summary, the evidence packet and the promotion decision |
| `incidents.dfy`, `alerts.dfy` | the windowed timeline query; alert suppression and alert identifiers |
| `risk_bundle.dfy` | the canonical risk-limit bundle and its checksum gate |
| `wrappers.dfy`, `text.dfy`, `stable_sort.dfy`, `comparators.dfy`, `reals.dfy` | shared vocabulary: results, identifier text, stable sorting, threshold comparators, one product law |

Loops that push, insert or sort in the source are methods here, each proved against a specification that the lemmas
beside it then reason about. Each operation also has a law on the fields of its own input, with constants and words
written out: the members named `...Read`, `...Reads` and `...AcceptedIff`. f64 values are exact reals (NaN and infinity
are excluded by the source's own validation); rounding is modelled where it is the point, in the degradation gate and
the twelve-decimal ratio text. The RFC 3339 reader and writer, number display, JSON decoding, and JSON text with SHA-256
are function parameters; where a proof needs a law of one of them the law is a named predicate or a `requires`, and
where the order of written timestamps matters the law is that the writer composes the text of `timestamps.dfy`.

## Findings

What the proofs show about the code:

- Next runs are idempotent except at the last boundary before the year 10000, which has no next run (`NextRunIdempotent`,
  `LastBoundaryHasNoNextRun`). Advancing from a time that is not a boundary skips a boundary less than a second ahead
  (`AdvanceFindsNextBoundary`), as it does from half a second before every boundary (`AdvanceSkipsBoundary`).
- The in-memory store's concatenated key can make two operators share a record under keys the service admits (8 to 128
  UTF-16 units, no outer blanks) exactly when one operator id followed by `:readiness_snapshot:` is a prefix of the other
  followed by `:`, the other is at most 120 units longer, and what it adds after the separator does not begin with a blank
  (`CollideIffConfusable`, `MemoryRefinesSql`).
- One store merges a transition's patch and the other overwrites with it. For operators that do not collide, any call
  sequence gets the same answers from both exactly when every patch that applies brings whatever the record already holds
  and no empty error code (`RunsAgreeIff`). The service's patches always do (`RunsAgree`); a patch that leaves out a stored
  result is told apart (`MergeIsNotOverwrite`).
- A subscriber whose workflow finishes between the snapshot read and the listener registration never hears its end
  (`TerminalEventMissed`). In general a listener that has heard no terminal status can still hear one exactly when the
  workflow may still announce one: not once its executor is done, nor while it recovers over a record that is not running
  (the reply of a swap was lost, or a listener threw), nor when its creating call never queued one (`EndStillHeardIff`).
- The `-0` correction in the ratio formatter is unreachable: negative zero stays `-0.0` (`NegativeZeroKept`).
- Two diffs of one run share an id exactly when their order ids differ only in case or outer blanks and the windows differ
  on them in the same way (`DiffIdsDistinctIff`). It happens when the venue has neither `Order-1` nor `order-1`
  (`TwoDiffsShareAnId`), although diff ids are the primary key of the stored diffs
  (crates/persistence/migrations/20260406061000_reconciliation_exposure_core.sql:64).
- A promotion record's `passed` flags are taken as given; the comparator and the numbers beside them are never compared
  (`ThresholdNumbersAreTrusted`), so a promotion is allowed on a Sharpe ratio below its floor when the flag says it passed
  (`AllowedBelowThreshold`).
- The timeline comparator orders a list exactly when no unreadable time comes, by text, between two readable ones out of
  their time order (`OrdersIff`); otherwise it can go round in a circle (`UnreadableTimesCycle`). The query validates every
  time before it sorts, so only the public ordering function can be given such a list.
- The id of an emitted alert passes the 120-character identifier rule exactly when its parts leave room
  (`AlertIdAcceptedIff`): with an admitted correlation id of a hundred characters it does not (`LongCorrelationIdRefused`).
  With a dedupe window of zero two alerts can share an id (`ZeroWindowSharesIds`).
- Attribution rows are ordered by the text of their period ends, written without the zeros at the end of a fraction. Of two
  such texts the later is the smaller exactly when both lie in one second and the fraction digits of the earlier are the
  first digits of the later one's (`TextOrder`). So the rows are latest first in time exactly when no two groups in scope
  end like that (`ReportLatestFirstIff`): of ends half a second apart, one on a whole second, the older is reported first
  (`HalfSecondReportsOlderFirst`).
- The deallocation trigger orders breaches by the text of their times and consults one breach of each metric. That one is
  among the metric's latest exactly when the breaches with the greatest text are (`ConsultedIsLatestIff`; for times in the
  writer's text, `WrittenGreatestIff`). Then the trigger fires exactly when some metric's latest breach violates its policy,
  latest breaches of one metric being observed alike (`FiresOnLatestIff`). Otherwise an older breach can decide a
  deallocation that the newer one would not trigger (`OlderBreachDecides`).

## Model

| member | source | states |
|---|---|---|
| `Calendar.DayNumberInjective` | crates/domain/src/reporting_schedule.rs:716-775 | different calendar dates are different days, across leap years, centuries and years before 0 |
| `Calendar.MonthAhead` | crates/domain/src/reporting_schedule.rs:750-775 | the first of the next month, December included, is a valid date exactly one month length later, and the twelve lengths are those of the Gregorian calendar |
| `ReportingSchedule.WindowSpans` | crates/domain/src/reporting_schedule.rs:698-775 | the date arithmetic finds a window that holds the instant, starts and ends on a boundary of the cadence, and has none inside |
| `ReportingSchedule.BoundaryReads` | crates/domain/src/reporting_schedule.rs:698-775 | boundaries are the midnights of all days, of the Mondays counted from 5 January 1970, or of the firsts of the months |
| `ReportingSchedule.WindowsPartitionTime` | crates/domain/src/reporting_schedule.rs:698-775 | an instant is in another's window exactly when they have the same window; the window at an end starts at that end; a window starts at an instant exactly when it is a boundary |
| `ReportingSchedule.NextRunIsLeastBoundary` | crates/domain/src/reporting_schedule.rs:405-415 | the next run is the least boundary at or after the reference, and exists exactly when the window ends before the year 10000 |
| `ReportingSchedule.NextRunIdempotent` | crates/domain/src/reporting_schedule.rs:405-415 | asking again at the answer returns it, exactly unless it is the last representable boundary |
| `ReportingSchedule.LastBoundaryHasNoNextRun` | crates/domain/src/reporting_schedule.rs:405-415 | the exception occurs: 1 December 9999 is a next run and has none |
| `ReportingSchedule.TicksAreSeconds` | crates/domain/src/reporting_schedule.rs:422 | the tick added when advancing, or taken off a boundary, is a thousand million nanoseconds, across midnight too |
| `ReportingSchedule.AdvanceFindsNextBoundary` | crates/domain/src/reporting_schedule.rs:417-424 | advancing finds the least boundary a second or more ahead, and the least later boundary exactly when none is closer than that |
| `ReportingSchedule.AdvanceSkipsBoundary` | crates/domain/src/reporting_schedule.rs:417-424 | from half a second before a boundary, advancing finds the boundary after it |
| `ReportingSchedule.AdvanceFromBoundary` | crates/domain/src/reporting_schedule.rs:417-424 | from a boundary, advancing reaches the end of the window that opens there, or fails at the year limit |
| `ReportingSchedule.EveryBoundaryVisitedOnce` | crates/domain/src/reporting_schedule.rs:417-424 | iterated advancing reaches every later boundary and nothing else, each after exactly one number of steps |
| `ReportingSchedule.RunsInOrder` | crates/domain/src/reporting_schedule.rs:417-424 | later iterations are later boundaries |
| `ReportingSchedule.WindowOfBoundary` | crates/domain/src/reporting_schedule.rs:426-450 | the report window of a boundary ends exactly there, and fails only when it would start before year 0 |
| `ReportingSchedule.ConsecutiveWindowsAdjacent` | crates/domain/src/reporting_schedule.rs:417-450 | consecutive runs report adjacent windows under different keys |
| `ReportingSchedule.RunKeysDistinct` | crates/domain/src/reporting_schedule.rs:417-450 | any two runs of a schedule report under different keys |
| `ReportingSchedule.WindowsTileTime` | crates/domain/src/reporting_schedule.rs:417-450 | from the first run's window on, every instant lies in the window of one run and of no other |
| `ReportingSchedule.KeyAlwaysValid` | crates/domain/src/reporting_schedule.rs:452-480 | for every valid schedule id and representable window the key fits its 200-character bound, so composing it cannot fail |
| `ReportingSchedule.KeyReads` | crates/domain/src/reporting_schedule.rs:452-480 | the key is the text report-window, the normalised schedule id, the cadence's word and the unix second of the start counted from 1 January 1970; it is refused exactly for a bad id or a window that does not run forward |
| `ReportingSchedule.ReportKeyReads` | crates/domain/src/reporting_schedule.rs:426-480 | a run's report carries that key for the window it closes |
| `ReportingSchedule.KeysDecodeUniquely` | crates/domain/src/reporting_schedule.rs:473-477 | equal keys mean equal normalised schedule id, cadence and start, though schedule ids may contain colons |
| `WorkflowStore.InMemoryWorkflowStore.CreateOrGet` | apps/operator-bff/src/store.ts:24-48 | the new records and index, and the answer, are those of the specification function for the string-keyed store |
| `WorkflowStore.MemCreates` | apps/operator-bff/src/store.ts:24-48 | creation goes by the text operator:readiness_snapshot:key; it makes a queued record of the given operator and key exactly when that text is unused, and otherwise answers the record it leads to or fails |
| `WorkflowStore.MemGetReadsBack` | apps/operator-bff/src/store.ts:24-79 | a lookup after a creation or a transition finds the record that was answered; lookups under other ids are unaffected, and a lookup changes nothing |
| `WorkflowStore.InMemoryWorkflowStore.Transition` | apps/operator-bff/src/store.ts:55-79 | compare-and-swap on status with the patch merged into the record; failures change nothing |
| `WorkflowStore.MemMoves` | apps/operator-bff/src/store.ts:55-79 | field by field, what a transition keeps, sets and merges, and which of the two failures it gives |
| `WorkflowStore.PostgresWorkflowStore.CreateOrGet` | apps/operator-bff/src/postgres-store.ts:78-102 | inserts unless the unique key is taken, then answers the row that holds it; the missing-row failure cannot occur |
| `WorkflowStore.SqlCreates` | apps/operator-bff/src/postgres-store.ts:78-102 | the answer is of the given operator, kind and key; a queued row under the new id is made exactly when no row holds them |
| `WorkflowStore.SqlGetReadsBack` | apps/operator-bff/src/postgres-store.ts:78-147 | in a table of distinct ids, a lookup after a creation or a transition finds the record that was answered; lookups under other ids are unaffected |
| `WorkflowStore.PostgresWorkflowStore.Transition` | apps/operator-bff/src/postgres-store.ts:114-147 | conditional update with the patch overwriting both columns; a miss is told apart as absent or in another status |
| `WorkflowStore.SqlMoves` | apps/operator-bff/src/postgres-store.ts:114-147 | field by field, what a transition of a row keeps, sets and overwrites, and the status a refused one reports |
| `WorkflowStore.AdmitsAdmissible` | apps/operator-bff/src/service.ts:64-70 | the keys a start call hands to the store are exactly those of 8 to 128 UTF-16 units without outer blanks |
| `WorkflowStore.AdmitReads` | apps/operator-bff/src/service.ts:64-70 | the key handed on is the given one without the blanks at its ends, if that has 8 to 128 UTF-16 units, two for a character beyond the basic plane |
| `WorkflowStore.CollideIffConfusable` | apps/operator-bff/src/store.ts:25-26 | two operators can collide on the concatenated key, under keys the service admits, exactly when they are confusable |
| `WorkflowStore.CollideOverlap` | apps/operator-bff/src/store.ts:25-26 | under any keys at all, operators collide only if one and the separator run into the other |
| `WorkflowStore.ColonFreeSeparable` | apps/operator-bff/src/store.ts:25-26 | colon-free operator ids never collide, under any keys |
| `WorkflowStore.IndexPointsHome` | apps/operator-bff/src/store.ts:26-33 | in every state the two stores reach together the index points to an existing record with that key |
| `WorkflowStore.RunsAgree` | apps/operator-bff/src/postgres-store.ts:78-147 | from any pair of matching states, under any rule for keys that keeps the operators from colliding, every call sequence of the service gets the same answers from both stores |
| `WorkflowStore.RefinesIffCollisionFree` | apps/operator-bff/src/store.ts:24-79 | under any rule for keys, both stores answer every service call sequence alike exactly when no two operators collide |
| `WorkflowStore.MemoryRefinesSql` | apps/operator-bff/src/store.ts:24-79 | under the keys the service admits, both stores answer every service call sequence of a set of operators alike exactly when no two of them are confusable |
| `WorkflowStore.TransitionAgreesIff` | apps/operator-bff/src/store.ts:55-79 | on matching stores any transition gets one answer from both exactly when it does not apply or its patch brings what the record holds and no empty error code; then the stores match again |
| `WorkflowStore.RunsAgreeIff` | apps/operator-bff/src/postgres-store.ts:78-147 | any call sequence, whatever its patches, gets the same answers from both stores exactly when every transition in it is such a one; then the stores match at its end |
| `WorkflowStore.ServiceCarriesAll` | apps/operator-bff/src/service.ts:121-158 | the transitions the service issues always are such ones |
| `WorkflowStore.MergeIsNotOverwrite` | apps/operator-bff/src/store.ts:71-76 | from empty stores, a patch that leaves out a stored result is told apart |
| `WorkflowService.AdvanceKeeps` | apps/operator-bff/src/service.ts:121-158 | each executor section keeps the record, its history and the executor's place in step, and never moves a status back |
| `WorkflowService.HearKeeps` | apps/operator-bff/src/service.ts:107-118 | each emit keeps a listener's log ordered and in step with the record, whichever listeners it reaches |
| `WorkflowService.StepKeeps` | apps/operator-bff/src/service.ts:59-158 | every step of the service keeps the whole invariant |
| `WorkflowService.RunKeeps` | apps/operator-bff/src/service.ts:59-158 | the invariant holds after every interleaving of steps |
| `WorkflowService.WorkflowLife` | apps/operator-bff/src/service.ts:121-158 | in every reachable state a record's statuses are a prefix of queued, running, then succeeded or failed; a result exactly when succeeded, an error code exactly when failed; the runner called at most once |
| `WorkflowService.RecordComesFrom` | apps/operator-bff/src/service.ts:59-158 | in every run a record belongs to an operator or administrator who asked for it, under that call's key |
| `WorkflowService.ResultIsProbed` | apps/operator-bff/src/service.ts:129-135 | in every run a stored result is one that a probe of that workflow answered, unaltered |
| `WorkflowService.ErrorCodeIsMarked` | apps/operator-bff/src/service.ts:139-151 | in every run a stored error code is the word for the kind of failure that was marked for that workflow |
| `WorkflowService.StartAnswersItsOwn` | apps/operator-bff/src/service.ts:72-82 | in every run a start call is answered with a record of its own operator and key, and says it created it only under the id generated for it |
| `WorkflowService.CreatedOnce` | apps/operator-bff/src/service.ts:72-82 | at most one start call learns that it created a given record |
| `WorkflowService.KeySharesRecord` | apps/operator-bff/src/service.ts:72-76 | one operator and idempotency key name one record |
| `WorkflowService.SubscriberHears` | apps/operator-bff/src/service.ts:97-119 | what a subscriber hears never goes backwards, has at most one terminal status, and ends with it; it may read the record |
| `WorkflowService.HeardWasStatus` | apps/operator-bff/src/service.ts:97-119 | in every run what a subscriber hears is a status of the record it asked for, which it owns unless it is an administrator |
| `WorkflowService.HistoryOnlyGrows` | apps/operator-bff/src/service.ts:121-158 | no step forgets a record, rewrites its past or its owner, or takes back a probe |
| `WorkflowService.EmitAppends` | apps/operator-bff/src/service.ts:112-119 | an emit appends its status to the log of exactly the listeners it reaches |
| `WorkflowService.HeardIsStatus` | apps/operator-bff/src/service.ts:112-136 | the sections after an acknowledged swap, and no others, append the record's own status to the logs they reach |
| `WorkflowService.SilentForever` | apps/operator-bff/src/service.ts:112-158 | once a workflow may announce nothing more, no continuation delivers anything to its listeners |
| `WorkflowService.AnnouncementReaches` | apps/operator-bff/src/service.ts:121-158 | an announcement that may still come does come to a listener in some continuation, from every stage of the executor |
| `WorkflowService.EndStillHeardIff` | apps/operator-bff/src/service.ts:97-158 | in every reachable state, a listener without a terminal status can still hear one exactly when its workflow may still announce one |
| `WorkflowService.InsertIsCreateOrGet` | apps/operator-bff/src/postgres-store.ts:78-91 | the insert of a start call leaves the table the store leaves, and the call learns what the store answers |
| `WorkflowService.ReadIsCreateOrGet` | apps/operator-bff/src/postgres-store.ts:92-101 | finishing a conflicted start call answers the record the store answers |
| `WorkflowService.SwapIsTransition` | apps/operator-bff/src/postgres-store.ts:114-147 | an executor swap that takes effect is the store's transition, with its table, record and failure |
| `WorkflowService.EventServes` | apps/operator-bff/src/service.ts:59-158 | every step of the service leaves the table as it is or as one store call that the service may issue leaves it |
| `WorkflowService.RunIsStoreCalls` | apps/operator-bff/src/service.ts:59-158 | every run of the service leaves a table that a sequence of such store calls leaves |
| `WorkflowService.RunsOverMemory` | apps/operator-bff/src/store.ts:24-79 | for a run whose operators are not confusable, those calls get the same answers from the in-memory store, which ends holding exactly the workflows' records |
| `WorkflowService.TerminalEventMissed` | apps/operator-bff/src/service.ts:97-115 | a reachable run leaves a subscriber listening after its workflow has succeeded |
| `RatioFormat.FormatRatioDecimal` | crates/domain/src/recovery_rehearsal.rs:543-555 | the pop loop ends with the same sign and integer digits and the trimmed fraction |
| `RatioFormat.RatioReads` | crates/domain/src/recovery_rehearsal.rs:543-555 | the text is the sign, the whole part without leading zeros, a point, and the fraction without redundant zeros |
| `RatioFormat.ShortFractionShape` | crates/domain/src/recovery_rehearsal.rs:543-555 | at least one fraction digit, no redundant zero, and padding gives the twelve decimals back |
| `RatioFormat.RatioTextInjective` | crates/domain/src/recovery_rehearsal.rs:543-555 | different twelve-decimal renderings stay different |
| `RatioFormat.NegativeZeroKept` | crates/domain/src/recovery_rehearsal.rs:551-553 | negative zero is rendered `-0.0`, apart from zero |
| `JsonCanonical.CanonicalizeJsonValue` | crates/domain/src/recovery_rehearsal.rs:478-541 | the recursion over arrays, sorted objects and ratio numbers computes the canonical form |
| `JsonCanonical.CanonicalizeArray` | crates/domain/src/recovery_rehearsal.rs:478-541 | the array loop canonicalises every entry in place and order |
| `JsonCanonical.CanonicalizeObject` | crates/domain/src/recovery_rehearsal.rs:478-541 | the object loop keeps the fields that are not metadata, in key order, each under its key |
| `JsonCanonical.FieldsRead` | crates/domain/src/recovery_rehearsal.rs:489-531 | exactly seven metadata names are left out, whatever their case; numbers whose key mentions ratio or mismatch_rate become text, other plain values stay, and fields are in key order |
| `JsonCanonical.ElementsRead` | crates/domain/src/recovery_rehearsal.rs:485-491 | array elements stay in place, canonical, and plain ones untouched |
| `JsonCanonical.CanonicalKeepsMeaning` | crates/domain/src/recovery_rehearsal.rs:478-541 | the canonical form is well formed and means what the input means, at every depth |
| `JsonCanonical.CanonicalIffMeaning` | crates/domain/src/recovery_rehearsal.rs:478-569 | canonical forms are equal exactly when the inputs agree once metadata is stripped, field order forgotten and ratio numbers rendered |
| `JsonCanonical.CanonicalIdempotent` | crates/domain/src/recovery_rehearsal.rs:478-541 | canonicalising twice changes nothing more |
| `JsonCanonical.CanonicalIgnoresMetadata` | crates/domain/src/recovery_rehearsal.rs:557-561 | permuting fields, and adding, removing or editing metadata fields anywhere, leaves the canonical form alone |
| `JsonCanonical.ReplayMatchesIffSameMeaning` | crates/domain/src/recovery_rehearsal.rs:455-476 | against the signature in earlier evidence, a replay matches exactly when both outputs mean the same, which is when the signatures are equal, and reports a mismatch otherwise; without a prior signature it does neither |
| `Reconciliation.NormalizeWindowRecords` | crates/domain/src/reconciliation.rs:627-645 | the insert loop builds the index of the specification, failing at the first invalid record or repeated order id |
| `Reconciliation.NormalizeWindowIff` | crates/domain/src/reconciliation.rs:627-645 | a window normalises exactly when every record is valid and order ids are distinct; the result indexes exactly its records |
| `Reconciliation.CollectWindowDiffs` | crates/domain/src/reconciliation.rs:503-510 | the diff loop collects what each id yields, in order, and stops at the first failure |
| `Reconciliation.ReconcileWindow` | crates/domain/src/reconciliation.rs:457-556 | the whole run computes the specified result or error |
| `Reconciliation.BuildDiffSucceeds` | crates/domain/src/reconciliation.rs:647-757 | between valid records building a diff cannot fail, and finds one exactly when they disagree |
| `Reconciliation.BuiltIsSorted` | crates/domain/src/reconciliation.rs:511-516 | the final sort changes nothing |
| `Reconciliation.DiffsAreDisagreements` | crates/domain/src/reconciliation.rs:488-516 | one diff for each id the windows disagree on and none for the rest, strictly ordered by id, each with the class, values and origin of its disagreement |
| `Reconciliation.DiffReads` | crates/domain/src/reconciliation.rs:647-760 | each diff of a run is filed under the run of its summary as a non-critical mismatch, with id, class, values, market, time and correlation id written from the two windows' records of its order id |
| `Reconciliation.DiffExistsIff` | crates/domain/src/reconciliation.rs:677-757 | an order id has a diff exactly when one window lacks it or the two records differ in market, state, quantity or price |
| `Reconciliation.DiffIdsDistinctIff` | crates/domain/src/reconciliation.rs:647-661 | the diffs of a run have distinct ids exactly when no two different order ids of its windows normalise alike and differ between the windows in the same class |
| `Reconciliation.TwoDiffsShareAnId` | crates/domain/src/reconciliation.rs:656-661 | a window with `Order-1` and `order-1`, both missing at the venue, gives two diffs with one id |
| `Reconciliation.ReconcileSucceedsIff` | crates/domain/src/reconciliation.rs:457-556 | a run succeeds exactly when something was recorded, the arguments are acceptable and both windows normalise: its own checks never fail it |
| `Reconciliation.RunAcceptedIff` | crates/domain/src/reconciliation.rs:457-490 | the conditions of success on the request's and the records' own fields; a failure is an unavailable window exactly when both are empty |
| `Reconciliation.ReconcileFinds` | crates/domain/src/reconciliation.rs:271-383 | every produced summary passes summary validation and has the counts and rate of its diffs |
| `Reconciliation.SummaryReads` | crates/domain/src/reconciliation.rs:492-556 | every field of the summary, from the request, the number of different order ids and the number of diffs |
| `Reconciliation.SummaryAcceptedIff` | crates/domain/src/reconciliation.rs:271-383 | the conditions of acceptance on a summary's own fields: counts, rate to a million-millionth, and halt flag and status both exactly above one in a thousand |
| `Reconciliation.SummaryNamesRequest` | crates/domain/src/reconciliation.rs:539-552 | the summary is filed under the request's own window, evaluation time, run and correlation id |
| `Reconciliation.ReconcileIgnoresOrder` | crates/domain/src/reconciliation.rs:457-556 | permuting either window changes neither success nor result |
| `Reconciliation.SwappingWindows` | crates/domain/src/reconciliation.rs:647-757 | exchanging the windows keeps summary and ids and turns the missing classes and the two values around |
| `Reconciliation.HaltExcludesRecovery` | crates/domain/src/recovery.rs:465-480 | a run halts, with critical status and reason, exactly above one mismatch in a thousand, is ready to recover exactly below, and is never both |
| `Reconciliation.RatesRead` | crates/domain/src/reconciliation.rs:429-455 | rates are of a positive count of records, a halt is above and readiness (crates/domain/src/recovery.rs:466-480) below one in a thousand, and rates outside nought to one are refused |
| `Attribution.AccumulateMeans` | crates/domain/src/attribution.rs:254-288 | the accumulator ends with the sums of its group and the metadata of its first best observation: latest period end, then least correlation id |
| `Attribution.CollectRows` | crates/domain/src/attribution.rs:291-319 | one row for every accumulated group, none twice |
| `Attribution.BuildCostAwareAttributionRows` | crates/domain/src/attribution.rs:214-328 | succeeds exactly on a valid scope and valid observations, with one row per group in scope, its sums, its representative, strictly in row order |
| `Attribution.ReportUnique` | crates/domain/src/attribution.rs:291-327 | there is one such report, so the order in which groups are walked does not matter |
| `Timestamps.TextOrder` | crates/domain/src/attribution.rs:630-635 | written timestamps are ordered as their instants, except exactly when the earlier lies in the same second and its fraction digits are the first of the later one's |
| `Timestamps.TimestampReads` | crates/domain/src/attribution.rs:630-635 | a written timestamp is its date and time of day field by field, counted from 1 January 1970, and its fraction without trailing zeros |
| `Attribution.ReportLatestFirstIff` | crates/domain/src/attribution.rs:321-327 | the rows are latest first in time exactly when no two groups in scope have latest period ends that clash in this way |
| `Attribution.GreaterTextFirst` | crates/domain/src/attribution.rs:321-327 | of two rows the one that ends earlier comes first when its text is the greater |
| `Attribution.HalfSecondReportsOlderFirst` | crates/domain/src/attribution.rs:321-327 | rows ending at a whole second and half a second later are reported out of time order |
| `Attribution.RowOfReports` | crates/domain/src/attribution.rs:291-319 | a row's gross, cost and net are those of its group: net is realized + unrealized - fees + rebates + incentives summed |
| `Attribution.RowReads` | crates/domain/src/attribution.rs:226-319 | a row is of a market and an alpha the scope asks for, sums the observations of both that end within the scope, and describes the latest, least correlation id first |
| `Attribution.CoveredHasRow` | crates/domain/src/attribution.rs:226-255 | every observation the scope asks for has a row of its market and alpha |
| `Attribution.RowsOrdered` | crates/domain/src/attribution.rs:321-327 | greatest period end text first, then market, then alpha; one row for each pair |
| `Attribution.ReportConservesMoney` | crates/domain/src/attribution.rs:214-328 | the rows' net P&L sums to the worth of exactly the observations in scope |
| `Attribution.MoneyOfScope` | crates/domain/src/attribution.rs:226-319 | that net P&L is realized + unrealized less net cost over exactly the observations whose market and alpha the scope asks for and whose period ends at or after its start and before its end |
| `Attribution.OrderFreeIffBestAgree` | crates/domain/src/attribution.rs:277-288 | the report ignores the order of the observations exactly when the tied best observations of each group carry the same metadata |
| `Attribution.ReportedRowsAreValid` | crates/domain/src/attribution.rs:395-487 | every reported row passes the row validation of the store |
| `Attribution.InputsAcceptedIff` | crates/domain/src/attribution.rs:331-393 | the conditions of acceptance on the fields of an observation, and of a scope (lines 218-224) |
| `Attribution.RowAcceptedIff` | crates/domain/src/attribution.rs:395-487 | the conditions of acceptance on a row's own fields; gross, net cost and net follow from the amounts to a thousand-millionth |
| `AlphaHealth.EvaluateAlphaHealthThresholds` | crates/domain/src/research.rs:3755-3844 | succeeds exactly on a valid record and valid thresholds of distinct metrics, with one canonical breach per violated threshold, alphabetically |
| `AlphaHealth.MeasureInOrder` | crates/domain/src/research.rs:3783-3835 | the loop over sorted thresholds stops exactly at a repeated metric and otherwise reports each violation once |
| `AlphaHealth.MeasureThreshold` | crates/domain/src/research.rs:3798-3834 | a threshold adds its breach exactly when the record violates it |
| `Comparators.ComparatorsRead` | crates/domain/src/research.rs:4821-4828 | below is strict, above is its converse, and the other two are their negations |
| `AlphaHealth.ReportSpeaksOfRecord` | crates/domain/src/research.rs:3795-3856 | each breach carries the given record's observation and identity; drawdown breaches above its threshold, every other metric below, and a threshold goes unreported exactly when it is met |
| `AlphaHealth.MetricsRead` | crates/domain/src/research.rs:3795-3920 | each of the four metrics is reported exactly when its own figure in the record is below a threshold for it, the drawdown when above |
| `AlphaHealth.BreachReads` | crates/domain/src/research.rs:3795-3834 | a breach carries its metric's figure, the threshold it broke, the record's identity, and an id and a reason written from both |
| `AlphaHealth.RecordAcceptedIff` | crates/domain/src/research.rs:3607-3665 | the conditions of acceptance on a metric record's own fields, with each window's figures once |
| `AlphaHealth.WindowsInOrder` | crates/domain/src/research.rs:3577-3585 | an accepted record keeps the windows it was given, one hour, twenty-four hours and thirty days in this order |
| `AlphaHealth.FreshBreachIsCanonical` | crates/domain/src/research.rs:3670-3694 | canonicalising a composed breach cannot fail and only trims its reason |
| `AlphaHealth.ReportIsSorted` | crates/domain/src/research.rs:3837-3842 | the final sort by time text and id changes nothing |
| `AlphaHealth.EvaluateDeallocationTrigger` | crates/domain/src/research.rs:4520-4609 | fires exactly when some metric's first breach in the code's order violates that metric's policy, and names the first that does |
| `AlphaHealth.Trigger` | crates/domain/src/research.rs:4576-4608 | the scan with seen metrics consults each metric's first breach only |
| `AlphaHealth.TriggerReads` | crates/domain/src/research.rs:4576-4609 | the trigger fires exactly when a metric's first breach is out of its policy, above it for the drawdown and below it otherwise, and answers a breach as given with the criterion that names its metric |
| `AlphaHealth.BreachAcceptedIff` | crates/domain/src/research.rs:3670-3753 | the conditions of acceptance on a breach's own fields |
| `AlphaHealth.FindPolicy` | crates/domain/src/research.rs:4582-4587 | finds a policy of the metric, or none when there is none |
| `AlphaHealth.HasRepeatedMetric` | crates/domain/src/research.rs:4545-4562 | detects exactly the policy lists that name a metric twice |
| `AlphaHealth.ConsultedIsLatestIff` | crates/domain/src/research.rs:4569-4581 | the breach consulted for a metric is one of its latest exactly when its breaches with the greatest timestamp text are |
| `AlphaHealth.WrittenGreatestIff` | crates/domain/src/research.rs:4569-4574 | for times in the writer's text, that is exactly when the metric's latest time clashes with no earlier one |
| `AlphaHealth.FiresOnLatest` | crates/domain/src/research.rs:4569-4608 | under that condition the breach that fires is a latest one of its metric and violates the policy |
| `AlphaHealth.FiresOnLatestIff` | crates/domain/src/research.rs:4569-4608 | under that condition, with latest breaches of one metric observed alike, the trigger fires exactly when some metric's latest breach violates its policy |
| `AlphaHealth.GreaterTextDecides` | crates/domain/src/research.rs:4569-4608 | of two breaches of one metric the one with the greater timestamp text alone decides |
| `AlphaHealth.OlderBreachDecides` | crates/domain/src/research.rs:4569-4608 | the trigger can fire on an older breach although the newer meets the policy |
| `AlphaHealth.LeadingIsLeast` | crates/domain/src/research.rs:4569-4574 | none of a metric's breaches has a greater time text than its first one, nor, at the same text, a lesser id |
| `AlphaHealth.MeasuredBreachesDeallocate` | crates/domain/src/research.rs:3755-3844 | fed its own measurements with the thresholds as policies, the trigger fires exactly when a threshold is violated and names the alphabetically first violated metric |
| `Promotion.GateAllowsIff` | crates/domain/src/research.rs:1841-1893 | the gate allows exactly when stressed P&L exceeds baseline * (0.95 - 5e-12), the slack being the half-away rounding |
| `Promotion.GateReads` | crates/domain/src/research.rs:1841-1893 | the gate refuses a baseline that is not positive, and otherwise reports the percentage to half a nano, allows down to minus five percent, and names its outcome |
| `Promotion.FindScenario` | crates/domain/src/research.rs:1964-1990 | finds a scenario of a kind, and counts one exactly when the kind occurs once |
| `Promotion.ScenariosAgree` | crates/domain/src/research.rs:1964-2060 | true exactly when each scenario occurs once and every scenario agrees with the summary's own totals |
| `Promotion.EachAtFixedParameters` | crates/domain/src/research.rs:2062-2148 | true exactly when every scenario has its fixed parameters and a known reason |
| `Promotion.ValidateReplaySummary` | crates/domain/src/research.rs:1895-2160 | accepts exactly the sound summaries: each scenario once at its fixed parameters, gate recomputed, totals agreeing |
| `Promotion.SummarySoundIff` | crates/domain/src/research.rs:1895-2160 | a summary in which each scenario occurs once has exactly three results, and its soundness is stated on their and its own figures: slippage, fills, delay, P&L, outcome, reason, tolerance |
| `Promotion.SoundSummaryAllowsIff` | crates/domain/src/research.rs:1895-2160 | a sound summary allows exactly above the rounded five-percent line and reports the recomputed degradation |
| `Promotion.ValidateSummaryForAllowPath` | crates/domain/src/research.rs:2354-2415 | accepts exactly summaries that decode, are sound, allow, and are not the placeholder, which has its own error |
| `Promotion.AllowsIff` | crates/domain/src/research.rs:2354-2415 | the summary must decode, be sound and have the outcome allow, and its status, in any case and with outer blanks, must not be that of the placeholder |
| `Promotion.ValidateEvidencePacket` | crates/domain/src/research.rs:2794-2830 | lists exactly the required fields that are absent, null, blank or empty; rejects a packet that is no object |
| `Promotion.MissingIff` | crates/domain/src/research.rs:2794-2830 | a field is missing exactly when the packet lacks it or holds null, blank text, or an empty object or array |
| `Promotion.CheckGaps` | crates/domain/src/research.rs:2988-3014 | true exactly when a promotion lists every gap of its packet among its missing fields |
| `Promotion.CheckAllowPath` | crates/domain/src/research.rs:2944-3025 | true exactly when an allowed promotion is approved and a replay summary in its packet allows |
| `Promotion.ValidatePromotionDecision` | crates/domain/src/research.rs:2879-3053 | accepts exactly the records that meet the rules of their action and state |
| `Promotion.DecisionReads` | crates/domain/src/research.rs:2879-3053 | the rules of acceptance on the record's and the packet's own fields, for every action and state |
| `Promotion.AllowedPromotionIffBacked` | crates/domain/src/research.rs:2879-3053 | an allowed promotion validates exactly when it is well formed and has both approval ids, only passed thresholds, all four evidence fields and an allowing replay |
| `Promotion.AllowedPromotionSurvivesStress` | crates/domain/src/research.rs:2354-2415 | an allowed promotion's replay has every scenario once, at its prescribed slippage, fill rate and delay, and a stressed P&L above the rounded five-percent line |
| `Promotion.ThresholdNumbersAreTrusted` | crates/domain/src/research.rs:2958-3053 | changing a threshold outcome's comparator and numbers never changes whether the record validates |
| `Promotion.AllowedBelowThreshold` | crates/domain/src/research.rs:2879-3053 | an allowed promotion validates with an outcome that is marked as passed and fails its comparator |
| `Incidents.ApplyIncidentQuery` | crates/domain/src/incidents.rs:284-335 | every event is validated first; the result is the stably sorted sequence of those in the window with the wanted ids |
| `Incidents.IsWanted` | crates/domain/src/incidents.rs:297-330 | an event is kept exactly when it lies in [start, end) and carries every wanted id |
| `Incidents.QuerySplits` | crates/domain/src/incidents.rs:284-354 | splitting the window anywhere inside splits the result: late part then early part is the whole, ties and failures included |
| `Incidents.QueryReturns` | crates/domain/src/incidents.rs:337-354 | matching events as often as given, newest first, equal times by id, and nothing else |
| `Incidents.QueryReads` | crates/domain/src/incidents.rs:284-354 | a query returns exactly the events that occurred at or after the start and before the end with the market, order, alpha and actor asked for, newest first and then by id, and fails exactly on a bad window or an invalid event |
| `Incidents.EventAcceptedIff` | crates/domain/src/incidents.rs:222-282 | the conditions of acceptance on an event's own fields |
| `Incidents.OrdersIff` | crates/domain/src/incidents.rs:337-354 | the comparator is a total preorder on a list exactly when no unreadable time comes, by text, between two readable ones out of their time order |
| `Incidents.UnreadableTimesCycle` | crates/domain/src/incidents.rs:337-354 | with one unreadable time the comparator orders three events in a circle |
| `Alerts.ShouldEmitAlert` | crates/domain/src/alerts.rs:470-520 | the scan with its early exits computes the specified decision or error |
| `Alerts.EmittedIff` | crates/domain/src/alerts.rs:498-519 | an alert is emitted exactly when no earlier alert of its correlation id is unreadable or within the window under its reason |
| `Alerts.EmissionReads` | crates/domain/src/alerts.rs:470-520 | emission on the candidate's and the earlier alerts' own fields, arguments and unreadable alerts included; a suppressed one has an earlier alert of its id and reason within the window |
| `Alerts.HistorySpaced` | crates/domain/src/alerts.rs:470-520 | in every history grown through the rule, alerts of one correlation id and reason are more than the window apart, in whatever order they came |
| `Alerts.IdsDecodeUniquely` | crates/domain/src/alerts.rs:311-335 | reason, correlation id and second can be read back from an alert id |
| `Alerts.AlertReads` | crates/domain/src/alerts.rs:311-335 | an alert's id, correlation id, reason and time, written from the candidate |
| `Alerts.HistoryIdsDistinct` | crates/domain/src/alerts.rs:311-335 | with a window of a second or more no two alerts of a history share an id |
| `Alerts.ZeroWindowSharesIds` | crates/domain/src/alerts.rs:328-334 | with a window of zero two alerts can share an id |
| `Alerts.AlertIdAcceptedIff` | crates/domain/src/alerts.rs:817-825 | the id of an alert for an admitted candidate passes the identifier rule exactly when reason, correlation id and second have at most 99 characters |
| `Alerts.LongCorrelationIdRefused` | crates/domain/src/alerts.rs:311-335 | a candidate with a correlation id of a hundred characters is admitted and emitted, and its alert id is refused |
| `RiskBundle.CollectCanonicalRules` | crates/domain/src/recovery.rs:514-551 | the rule loop succeeds exactly when every rule is accepted, with their canonical forms in order |
| `RiskBundle.CanonicalizeRiskLimitBundle` | crates/domain/src/recovery.rs:508-580 | accepts exactly a valid profile with valid rules of its own key and version, and builds the canonical bundle |
| `RiskBundle.BundleReads` | crates/domain/src/recovery.rs:508-580 | acceptance and every field of the bundle from the profile's and the rules' own fields, the rules by scope, scope id and rule id |
| `RiskBundle.SameBundleIffSameRules` | crates/domain/src/recovery.rs:508-560 | for distinct (scope, scope id, rule id), two bundles are equal exactly when their profiles, and their rules in some order, are the same up to how identifiers are written |
| `RiskBundle.OrderFreeIffTieFree` | crates/domain/src/recovery.rs:555-560 | the bundle ignores the order of the rules exactly when no two different canonical rules share scope, scope id and rule id |
| `RiskBundle.GateOpensIffSameRules` | crates/domain/src/recovery.rs:499-506 | without a hash collision, the checksum gate opens between two accepted inputs exactly when their profiles, and their rules in some order, are the same up to how identifiers are written |
| `RiskBundle.GateReads` | crates/domain/src/recovery.rs:482-506 | the gate takes two texts of 64 hexadecimal digits, in any case and with outer blanks, and opens exactly when they are the same; it refuses anything else |
| `StableSort.SortStable` | crates/domain/src/incidents.rs:340-353 | elements that tie keep their input order |
| `StableSort.SortSplit` | crates/domain/src/incidents.rs:340-353 | sorting separated classes apart and concatenating is sorting the whole, ties included |
| `StableSort.SortForgetsOrder` | crates/domain/src/recovery.rs:555-560 | without ties, permutations sort alike |
| `Text.NormalizeIdempotent` | crates/domain/src/research.rs:104-106 | trimming and lower-casing twice changes nothing more |
| `Text.NormalizeReads` | crates/domain/src/research.rs:104-106 | trimming drops the whitespace at both ends and no more; normalising then turns A to Z into a to z and changes nothing else |
| `Text.CanonicalIdReads` | crates/domain/src/alerts.rs:817-825 | an identifier has 3 to 120 characters once normalised, all of them lower-case letters, digits or one of . _ : - |
| `Text.IntTextReads` | crates/domain/src/reporting_schedule.rs:473-477 | a number is written with a minus sign when below zero, and digits of its value without a redundant zero in front |

## Left out

- HTTP, SSE, JWT, SQL drivers, service start-up and the operator console: input and output.
- Error messages and the lists of field errors: a validator here answers success or one error kind.
- The RFC 3339 text parser, display of f64, serde_json text and decoding, SHA-256: parameters, with the laws used stated where they are used. Of the RFC 3339 writer only the text of a UTC instant is modelled, and no claim is made that the parser reads it back.
- IEEE-754 rounding, overflow and signed zero, apart from the nano-rounding of the gate and the twelve-decimal ratio text; the conversion of counts to i64.
- The workflow service is a step system over values, not a class: it does not model the EventEmitter's listener list being changed in place while it is being walked.
- Created and updated timestamps of workflow records, and unpaired surrogates in idempotency keys.
- Schedule and run record validators in `reporting_schedule.rs`, schedule and run transition tables, role and permission checks outside the workflow service: finite tables.
- `build_exposure_snapshot`: a single accumulating pass over already validated records.
- `build_query_scope` and `build_incident_query_filters`: default windows and identifier checks; the model starts from their results.
- `evaluate_promotion_thresholds` and the canonicalisers of promotion and replay records: a lookup and field-by-field normalisation.
- `validate_recovery_gate_run_evidence`, sign-off and freshness gates: single-branch checks.
- `evaluate_fr29_trigger` and the delivery state of alerts: a fixed cascade of thresholds and a status field; only the parts of an alert that suppression reads are modelled.
- The risk validators behind the bundle: parameters of `RiskBundle.Env`.
- Parameters of replay scenarios equal their fixed values up to `f64::EPSILON`, as in the source; the model does not round them.

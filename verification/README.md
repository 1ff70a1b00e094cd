# A verified model of the plan execution, observation and task services

This project models the parts of the backend whose correctness rests on more than one
function, and proves what they promise. `dafny verify dfyconfig.toml` checks all of it.

**Plan execution.** Several workers may try to execute one `ExecutionPlan`. They meet only
in four rows: a claim (owner, generation, lease), a progress row, a cancellation and a
unique result. `PlanRows` gives the effect of every transaction on these rows,
`PlanServices` the services with their retry loops, where an attempt may commit and still
be reported as failed, and `PlanWorkers` any number of workers, interleaved one transaction
at a time with each other, with crashes, with cancellation requests and with an arbitrary
clock. A worker is the program of `PlanExecutionService._execute`; a research worker takes
the dispatch path, which marks the boundary inside the gateway and needs a durable attempt
row. A plan may start untouched, finished before progress rows existed, or claimed at that
time and seeded as in doubt (`backend/alembic/versions/e9a1c3d5f7b9_add_execution_plan_progress.py`).
`PlanLeases` says what a lease is worth and `PlanVerdicts` how a call ends on a plan in which
state.

**Observations.** `ObservationRows` has the time arithmetic of one record, `ObservationStore`
the commands of one context, and `ObservationService` the objects whose fields those
commands move. Beside the purge bound it states the documented rule that repeated
deletions and replays never restart a tombstone's clock. `ObservationOutcomes` says when each
command succeeds, what a reader sees afterwards, what a reconcile must keep, and what never
comes back.

**Bounded JSON.** `JsonText`, `JsonValues` and `JsonParser` are the printer and the parser as
functions, `JsonReader` the parser as the object that runs it. `JsonRoundTrip` shows that
the parser undoes the printer, `JsonLimits` that its budgets are exact, and `JsonSizes` that
the canonical form is never longer than an accepted text. Together: whatever is accepted
can be stored canonically and read again as the same value. `JsonGrammar` has the productions
of RFC 8259 as relations, without a parser, and `JsonAcceptance` shows that the parser accepts
exactly the documents of this grammar whose values fit.

**Task ledger.** `TaskRows` has the tables and the three commands, `TaskLedger` what every run
of commands keeps, `TaskOutcomes` when each command succeeds and what an inspection reports
afterwards, `TaskService` the commands row by row inside their savepoint.

**Smaller cores.** `RateLimits`, `RateSlots` and `RateLimiters` (two reservation limiters over
exact times), `ClockRules`, `ClockFreshness`, `ClockConsumers` and `ClockService` (the poisoning
two-clock checker), `Deadlines` (two computations of when eligibility changes), `JsonPointers`,
`BodyCandidates` and `BodyPaths` (selectors and the schema walk), `HostnameRules` and
`HostnameDecisions`, `SecretKeys`, `AdmissionSlots`, `AdmissionProgress` and `NetworkAdmission`
(slot-based admission across processes and within one).

## What does not hold as one might expect

- Ids never decide between matching include rules, but they can decide which exclude is
  reported, in exactly one situation: the host's first label is a single character and both
  the host and the wildcard for the rest are excluded (`HostnameRules.IdsDecideExactly`).
- Normalising a stored hostname pattern again is refused exactly when its host part has
  become an IP literal. The normaliser looks for a literal before the IDNA encoding, and an
  address in fullwidth digits becomes one only there (`HostnameRules.NormalizedPatterns`,
  `HostnameRules.WideAddressIsNotStable`).
- The two limiters reserve the same slots at one rate. At different rates the later
  request's interval counts in memory and the earlier one's in Postgres, so they agree on a
  run exactly when no request comes before both intervals have passed with an interval
  other than its predecessor's (`RateLimits.LimitersAgreeExactly`).
- The two deadline computations agree whenever both answer. A row asserted for after the
  evaluation and not before its own end counts towards the scan limit of only one of them;
  they agree unless such rows carry it over the limit (`Deadlines.AnswersAgreeExactly`,
  `Deadlines.ScanLimitsDiffer`), and always when every row was asserted by then
  (`Deadlines.AssertedRowsAgree`).
- Integers survive printing and reading exactly from -10^18 + 1 to 2^63 - 1: a sign uses up
  one of the 19 characters of a token, so negative 19-digit integers are refused
  (`JsonText.ReadableExactly`).
- The schema walk can end with Python's `TypeError` instead of an inference error, when it
  comes to a schema with properties whose `type` is a list or a dictionary. On a schema that
  is otherwise fine it does so exactly then (`BodyCandidates.ListTypeEscapes`,
  `BodyCandidates.TypeErrorExactly`).
- A session that is lost while its process is inside the admitted body takes its lock with
  it, and a further process can get in. The bound is on the processes whose session lives,
  and on all of them in runs that lose no session inside (`AdmissionSlots.AdmissionBound`,
  `AdmissionSlots.LostSessionBreaksTheBound`).
- The unique-conflict branch of the result transaction is unreachable for a current holder
  (`PlanWorkers.CurrentWriterFindsNoResult`).

- A caller whose acquisition commits without being reported is refused by its own lease: it
  retries as a stranger, so none of its retries is granted before the lease ends
  (`PlanLeases.UnreportedAcquisitionLocksOut`).
- Of two windows missed by one sample only the first one's intents are recorded. The clock is
  poisoned by then, so no later sample makes up for it (`ClockConsumers.OnlyTheFirstIsFaulted`).
- A deleted record under an active hold keeps its payload until the hold ends, though nobody is
  shown it (`ObservationOutcomes.PayloadKeptExactly`, `ObservationOutcomes.DeletedIsNeverShown`).

## Model

| member | source | states |
|---|---|---|
| `PlanWorkers.SendAtMostOnce` | backend/app/services/plan_execution.py:108-622 | over every interleaving, crash, lease expiry, clock reading and ambiguous commit, at most one mark succeeds and at most one request leaves, under the marked generation |
| `PlanWorkers.CrossedPhaseIsFinal` | backend/app/services/execution_plan_progress.py:57-168 | once the phase is network_started or in_doubt, the progress row is the same in every continuation |
| `PlanWorkers.OnlyTheSenderWrites` | backend/app/services/plan_execution.py:782-865 | a result that was not there from the start carries the one marked generation, which is the started progress row's |
| `PlanWorkers.ReturnedResultsAgree` | backend/app/services/plan_execution.py:99-147 | any two calls that return a result return the same one, and it is the recorded one |
| `PlanWorkers.CancelledNeverRuns` | backend/app/services/execution_plan_cancellation.py:59-106 | a cancelled plan was neither marked nor sent nor finished, and no continuation changes that |
| `PlanWorkers.StartedNeverCancelled` | backend/app/services/execution_plan_cancellation.py:59-106 | a plan that was marked, sent or finished never becomes cancelled |
| `PlanWorkers.HoldersAreFenced` | backend/app/services/execution_plan_claim.py:54-86 | no two workers hold the same generation, and none holds one above the claim row's |
| `PlanWorkers.CurrentWriterFindsNoResult` | backend/app/services/plan_execution.py:638-673 | a worker about to write whose claim is current finds no result there |
| `PlanWorkers.UndisturbedWorkerFinishes` | backend/app/services/plan_execution.py:108-622 | in every reachable state that is uncrossed, uncancelled, without result and whose claim is free or expired, a fresh worker of either kind that nothing disturbs marks, sends, writes, releases and returns in eleven steps |
| `PlanWorkers.NextKeepsInv` | backend/app/services/plan_execution.py:108-622 | every step of every worker, crash and cancellation keeps the invariant the safety theorems rest on |
| `PlanWorkers.BoundaryStep` | backend/app/services/research_verification_dispatch.py:88-137 | crossing the boundary, plainly or in the dispatch transaction, sends only under the marked generation and keeps the invariant |
| `PlanWorkers.FinishStep` | backend/app/services/plan_execution.py:782-865 | writing the result keeps the invariant: only the marker can write, and a research run only with its attempt row |
| `PlanRows.MarkSucceedsAtMostOnce` | backend/app/services/execution_plan_progress.py:107-168 | in any sequence of transactions by anybody at most one mark succeeds, and none once a crossing or a cancellation is recorded |
| `PlanRows.RunAdvances` | backend/app/services/execution_plan_progress.py:57-168 | whatever transactions anybody performs, generations never drop, the progress generation never exceeds the claim's, and a crossed phase, a cancellation and a result stay |
| `PlanRows.AcquisitionsStrictlyIncrease` | backend/app/services/execution_plan_claim.py:54-86 | of two successful acquisitions with anything in between, the later one has the larger generation |
| `PlanRows.CurrentHandleIsUnique` | backend/app/services/execution_plan_claim.py:88-117 | two handles accepted in one state are the same handle, whatever the clock said |
| `PlanRows.PrepareRefusedOnlyInDoubt` | backend/app/services/execution_plan_progress.py:57-105 | a current holder is refused an attempt exactly when the plan may have crossed the boundary |
| `PlanRows.ReleaseIsIdempotent` | backend/app/services/execution_plan_claim.py:139-161 | after a release and anything but an acquisition, a second release changes nothing and is reported as done |
| `PlanLeases.AcquiredExactly` | backend/app/services/execution_plan_claim.py:54-86 | a claim is acquired exactly while nobody's is current, and a refusal changes nothing |
| `PlanLeases.AcquiredForItsLease` | backend/app/services/execution_plan_claim.py:54-86 | a new claim is the caller's, of the next generation, and current exactly until its lease ends |
| `PlanLeases.RenewedForItsLease` | backend/app/services/execution_plan_claim.py:119-137 | exactly a current holder renews, and its claim is then current exactly until the renewed lease ends |
| `PlanLeases.ReleasedIsFree` | backend/app/services/execution_plan_claim.py:139-161 | a released claim is nobody's, and anybody acquires the next generation at any time |
| `PlanLeases.NobodyAcquiresUntilTheLeaseEnds` | backend/app/services/execution_plan_claim.py:73-85 | a current claim survives any transactions of others up to its end, and until then everybody who asks is refused |
| `PlanLeases.RetryingCannotAcquire` | backend/app/services/execution_plan_claim.py:163-180 | however often a caller retries it is not granted a claim while another's lease lasts |
| `PlanLeases.UnreportedAcquisitionLocksOut` | backend/app/services/execution_plan_claim.py:163-180 | a caller whose acquisition committed unreported is refused by its own lease while it lasts |
| `PlanLeases.LeaseExcludesWorkers` | backend/app/services/execution_plan_claim.py:54-86 | from any reachable state, while a worker's claim is current no other worker comes to hold one, whatever the others do and even if the holder crashes |
| `PlanLeases.MarkFollowsPreparation` | backend/app/services/execution_plan_progress.py:107-168 | after a successful preparation, whatever others did, a still current holder's first mark is refused for a cancellation and for nothing else |
| `PlanLeases.WriteFollowsClaim` | backend/app/services/plan_execution.py:782-865 | a holder that found no result writes its own exactly if its claim is still current and its provenance is there, whatever others did |
| `PlanLeases.WriteConflictExactly` | backend/app/services/plan_execution.py:638-673 | exactly a current holder that finds a result is told which, and nothing is replaced |
| `PlanLeases.CancelledExactly` | backend/app/services/execution_plan_cancellation.py:59-106 | a plan is cancelled exactly if it has neither crossed nor a result, at the first recorded time, and otherwise the answer says which |
| `PlanLeases.ReportsExactly` | backend/app/services/execution_plan_claim.py:163-180 | a retried call reports an outcome exactly when some attempt commits and says so |
| `PlanLeases.FailuresLeaveNoTrace` | backend/app/services/execution_plan_claim.py:163-180 | attempts that fail leave the rows as the others made them |
| `PlanLeases.StepIsOneTransaction` | backend/app/services/plan_execution.py:108-622 | every step of a worker is at most one transaction, with the handle it holds |
| `PlanVerdicts.EveryCallEnds` | backend/app/services/plan_execution.py:108-622 | an execute call ends within twelve steps of its own per permitted attempt and one more, whatever the others, the clock and the database do |
| `PlanVerdicts.UndisturbedVerdict` | backend/app/services/plan_execution.py:108-622 | at every reachable plan an undisturbed call returns the result if there is one, is blocked if the plan is cancelled or claimed, fails if it is in doubt, and otherwise writes its own; only the last sends |
| `PlanVerdicts.FinishedPlanReturnsItsResult` | backend/app/services/plan_execution.py:143-147 | once there is a result, a worker that has not begun an attempt, wherever it stands, returns that result in four smooth steps without marking or sending |
| `PlanVerdicts.CancelledPlanBlocks` | backend/app/services/plan_execution.py:108-622 | once a plan is cancelled, a worker before its mark ends blocked in twelve smooth steps without marking or sending; a research worker up to its look at the cancellation |
| `PlanVerdicts.CancellationTakes` | backend/app/services/execution_plan_cancellation.py:59-106 | a request that reaches a plan before its boundary and result cancels it, and every later request, after any steps, reports the first time |
| `PlanVerdicts.SentExactly` | backend/app/services/research_verification_dispatch.py:88-137 | past the mark a request leaves exactly if the gateway sends it and, for a research worker, its claim is current and the plan not cancelled |
| `PlanVerdicts.FinishedExactly` | backend/app/services/plan_execution.py:782-865 | the result transaction ends the call with its own result, the one that is there, or a failure, exactly by claim, result and provenance |
| `PlanVerdicts.ReleaseIsRetried` | backend/app/services/execution_plan_claim.py:139-180 | a claim is given back by the first release attempt that commits before the attempts run out, and the verdict stays |
| `PlanVerdicts.CrashedForGood` | backend/app/services/plan_execution.py:108-622 | a crashed worker never acts again, and a finished one cannot crash |
| `PlanServices.PlanDatabase.RunTransaction` | backend/app/services/execution_plan_claim.py:163-180 | the retry loop reports the first reported commit and otherwise leaves what the unreported ones did |
| `PlanServices.PlanDatabase.Acquire` | backend/app/services/execution_plan_claim.py:54-86 | a returned handle owns the claim row, whatever happened to earlier attempts |
| `PlanServices.PlanDatabase.Renew` | backend/app/services/execution_plan_claim.py:119-137 | a successful renewal leaves the handle owning the claim row; otherwise the handle was not current at the reported attempt |
| `PlanServices.PlanDatabase.Release` | backend/app/services/execution_plan_claim.py:139-161 | success means the claim is released, by this call or by one that was not reported |
| `PlanServices.PlanDatabase.PrepareAttempt` | backend/app/services/execution_plan_progress.py:57-105 | success leaves the row in pre_network with the handle's generation |
| `PlanServices.PlanDatabase.MarkNetworkStarted` | backend/app/services/execution_plan_progress.py:107-168 | success leaves the mark of this generation and no cancellation; a crossed or cancelled plan admits no success |
| `PlanServices.PlanDatabase.RequestCancel` | backend/app/services/execution_plan_cancellation.py:59-117 | success means cancelled, not crossed and without result, with the first recorded time |
| `PlanServices.MarkStaysRefused` | backend/app/services/execution_plan_progress.py:107-168 | a mark that committed unreported is never turned into a success by retrying |
| `ObservationStore.NotOverdueWithinADay` | backend/app/services/research_observation.py:63-77 | after a reconcile at T in an open context and any later commands with clock readings that never go back, maintenance is not overdue before T plus one day |
| `ObservationStore.OneDayIsTight` | backend/app/services/research_observation.py:63-77 | a record deleted right after the reconcile makes it overdue exactly one day later |
| `ObservationStore.ReconcileKeepsOnlyUsablePayloads` | backend/app/services/research_observation.py:381-458 | after a reconcile only available or actively held records keep a payload |
| `ObservationStore.ApplyKeepsInv` | backend/app/services/research_observation.py:241-458 | every command keeps the relation between a record's times, its holds, its state and the recorded causes |
| `ObservationRows.MarkedNeverPostpones` | backend/app/services/research_observation.py:160-171 | marking again, late or early, never postpones the purge |
| `ObservationRows.ReconciledNeverPostpones` | backend/app/services/research_observation.py:420-447 | neither does reconciling or replaying a deletion, and a record is dropped only 90 days after it was due |
| `ObservationRows.ReconciledIsFresh` | backend/app/services/research_observation.py:420-447 | what one pass leaves with a payload is usable and cannot be overdue within a day |
| `ObservationOutcomes.AcceptedExactly` | backend/app/services/research_observation.py:241-291 | a record is accepted exactly under a usable preparation, which ends at its valid_until, and a new id, and is open exactly for its retention period |
| `ObservationOutcomes.PreparedExactly` | backend/app/services/research_observation.py:212-236 | a preparation is recorded exactly behind an open gate for at most 30 days, and starts unrevoked |
| `ObservationOutcomes.AcceptedIsShownUntilItExpires` | backend/app/services/research_observation.py:241-323 | whatever is done to other records and preparations and however often the store is reconciled, an accepted record stays as it is and, behind an open gate, is shown exactly until its retention or its preparation ends |
| `ObservationOutcomes.ShownExactly` | backend/app/services/research_observation.py:297-323 | a payload is shown exactly while it is there, its record available, its preparation usable behind an open gate, and it is not expired or, under a hold, under review |
| `ObservationOutcomes.PayloadKeptExactly` | backend/app/services/research_observation.py:420-447 | exactly which payloads a reconcile keeps: those under an active hold and those open under a valid preparation, unless revoked or unqualified |
| `ObservationOutcomes.ReconcileKeepsTheSound` | backend/app/services/research_observation.py:432-440 | an available record that is held, or open before its preparation ends, is in the reconciled store unchanged, with its preparation |
| `ObservationOutcomes.RemovedExactly` | backend/app/services/research_observation.py:441-447 | a record leaves the store exactly if it keeps no payload and 90 days have passed since it was due |
| `ObservationOutcomes.ReconciledStore` | backend/app/services/research_observation.py:448-456 | a reconcile leaves the gate open exactly in an open context, and a preparation while a record needs it or for 90 days after its end |
| `ObservationOutcomes.HeldExactly` | backend/app/services/research_observation.py:335-350 | a hold is granted exactly on a usable payload for at most 30 days and is in force exactly until its end |
| `ObservationOutcomes.ReleasedExactly` | backend/app/services/research_observation.py:351-357 | a release succeeds exactly on an unrevoked hold in force, and an available record falls back to its retention period |
| `ObservationOutcomes.RemovalIsNeverRefused` | backend/app/services/research_observation.py:358-361 | deleting and quarantining are never refused for the gate, the context or the preparation and change only the addressed record |
| `ObservationOutcomes.DeletedIsNeverShown` | backend/app/services/research_observation.py:297-361 | a deleted or quarantined record is never shown again, whatever follows, not even before its payload is purged |
| `ObservationOutcomes.GoneStaysGone` | backend/app/services/research_observation.py:160-185 | no command makes a deleted or quarantined record available again or brings a purged payload back |
| `ObservationOutcomes.FirstCauseCounts` | backend/app/services/research_observation.py:160-171 | a record falls due when it was last usable: at the first of expiry and cause, or at the end of its hold if later |
| `ObservationOutcomes.LaterCausesDoNotCount` | backend/app/services/research_observation.py:160-171 | once its hold is consumed no later cause moves that time either way |
| `ObservationOutcomes.RevokedIsDone` | backend/app/services/research_observation.py:369-377 | after a revocation nothing is accepted under the preparation, none of its records is held or shown, and a reconcile leaves none a payload |
| `ObservationOutcomes.FirstRevocationCounts` | backend/app/services/research_observation.py:369-377 | the first revocation's time stays as long as the preparation is there |
| `ObservationOutcomes.ClosedIsFinal` | backend/app/services/research_observation.py:241-323 | a closed context stays closed at the same time and nothing is prepared, accepted or shown in it |
| `ObservationOutcomes.ClosedUntilReconcile` | backend/app/services/research_observation.py:381-458 | after a restart or a suspension nothing is prepared, accepted or shown until the next reconcile |
| `ObservationOutcomes.ReconcileOpensTheGate` | backend/app/services/research_observation.py:63-77 | a reconcile of an open context opens the gate and keeps it open for a day of any commands but a restart, a suspension or closing |
| `ObservationOutcomes.IdsAreUnique` | backend/app/services/research_observation.py:241-291 | in every reachable store an id names one record |
| `ObservationService.ObservationRecord.MarkUnavailable` | backend/app/services/research_observation.py:160-171 | the field assignments compute the specified times |
| `ObservationService.ObservationRecord.RecordUnavailability` | backend/app/services/research_observation.py:174-185 | a closed context and a revoked preparation are recorded as specified |
| `ObservationService.ObservationRecord.HoldAt` | backend/app/services/research_observation.py:335-350 | starts a hold within its conditions, or changes nothing |
| `ObservationService.ObservationRecord.ReleaseAt` | backend/app/services/research_observation.py:351-357 | ends an active hold, or changes nothing |
| `ObservationService.ObservationRecord.DeleteAt` | backend/app/services/research_observation.py:358-361 | deletes as specified |
| `ObservationService.ObservationRecord.QuarantineAt` | backend/app/services/research_observation.py:358-361 | quarantines as specified, ending any hold |
| `ObservationService.ObservationRecord.ReconcileAt` | backend/app/services/research_observation.py:420-447 | one record's part of the pass, and whether it stays |
| `ObservationService.ObservationContext.AcceptRecord` | backend/app/services/research_observation.py:241-291 | admits one new record behind the gate or changes nothing |
| `ObservationService.ObservationContext.ChangeRecord` | backend/app/services/research_observation.py:327-365 | changes exactly the addressed record as specified, or nothing |
| `ObservationService.ObservationContext.RevokePreparation` | backend/app/services/research_observation.py:369-377 | records the first revocation time and nothing else |
| `ObservationService.ObservationContext.ReconcileAll` | backend/app/services/research_observation.py:381-458 | the pass over the records computes the specified store and opens the gate only in an open context |
| `JsonRoundTrip.ParserUndoesPrinter` | backend/app/schemas/research_observation.py:25-233 | every value within the limits whose integers are readable is read back from its canonical form |
| `JsonRoundTrip.CanonicalIsInjective` | backend/app/schemas/research_observation.py:25-26 | so the canonical text determines the value |
| `JsonText.ScanQuoted` | backend/app/schemas/research_observation.py:169-174 | scanning an escaped string gives the string back, wherever it stands |
| `JsonText.ScanPrintedInt` | backend/app/schemas/research_observation.py:216-223 | scanning a printed integer gives it back exactly when it is readable, and nothing otherwise |
| `JsonGrammar.Hex4Exactly` | backend/app/schemas/research_observation.py:172 | four hexadecimal digits of either case are read as the code unit they write (section 7 of RFC 8259), whatever follows |
| `JsonGrammar.CharExactly` | backend/app/schemas/research_observation.py:169-174 | the scanner reads exactly the spellings of a character: itself, a two-character escape, a code unit or a surrogate pair; lone surrogates, raw control characters and unknown escapes are refused |
| `JsonGrammar.StringExactly` | backend/app/schemas/research_observation.py:169-174 | the scanner reads exactly the bodies of string literals, as what they spell |
| `JsonGrammar.IntExactly` | backend/app/schemas/research_observation.py:216-223 | the scanner reads exactly the texts of readable integers: as printed, and a negative zero |
| `JsonGrammar.PrintsTheShortest` | backend/app/schemas/research_observation.py:25-26 | the printer writes every character as one of its shortest spellings, and escapes only what has no plain one |
| `JsonAcceptance.AcceptsExactly` | backend/app/schemas/research_observation.py:176-233 | under any limits a text is read as a value exactly if the grammar derives that value from it (sections 2 to 7 of RFC 8259 without fractions and exponents, keys unique), and the value fits |
| `JsonAcceptance.AcceptedExactly` | backend/app/schemas/research_observation.py:154-233 | so the parser accepts exactly the documents of at most 262144 bytes with at most 16384 values, nested at most five deep, whose integers are readable |
| `JsonAcceptance.DuplicateExactly` | backend/app/schemas/research_observation.py:190-196 | a duplicate key is reported exactly for a key that is spelled out and was there before |
| `JsonLimits.ErrorsAreTheTextsOwn` | backend/app/schemas/research_observation.py:176-233 | every error but the structure limit is the same under larger limits, and the size of the input is looked at first |
| `JsonText.ReadableExactly` | backend/app/schemas/research_observation.py:216-223 | the integers that survive printing and reading are those above -10^18 and below 2^63 |
| `JsonText.LowerBoundTestIsUnreachable` | backend/app/schemas/research_observation.py:217-223 | no token of at most 19 characters denotes an integer below the 64-bit range |
| `JsonText.UpperBoundTestIsReachable` | backend/app/schemas/research_observation.py:217-223 | 2^63 has 19 digits, so the upper test is needed |
| `JsonValues.SortedIsStrictlyIncreasing` | backend/app/schemas/research_observation.py:25-26 | keys are printed in strictly increasing code point order |
| `JsonLimits.AcceptedIsWithinLimits` | backend/app/schemas/research_observation.py:176-233 | an accepted text is consumed whole, its value is within the limits, and the node counter is the number of values in it |
| `JsonLimits.LimitsAreExact` | backend/app/schemas/research_observation.py:176-179 | with larger limits the same values are accepted and otherwise only values that do not fit |
| `JsonSizes.CanonicalIsNoLonger` | backend/app/schemas/research_observation.py:25-26 | the canonical form of an accepted text has no more bytes than the text |
| `JsonSizes.AcceptedSurvivesStorage` | backend/app/services/research_observation.py:198-207 | every accepted text can be stored canonically and is read again as the same value |
| `JsonReader.BoundedJson.Value` | backend/app/schemas/research_observation.py:176-223 | the object's index and counter move as the level's specification says, with the same error |
| `JsonReader.BoundedJson.Items` | backend/app/schemas/research_observation.py:184-209 | the loop over an array collects what the recursive specification collects |
| `JsonReader.BoundedJson.Members` | backend/app/schemas/research_observation.py:184-209 | the loop over an object collects the members, refusing a repeated key |
| `JsonReader.BoundedJson.Literal` | backend/app/schemas/research_observation.py:210-223 | words and integers are read as specified |
| `JsonReader.BoundedJson.Space` | backend/app/schemas/research_observation.py:165-167 | skips exactly the leading space |
| `JsonReader.BoundedJson.String` | backend/app/schemas/research_observation.py:169-174 | reads a string literal with the scanner, from its opening quote |
| `JsonReader.BoundedJson.Parse` | backend/app/schemas/research_observation.py:225-233 | reads one value and requires the text to end there |
| `JsonReader.ReadText` | backend/app/schemas/research_observation.py:154-233 | the whole parser, including the byte cap, computes the specified result |
| `TaskLedger.HoldsFitLatestBudget` | backend/app/services/research_task.py:223-240 | in every reachable state what is held and what is selected fit the latest limit, slots are 1 to n for distinct plans, and exactly the plans of approved versions are held |
| `TaskLedger.ApprovalNeverFailsTheHoldCheck` | backend/app/services/research_task.py:412-428 | approving an undecided current version that still qualifies succeeds exactly when the log has room and the clock did not go back |
| `TaskLedger.ApprovedBudgetIsCovered` | backend/app/services/research_task.py:308-313 | whenever an inspection reports an approved budget, its own checks of the holds are implied |
| `TaskLedger.FirstApproval` | backend/app/services/research_task.py:345-428 | any draft within its own limit can be created and then approved, and then holds exactly its members |
| `TaskLedger.HistoriesAreWellFormed` | backend/app/services/research_task.py:137-149 | each version is created, then perhaps approved at once, then only paused or, after an approval, revoked; versions and times never go back; only the last event is a cancellation |
| `TaskLedger.ApprovedExactly` | backend/app/services/research_task.py:294-307 | a version is reported approved exactly while it is the latest and its history is creation and approval |
| `TaskLedger.ApprovalIsNeverRegained` | backend/app/services/research_task.py:294-307 | a version that left the approved state never returns to it |
| `TaskLedger.SameSequenceSucceedsOnce` | backend/app/services/research_task.py:124-134 | of two commands expecting the same sequence at most one ever succeeds |
| `TaskLedger.CancelledIsFinal` | backend/app/services/research_task.py:124-134 | nothing changes a cancelled task |
| `TaskLedger.RunExtends` | backend/app/services/research_task.py:137-149 | tasks, versions, events and holds are only ever appended to |
| `TaskLedger.TasksShareNoPlan` | backend/app/services/research_task.py:194-199 | no plan is selected by two tasks |
| `TaskLedger.PerformKeepsInv` | backend/app/services/research_task.py:345-441 | every command, whatever it is told from outside, keeps the ledger invariant, including the number of tasks per context |
| `TaskOutcomes.CurrentExactly` | backend/app/services/research_task.py:124-134 | a command may continue a task exactly if it names the latest version of a live task and has seen every event |
| `TaskOutcomes.RefusedFor` | backend/app/services/research_task.py:124-134 | which refusal it gets otherwise: nothing named exactly, something newer, or cancelled |
| `TaskOutcomes.MovedExactly` | backend/app/services/research_task.py:432-441 | a pause or a cancel succeeds exactly on the addressed task with room for its event; a cancel shows in every version, a pause in the latest and cancels nothing |
| `TaskOutcomes.NothingIsExecuted` | backend/app/services/research_task.py:436-438 | starting, resuming and dispatching are refused whatever the tables |
| `TaskOutcomes.RevokedExactly` | backend/app/services/research_task.py:425-428 | a revocation succeeds exactly on an approved version and is what is reported unless the version is paused |
| `TaskOutcomes.ApprovedAndReported` | backend/app/services/research_task.py:412-428 | at any reachable tables an approval succeeds exactly on an addressed, qualified version neither approved, revoked nor paused, is then reported, and adds exactly its members to the holds |
| `TaskOutcomes.CreatedExactly` | backend/app/services/research_task.py:345-396 | at any reachable tables a version is created exactly when founded, affordable, qualified and timely; it then awaits approval, every earlier version is superseded, and the holds are untouched |
| `TaskOutcomes.TakesEffectExactly` | backend/app/services/research_task.py:29-43 | a command takes effect exactly if it succeeds and nothing fails after it, and then on its own task alone |
| `TaskOutcomes.CancelledForGood` | backend/app/services/research_task.py:432-441 | after a cancel every version is reported cancelled and every later command on the task fails, whatever is called between |
| `TaskOutcomes.PausedForGood` | backend/app/services/research_task.py:432-441 | a paused version is never again reported as awaiting, approved or revoked |
| `TaskOutcomes.AwaitingExactly` | backend/app/services/research_task.py:294-307 | a version is reported as awaiting exactly while it is the latest and only its creation is in its history |
| `TaskRows.Current` | backend/app/services/research_task.py:124-134 | a command continues a task only at its latest version, exactly named, at the expected sequence, and not after a cancellation |
| `TaskService.TaskTables.AllocateHolds` | backend/app/services/research_task.py:231-240 | the loop adds one hold per unheld member in the next free slots |
| `TaskService.TaskTables.AppendEvent` | backend/app/services/research_task.py:137-149 | appends one event or reports the full log or the clock |
| `TaskService.TaskTables.WriteVersion` | backend/app/services/research_task.py:345-396 | writes a version and its first event as specified |
| `TaskService.TaskTables.Decide` | backend/app/services/research_task.py:412-428 | records an approval with its holds, or a revocation, as specified |
| `TaskService.TaskTables.Move` | backend/app/services/research_task.py:432-441 | records a pause or a cancellation; starting, resuming and dispatching are refused |
| `TaskService.TaskTables.Operation` | backend/app/services/research_task.py:29-43 | however late it fails, a failed operation leaves the tables as they were |
| `RateLimits.RateBound` | backend/app/executors/rate_limit.py:64-218 | for any run of requests at any rates, a window of length W closed on the left holds fewer than W*R+1 slots of a key, on either limiter |
| `RateLimits.SlotsAreApart` | backend/app/executors/rate_limit.py:64-218 | slots of one key are at least 1/R apart |
| `RateSlots.SlotsExactly` | backend/app/executors/rate_limit.py:64-218 | no needless delay: the first request of a key gets the time it asks, every other the later of that and its predecessor's slot with one interval added |
| `RateLimits.Interval` | backend/app/executors/rate_limit.py:70-78 | the interval is the larger of the platform's and the requested one |
| `RateLimits.WindowBound` | backend/app/executors/rate_limit.py:64-218 | slots that far apart are so few in every window |
| `RateLimits.LimitersAgree` | backend/app/executors/rate_limit.py:79-101 | at one rate and the same clock readings the two limiters reserve identical slots |
| `RateLimits.LimitersAgreeExactly` | backend/app/executors/rate_limit.py:79-218 | over any run at any rates the two limiters reserve the same slots exactly when every request repeats the effective interval of its key's previous one or comes after both intervals have passed |
| `RateLimits.AgreeOnTheSecond` | backend/app/executors/rate_limit.py:174-218 | in particular on a second request, in terms of the two requests alone |
| `RateLimiters.InMemoryRateLimiter.Wait` | backend/app/executors/rate_limit.py:64-105 | reserves the specified slot and returns the delay after which it is exactly then |
| `RateLimiters.PostgresRateLimiter.ReserveOnce` | backend/app/executors/rate_limit.py:174-218 | the upsert reserves the specified slot, reported or not |
| `RateLimiters.PostgresRateLimiter.ReserveDelay` | backend/app/executors/rate_limit.py:152-172 | the retry loop returns the first reported delay |
| `RateLimiters.RetriesAreARun` | backend/app/executors/rate_limit.py:152-172 | all reservations of the retries are slots of one run and the granted slot is the last of them |
| `RateLimiters.WakesAfterSlot` | backend/app/executors/rate_limit.py:174-218 | a caller that waits its delay wakes at its slot or when it read the clock, whichever is later |
| `ClockFreshness.SampleSucceedsExactly` | backend/app/services/research_verification_clock.py:37-52 | a sample succeeds exactly when nothing was wrong before, no clock went back and every watched deadline still holds |
| `ClockFreshness.SamplesGoForward` | backend/app/services/research_verification_clock.py:37-52 | successful samples never go backwards on either clock |
| `ClockFreshness.SamplesStayInWindow` | backend/app/services/research_verification_clock.py:61-70 | once a window is watched every later successful sample lies in it |
| `ClockFreshness.SamplesStayBeforeDeadline` | backend/app/services/research_verification_clock.py:99-132 | once a mark with a deadline is checked every later successful sample precedes the deadline on wall time and on elapsed monotonic time |
| `ClockFreshness.NothingSucceedsAfterFailure` | backend/app/services/research_verification_clock.py:83-87 | after any expiry or anomaly no later sample or check succeeds |
| `ClockFreshness.ExpiryFaultsItsConsumers` | backend/app/services/research_verification_clock.py:80-87 | an expiry is of a watched boundary and faults exactly the intents active when it was registered, at any point of any run |
| `ClockFreshness.WindowExpiryFaultsItsConsumers` | backend/app/services/research_verification_clock.py:61-87 | so does a window |
| `ClockFreshness.AnomalyFaultsEveryone` | backend/app/services/research_verification_clock.py:37-45 | a clock that went back or a mark that is not of the past faults every bound intent |
| `ClockFreshness.OwnMarksAreGenuine` | backend/app/services/research_verification_clock.py:89-90 | a mark taken from the clock is never an anomaly to it |
| `ClockFreshness.BlocksRestoreActive` | backend/app/services/research_verification_clock.py:72-78 | leaving a dependency block restores exactly the intents active before it, whatever happened inside |
| `ClockConsumers.BoundExactly` | backend/app/services/research_verification_clock.py:54-59 | an intent is bound exactly while there is room, and is then active and bound beside the others |
| `ClockConsumers.BoundStaysActive` | backend/app/services/research_verification_clock.py:54-78 | a bound intent is active through any operations that leave no block entered before it was bound |
| `ClockConsumers.BoundIntentIsFaultedByItsWindow` | backend/app/services/research_verification_clock.py:37-87 | an intent bound before a window is registered, in no block left in between, is recorded by the sample that finds this window the first to be missed, whatever else was done |
| `ClockConsumers.BoundIntentIsFaultedByItsDeadline` | backend/app/services/research_verification_clock.py:37-132 | so is one bound before a mark with a deadline is checked, by the sample that finds this deadline the first to have passed |
| `ClockConsumers.BindWatchRead` | backend/app/services/research_verification_clock.py:37-87 | the shortest such run records its intent |
| `ClockConsumers.OnlyTheFirstIsFaulted` | backend/app/services/research_verification_clock.py:47-50 | of two windows missed by one sample only the first one's intent is recorded, then and ever |
| `ClockConsumers.WindowWatchedExactly` | backend/app/services/research_verification_clock.py:61-70 | a window is registered exactly if it is watched already or there is room, and then for the active intents as well |
| `ClockConsumers.CheckedExactly` | backend/app/services/research_verification_clock.py:99-132 | a check passes exactly if a sample does, the mark is genuine, its deadline pending, and it can be watched |
| `ClockConsumers.FailedCheckFaults` | backend/app/services/research_verification_clock.py:113-132 | a mark found expired when checked faults the active intents, one that is not genuine all of them |
| `ClockService.Clock.Sample` | backend/app/services/research_verification_clock.py:37-52 | the fields move as specified |
| `ClockService.Clock.Check` | backend/app/services/research_verification_clock.py:113-132 | one mark is judged as specified |
| `ClockService.Clock.CheckMark` | backend/app/services/research_verification_clock.py:99-110 | samples, judges and registers as specified |
| `ClockService.Clock.WatchWindow` | backend/app/services/research_verification_clock.py:61-70 | registers a window for the active intents, within the limit of 64 |
| `ClockService.Clock.BindIntent` | backend/app/services/research_verification_clock.py:54-59 | binds an intent, within the limit of four |
| `ClockService.Clock.EnterDependency` | backend/app/services/research_verification_clock.py:72-78 | remembers the active intents |
| `ClockService.Clock.LeaveDependency` | backend/app/services/research_verification_clock.py:72-78 | restores them |
| `ClockService.Clock.Invalidate` | backend/app/services/research_verification_clock.py:83-87 | records a fault for exactly the bound intents among the given ones |
| `Deadlines.ContextDeadlines` | backend/app/services/research_knowledge.py:302-335 | the loops collect the revisions' bounds still to come and then the next change of every retrieved window, or report the scan limit |
| `Deadlines.PermissionsAreStable` | backend/app/services/research_knowledge.py:305-311 | before the earliest deadline the same revisions are in force as at the evaluation |
| `Deadlines.PermissionDeadlinesExactly` | backend/app/services/research_knowledge.py:305-311 | the collected deadlines are exactly the revisions' bounds still to come |
| `Deadlines.ActorDeadlines` | backend/app/services/research_intent.py:259-273 | the loop collects the next change of every scanned window, or reports the scan limit |
| `Deadlines.AnswersAgreeExactly` | backend/app/services/research_intent.py:259-273 | the two answers are equal exactly unless only the intent's rows exceed the scan limit, whenever both answer they are equal, and retrieval answers whenever the intent does |
| `Deadlines.SameChanges` | backend/app/services/research_knowledge.py:315-335 | both queries lead to the same deadlines, and retrieval looks at no more rows |
| `Deadlines.SameRowsExactly` | backend/app/services/research_knowledge.py:318-327 | the two queries look at the same rows exactly when no live window is empty |
| `Deadlines.LiveAndEmptyExactly` | backend/app/db/models/resource_access_assertion.py:39-43 | a row the table admits is live and empty exactly when it is verified and ends after the evaluation but not after it was asserted |
| `Deadlines.AssertedRowsAgree` | backend/app/services/research_intent.py:259-273 | rows the table admits, all asserted by the evaluation, always get the same answer, scan limit included |
| `Deadlines.ScanLimitsDiffer` | backend/app/services/research_intent.py:259-266 | with 257 rows the table admits, asserted for after the evaluation and over before that, retrieval answers and the intent reports its limit |
| `Deadlines.EligibilityIsStable` | backend/app/services/research_knowledge.py:315-335 | before the earliest deadline the eligible assertions are those of the evaluation time |
| `Deadlines.DeadlinesAreTight` | backend/app/services/research_knowledge.py:315-335 | at every deadline, which is after the evaluation, they are different ones |
| `JsonPointers.SelectorRoundTrip` | backend/app/services/openapi_body_binding_candidates.py:107-109 | a selector decodes back to its property path |
| `JsonPointers.SelectorIsInjective` | backend/app/services/openapi_body_binding_candidates.py:107-109 | distinct paths have distinct selectors |
| `JsonPointers.UnescapeUndoesEscape` | backend/app/services/openapi_body_binding_candidates.py:38-39 | unescaping undoes escaping on every token |
| `JsonPointers.EscapeUndoesUnescape` | backend/app/services/openapi_body_binding_candidates.py:38-39 | escaping undoes unescaping on every token that could stand in a selector |
| `JsonPointers.EscapesValid` | backend/app/schemas/endpoint_resource_binding.py:32-39 | the scan accepts a token exactly when every tilde begins an escape |
| `JsonPointers.ValidatePointer` | backend/app/schemas/endpoint_resource_binding.py:22-39 | the validator accepts exactly the allowed pointers |
| `JsonPointers.SelectorsPassTheScan` | backend/app/schemas/endpoint_resource_binding.py:22-39 | a path's selector is refused only for an empty name, expression syntax or a value in a token, never by the escape scan |
| `BodyCandidates.DeriveBodyCandidates` | backend/app/services/openapi_body_binding_candidates.py:56-115 | the stack loop answers what the recursive walk answers, with the same error |
| `BodyCandidates.WalkIsExact` | backend/app/services/openapi_body_binding_candidates.py:56-115 | it succeeds exactly on schemas without an unsupported, malformed, too deep or too wide node and with at most 1024 nodes, and finds exactly the selectors of the eligible leaves |
| `BodyPaths.LeavesExactly` | backend/app/services/openapi_body_binding_candidates.py:56-115 | the walk finds exactly the paths that lead through visited schemas to an eligible leaf |
| `BodyPaths.FineExactly` | backend/app/services/openapi_body_binding_candidates.py:65-100 | a schema is fine exactly when every schema some path leads to is acceptable and not too deep |
| `BodyPaths.AcceptableExactly` | backend/app/services/openapi_body_binding_candidates.py:70-98 | which schemas are acceptable by themselves |
| `BodyPaths.EligibleByName` | backend/app/services/openapi_body_binding_candidates.py:101-115 | a leaf is eligible by the last name on its path, its format, and the selector of the whole path |
| `BodyCandidates.LeavesKeepApart` | backend/app/services/openapi_body_binding_candidates.py:107-115 | no two leaves share a selector |
| `BodyCandidates.TypeErrorExactly` | backend/app/services/openapi_body_binding_candidates.py:85-88 | the walk ends with Python's TypeError only if it can come to an unhashable type beside properties, and on an otherwise fine schema of at most 1024 nodes exactly then |
| `BodyCandidates.ListTypeEscapes` | backend/app/services/openapi_body_binding_candidates.py:85-88 | it does for an object without properties whose type is a list |
| `HostnameRules.EligibleExactly` | backend/app/services/asset_hostname_rule.py:116-151 | a host is eligible exactly when some include matches and no exclude does |
| `HostnameDecisions.DecidedExactly` | backend/app/services/asset_hostname_rule.py:116-151 | the code is decided by which kinds of rules cover the host, and each id is there exactly if a rule of its kind covers it and is that of the highest ranking one |
| `HostnameDecisions.InvalidExactly` | backend/app/services/asset_hostname_rule.py:122-127 | exactly a candidate that cannot be normalised is invalid, whatever the rules |
| `HostnameDecisions.WildcardCoversExactly` | backend/app/services/asset_hostname_rule.py:96-100 | a wildcard covers exactly the hosts below its suffix |
| `HostnameRules.MostSpecificInclude` | backend/app/services/asset_hostname_rule.py:103-113 | the chosen include's suffix ends with every other matching include's suffix and is strictly longer |
| `HostnameRules.DecisionIgnoresOrder` | backend/app/services/asset_hostname_rule.py:116-151 | the decision does not depend on the order of the rules |
| `HostnameRules.IdsNeverDecideIncludes` | backend/app/services/asset_hostname_rule.py:103-113 | the same include patterns lead to the same choice whatever their ids |
| `HostnameRules.IdsDecideExactly` | backend/app/services/asset_hostname_rule.py:96-113 | other ids can change which pattern is reported as excluding exactly when the host's first label is one character and both the host and the wildcard for the rest are excluded |
| `HostnameRules.IdsDecideAnExample` | backend/app/services/asset_hostname_rule.py:103-113 | for a.example.com and *.example.com exchanging the ids exchanges the reported rule |
| `HostnameRules.SmallerIdExcludes` | backend/app/services/asset_hostname_rule.py:103-113 | on such a host the rule with the smaller id is reported, whatever other rules there are |
| `HostnameRules.ExcludeTiesExactly` | backend/app/services/asset_hostname_rule.py:96-113 | an exact exclude has the same key as a wildcard exactly when the wildcard covers the host but for one character and its dot |
| `HostnameRules.WildcardExcludesNeverTie` | backend/app/services/asset_hostname_rule.py:96-113 | two wildcards that match one host never tie |
| `HostnameRules.NormalizedPatterns` | backend/app/services/asset_hostname_rule.py:75-89 | normalised includes are wildcards over at least two labels; normalising again gives the same pattern, or refuses it exactly when its host part is an IP literal |
| `HostnameRules.RenormalizedHostname` | backend/app/services/asset_hostname_rule.py:38-72 | an allowed hostname is normalised to itself, or refused exactly when it is an IP literal |
| `HostnameRules.WideAddressIsNotStable` | backend/app/services/asset_hostname_rule.py:49-59 | an address in fullwidth digits is normalised to a pattern that is not accepted itself |
| `SecretKeys.OnlyQualifiers` | backend/app/services/execution_plan.py:78-91 | greedy stripping succeeds exactly on sequences of qualifiers, and ends |
| `SecretKeys.IsSecretBearingKey` | backend/app/services/execution_plan.py:72-92 | a key is accepted exactly when it is a base followed by qualifiers, in whatever order the bases are tried |
| `SecretKeys.SeparatorsDoNotMatter` | backend/app/services/execution_plan.py:43-73 | no separator inside a key hides it |
| `SecretKeys.NormalizedExactly` | backend/app/services/execution_plan.py:43-73 | wherever a character stands it is kept exactly if it is a letter or a digit |
| `SecretKeys.QualifyingKeepsSecret` | backend/app/services/execution_plan.py:72-92 | a qualifier appended to a secret key leaves it secret |
| `AdmissionSlots.AdmissionBound` | backend/app/network_safety/postgres_controller.py:105-183 | in every reachable state at most as many processes with a live session are admitted as the largest maximum ever configured, and all admitted are these and those that lost their session inside |
| `AdmissionSlots.AdmissionBoundWithoutLoss` | backend/app/network_safety/postgres_controller.py:105-183 | in runs that lose no session inside the bound is on all that are admitted |
| `AdmissionSlots.LostSessionBreaksTheBound` | backend/app/network_safety/postgres_controller.py:105-183 | under a maximum of one, a session lost inside lets a second process in beside the first |
| `AdmissionSlots.SlotsAreDistinct` | backend/app/network_safety/postgres_controller.py:105-183 | two processes whose sessions live never hold the same slot, however the maximum changes and whatever sessions are lost |
| `AdmissionSlots.EverySlotIsGivenBack` | backend/app/network_safety/postgres_controller.py:160-183 | once no session holds a slot no lock is left |
| `AdmissionSlots.FirstSlotAdmits` | backend/app/network_safety/postgres_controller.py:105-160 | in any state an idle process that finds the first slot free gets in with it |
| `AdmissionProgress.LowestFreeSlotAdmits` | backend/app/network_safety/postgres_controller.py:119-156 | a polling process gets in with the lowest free slot within the maximum, whichever that is |
| `AdmissionProgress.HoldersCanLeave` | backend/app/network_safety/postgres_controller.py:160-183 | from wherever a process holds a slot it leaves in at most two steps of its own, with the slot free again |
| `AdmissionProgress.PollsAgain` | backend/app/network_safety/postgres_controller.py:140-149 | a scan that found nothing leads to the next poll and touches no lock |
| `AdmissionSlots.OneCanBeAdmitted` | backend/app/network_safety/postgres_controller.py:105-160 | so does a process alone |
| `NetworkAdmission.SlotLocks.Scan` | backend/app/network_safety/postgres_controller.py:119-133 | takes the lowest free slot up to the limit, or none, and is late exactly if one of its checks finds the deadline passed |
| `NetworkAdmission.GrantedExactly` | backend/app/network_safety/postgres_controller.py:105-156 | while the deadline does not pass, a slot is granted exactly if the row allows it before and at the recheck and some round, after others that found all slots taken, finds it the lowest free one |
| `NetworkAdmission.SlotLocks.Enter` | backend/app/network_safety/postgres_controller.py:105-156 | a slot is held afterwards exactly when it is granted, which needs an enabled row before connecting and at the recheck, and it is within the maximum read there; the polling loop answers what the recursive rounds answer, deadline checks included |
| `NetworkAdmission.SlotLocks.Admission` | backend/app/network_safety/postgres_controller.py:105-183 | after any exit the locks are as before, at once or, when unlocking failed, as soon as the server notices the discarded session |
| `NetworkAdmission.SlotLocks.GiveBack` | backend/app/network_safety/postgres_controller.py:160-183 | the slot is unlocked, or left to the server with its discarded session |

## Left out

- HTTP, TLS, DNS, sockets and the gateway: the send is one event that may or may not happen past the mark.
- Everything a worker consults besides the four rows (policy, authorization, credentials, lookups, plan integrity) is one free yes or no per step; its order and its error codes are not modelled.
- Audit rows, `TestCase.status`, `updated_at` columns, owner and lease validation, and timeouts.
- `PlanExecutionService._execute`, the HTTP executor and the `Dispatch` object are the steps of a state machine, because what matters is what other workers do between two of their statements; the model does not capture their local variables beyond the handle and the provenance.
- A result row's generation is remembered by the model to say who wrote it; the table has no such column. The recorded marks and sends are such memories too.
- Several plans at once: plans share no rows, so one plan's rows are modelled.
- Reading a record takes one clock reading where the source takes a second one before it looks at the preparation.
- Observation payload contents, digests, intake eligibility, target ownership, the audit log and its caps are a command's yes or no; audit rotation changes no record.
- Decoding UTF-8 bytes: the parser starts from decoded text, and only its length in bytes is counted. Unpaired surrogates in escapes are refused at once, where the source finishes scanning the string first, with the same error.
- Pydantic validation of parsed values and the entry size limit.
- Task bodies, digests, member metadata and the qualification of members are one answer from outside; request limits other than the number of requests are part of it. The rendered view and its size are the answer that may still fail late.
- The recording time of a hold, which nothing reads.
- Rate limits use exact real numbers; floating-point rounding is not modelled.
- The table of durable clock faults is a set of intents; a failing insert into it is not modelled.
- Which revisions `_context_deadlines` looks at: they are the method's argument.
- The IDNA encoding, the IP literal test and the space test are parameters of the hostname normaliser; the encoding is taken to leave allowed hostnames alone. The sensitive-material expressions and the identifier test are parameters too.
- Sorting the candidate list: the walk's result is the set that is sorted.
- Lower-casing of keys beyond what reaches the recogniser: its input is the lower-cased key.
- `ObservationService.ObservationContext.AcceptRecord`: the replay of a known batch and the rules for corrections are part of the command's yes or no; an accepted replay changes no record.
- `JsonReader.ReadText`: starts from decoded text, so the encoding error of undecodable bytes is not among its results.
- Connection pooling, savepoints inside reads, encryption, hashing and bearer secrets.
- Rule cases, the rule engine, pair outcomes, the mock AI provider, the revision lifecycle and scope evaluation: finite tables and single branches.

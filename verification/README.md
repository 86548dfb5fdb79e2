# singbox-sub-me: a verified model

A Dafny 4.11 model of the stateful and algebraic parts of singbox-sub-me (a
deployment tool, subscription server and client core around sing-box), with
proofs of what each part keeps. `dafny verify dfyconfig.toml` checks it all.

| module | what it models |
|---|---|
| `Traffic` | the VPS traffic state: resets, reports, total and direction corrections, with 64-bit saturation and checked 128-bit offsets |
| `StateVersions`, `StateHistory`, `Chains` | resets, corrections and lock-free reports as interleaved atomic steps over the state file and the operation lock; where each report and each write got what it is made of |
| `Calendar`, `AccountingPeriod` | the accounting schedule: the proleptic Gregorian calendar, zones as lists of transitions, gap and fold resolution, natural and anchored months |
| `Json`, `JsonMerge`, `ConfigOverride` | the deep merge with its `rules` exception, the ordered switchable fragments, the reserved fields, the override file |
| `ManagedFiles`, `ConfigTransaction`, `Update` | the configuration transaction and the binary update over files whose every write may fail |
| `ServiceRestart` | the restart that brings units and certificate hook in line with the subscription mode |
| `RequestBudget` | the per-address token bucket table: lazy refill, sweep, overflow clear |
| `TlsReload` | the TLS configuration cache keyed by file times, interleaved with pins and removals |
| `Release`, `Text` | the canonical JSON writer behind the manifest signature; sorted names and decimal notation |
| `JsonText`, `JsonReading` | the texts of a JSON value: grammar, escapes, whitespace, and the one value they have |
| `JsonStream` | the brace scanner that cuts objects out of a partial stream |
| `Routes`, `Redaction` | subscription link paths printed and parsed; keeping the credential out of diagnostics |
| `ProtocolConfig` | identity-preserving rebuilds of a deployment and its port allocation |

What the original updates in place is a class whose methods change its fields
(`Traffic.StateStore`, `RequestBudget.IpBudget`, `TlsReload.TlsListener`,
`ConfigOverride.ProfileOverride`, `ManagedFiles.FileStore`,
`ProtocolConfig.Host`), or a method with the original's loop. Each method is
proved equal to a specification function or against an outright
postcondition, and the lemmas are about those functions. The clock, counter
readings, file contents, the outcome of every write, `sing-box check`,
certificate checks, randomness and port probes are parameters, all of them
unconstrained. So is how each step of a restart goes; what it makes of the units
and the certificate hook is computed.

## Where the code differs from what it says or what one would expect

- A failed write may have landed. `src/subscription/artifacts.rs:136-138` says
  that a failed write leaves its target on the previous version, but the locked
  writers enforce the owner of the new file after the rename
  (`src/config.rs:1442-1450`) and report that failure too. `ManagedFiles`
  therefore has three outcomes. It matters twice: the configuration write of
  `apply_config_transaction` is not among the files rolled back, so the new
  configuration stays when its own write lands and then fails; and `apply`
  does not roll back a failed first binary write at all. Both contracts say
  which try has to land and fail for it (`landed` in `ConfigTransaction.Ends`
  and `Update.Ends`), and `ConfigTransaction.ALandedConfigurationStays` and
  `Update.ALandedBinaryStays` are runs with it.
- Restoring a snapshot gives back the whole old deployment if and only if the
  prune removed nothing (`ConfigTransaction.RestoreUndoesIffNothingWasPruned`),
  since the snapshot covers only newly generated names.
- A reset reads the counters before it takes the lock, so a stale reading can
  be committed over a newer baseline. Within a period and boot, traffic is
  conserved if and only if no commit is stale
  (`StateVersions.ConservedIffNoCommitIsStale`); a run of the interleaved system
  that counts bytes twice is given (`StateVersions.AStaleCommitCountsTwice`).
- A reset also reads its clock before it takes the lock, so one measured in the
  old period can commit after the new one has begun. Corrections stay in all
  later versions if and only if no such reset commits in between
  (`StateVersions.NoCorrectionIsLostWithinAPeriod`). In the run
  `StateVersions.ALatePeriodDropsTheCorrection` it takes a correction with it,
  and the bytes of the period too.
- A total correction made after a reboot, before a reset has seen the new boot,
  does not count on: reports stand still at the target until that reset. Later
  reports count on if and only if every direction that can still gain has a
  baseline of the reading's boot that is not above the reading, or the target is
  the cap (`Traffic.TotalCorrectionCountsOn`, with an input in
  `Traffic.ACorrectionAfterARebootStandsStill`).
- A restart rewrites the service unit, the socket unit and the certificate hook,
  which are managed paths. After a failed restart the managed paths hold what the
  rollback's own restart makes of their old contents. If that restart succeeds on
  the live host, they are all as before the update if and only if units and hook
  were in line with the subscription mode then (`Update.RollbackIsExactIff`); in
  `Update.RollbackCreatesTheMissingHook` they were not.
- Merging is not associative. It is so on every base if and only if the two
  overlays are composable, which is decided from the overlays alone
  (`JsonMerge.OverlaysComposeIff`).
- A reserved field survives the fragments on every base if and only if no
  fragment has it and none puts a non-object on the way to it; reporting no
  conflict alone is not enough (`ConfigOverride.FieldSurvivesIffSpared`).
- An unchanged edit is the identity if and only if the deployment holds
  credentials for its enabled protocols only; validation admits others, and
  for those the edit is refused (`ProtocolConfig.Host.RebuildWithOwnValues`).
- Periods tile time in every fixed-offset zone, and in a general zone when no
  transition sets the clock back across a month start and every boundary
  resolves into its month (`AccountingPeriod.PeriodsTile`). For natural months
  the second condition holds if and only if every month opens on its first
  hourly time (`NaturalMonthsAreRegularIff`), for anchored ones if and only if
  an hourly time from the anchor on is left in the month
  (`AnchoredMonthsAreRegularIff`). Where a condition fails, some instant is
  missed by its period or has two (`NaturalStartIsTheFirstInstantIff`,
  `FallingBackBreaksTiling`, `LateBoundaryBreaksTiling`; concrete zones in
  `HalfHourGapStartsLate`, `FoldAcrossAMonthStartEndsEarly` and
  `GapAfterALateAnchorMakesALongPeriod`).
- The brace scanner ends an object at a brace inside a string
  (`JsonStream.ABraceInAStringEndsTheObject`); without such braces it finds
  every text of every object.

## Model

| member | source | states |
|---|---|---|
| Traffic.Accumulate | src/traffic.rs:158-171 | the field-by-field update equals the accumulation function the theorems are about |
| Traffic.PlanCorrection | src/traffic.rs:467-522 | a plan fails exactly on the two overflows, and its state is the corrected one all the correction theorems are about; its preview shows what a report at the same reading gives before and after |
| Traffic.StateStore.Reset | src/traffic.rs:338-376 | one reset event on the stored state, re-baselining when period or interface changed, and the report made from it |
| Traffic.StateStore.SetUsed | src/traffic.rs:438-460 | one correction event on the stored state; every error leaves the state as it was, every success previews the written state honestly |
| Traffic.StateStore.Report | src/traffic.rs:396-411 | a report succeeds exactly for the stored period and interface; its values are those of the report functions |
| Traffic.StretchIsMaximal | src/traffic.rs:158-171 | the stretches of the sum theorem are maximal runs of same-boot non-decreasing readings |
| Traffic.AccumulationIsStretchTotal | src/traffic.rs:156-171 | over any correction-free run of resets each direction is min(2^64-1, sum of last minus first over the maximal stretches) |
| Traffic.RunOfResets | src/traffic.rs:338-376 | a period's resets on the stored state are exactly that fold of accumulations |
| Traffic.IntermediateResetIsInvisible | src/traffic.rs:156-204 | an extra reset at an intermediate reading of a stretch changes neither the next report nor any state after the next reset |
| Traffic.ReportAgreesWithReset | src/traffic.rs:182-204 | a report, directions and total, equals what a reset at the same reading would report |
| Traffic.TotalCorrection | src/traffic.rs:479-493 | a total correction of a state with bounded adjustments succeeds, keeps them bounded, leaves the directions and hits the target |
| Traffic.StepSound | src/traffic.rs:338-460 | every reset and correction keeps all prefix sums of the adjustments inside a bound far below 128 bits |
| Traffic.RunSound | src/traffic.rs:338-460 | so does every run of them |
| Traffic.TotalCorrectionHitsItsTarget | src/traffic.rs:208-216 | from every reachable state a total correction never overflows, the saturating fold equals the exact sum before and after, and a report at the same reading totals exactly the target |
| Traffic.CorrectionAcceptedIff | src/traffic.rs:438-460 | from every state with bounded adjustments, a correction is accepted exactly for the stored period and interface, unless its direction targets overflow together; each refusal has its own error and changes nothing |
| Traffic.TotalCorrectionCountsOn | src/traffic.rs:467-532 | from every reachable state: all later reports within the boot, with rising counters and directions below the cap, total min(2^64-1, target + later deltas) through any resets, if and only if every direction that can still gain has a baseline of the reading's boot not above the reading, or the target is the cap |
| Traffic.TotalStandsStill | src/traffic.rs:189-204 | while the stored boot is another one, or the counter is still below the baseline, every later report totals the target whatever was gained |
| Traffic.ACorrectionAfterARebootStandsStill | src/traffic.rs:467-493 | an input: corrected to 500 after a reboot, 50 bytes later a report still totals 500 |
| Traffic.DirectionsNeverFall | src/traffic.rs:158-204 | without direction corrections no reset, reboot, rollback or total correction lowers a reported direction within the period |
| Traffic.DirectionsCorrectionIsExactAndAFloor | src/traffic.rs:494-507 | a direction correction is exact at its own reading and a floor for every later report of the period |
| Traffic.DirectionsCorrectionCountsOn | src/traffic.rs:494-507 | later bytes count on top of it: whatever boot and baselines were stored, along rising counters each direction reports exactly min(2^64-1, target + what its counter gained since), through any resets and total corrections |
| Traffic.ReportedTotalIsTheClampedSum | src/traffic.rs:524-532 | in every reachable state the reported total is the exact sum of directions and adjustments, kept between 0 and 2^64-1 |
| Traffic.ASmallerDirectionTotalsZero | src/traffic.rs:528-530 | a run in which that sum is negative: a total of 0 and then a smaller direction report 0 until the counters have made up for it |
| Traffic.CorrectionsAreLogged | src/traffic.rs:485-504 | within a period the state lists exactly the accepted corrections, in order, each with its time and its directions |
| StateVersions.InterleavingsAreSerial | src/config.rs:1369-1394 | in every interleaving the file's versions form one chain, the file is what its writes give one after the other, and each report saw a whole version (which one: the next rows) |
| StateHistory.AReportIsOfTheFileItReads | src/traffic.rs:396-411 | a report that reads the file after any run, while other processes go on, is of what the writes up to that moment give and of the counters at its end |
| StateHistory.EveryReportIsOfTheFileItRead | src/config.rs:1366-1371 | conversely every report of every interleaving has one reading step: its version was the published file then, for the period asked for, and its process went straight on to finish at the report's counters |
| StateHistory.EveryWriteWasMeasured | src/config.rs:1373-1386 | every committed write was made by one process without a break: a reset from the period and the counters of its own measurement, a correction as it was asked for from the counters it was planned at, and either after its temporary file was whole |
| StateVersions.ActKeepsInv | src/config.rs:1373-1386 | every atomic step keeps: only the lock holder is in its critical section, and what it has loaded is still the file's content |
| StateVersions.PublishedTotalCorrectionHitsItsTarget | src/traffic.rs:438-460 | the total-correction theorem holds of the file under any interleaving |
| StateVersions.CorrectionsDroppedIffPeriodChanges | src/traffic.rs:357-367 | one write drops corrections exactly when it is a reset for another period or interface |
| StateVersions.NoCorrectionIsLostWithinAPeriod | src/traffic.rs:343-369 | under any interleaving, the corrections of a version stay in all later ones up to a version if and only if all of these are of its period, that is, if and only if every reset committed in between was measured for it |
| StateVersions.ConservedIffNoCommitIsStale | src/traffic.rs:343-369 | under any interleaving, between any two versions with only resets of the first one's period and boot and total corrections in between, each direction grows by exactly its counter's gain since the baseline, capped, if and only if no reset committed a reading older than the baseline it found (or the cap is reached); otherwise by more |
| StateVersions.AStaleCommitCountsTwice | src/traffic.rs:343-346 | an interleaving of two resets in which 50 bytes are reported as 80 |
| StateVersions.ALatePeriodDropsTheCorrection | src/traffic.rs:343-367 | a run in which a reset measured for the old period commits late: after the next reset the file is of the new period again, without its correction and its bytes |
| Calendar.NextMonthStarts | src/traffic.rs:795-801 | the month after a month starts the day after its last day |
| Calendar.FirstDayIsTheCivilDay | src/traffic.rs:768-771 | the months are those of the proleptic Gregorian calendar: the first of every month has the day number of the closed civil formula |
| Calendar.ExactlyOneMonthHolds | src/traffic.rs:662-663 | every day lies in exactly one month of the calendar |
| Calendar.MonthOfDayIsUnique | src/traffic.rs:662-663 | the month computed for a day is the one that holds it |
| Calendar.CrossingFindsTheLastDay | src/traffic.rs:774-784 | first day + 32 days, back to day one, back one day: the last day of the month, for every month |
| AccountingPeriod.EarliestIsFirst | src/traffic.rs:746-750 | the local-time lookup returns the earliest instant whose wall clock shows the time, and fails only when there is none |
| AccountingPeriod.LocalDatetime | src/traffic.rs:735-764 | the method equals the resolution function, invalid dates refused |
| AccountingPeriod.ResolveByHours | src/traffic.rs:746-763 | so does its bounded gap search |
| AccountingPeriod.ResolvedShowsFirst | src/traffic.rs:746-763 | a resolved instant shows the requested time, or in a gap the first existing of the next three hourly ones, at its earliest occurrence |
| AccountingPeriod.ShownTimeResolvesToItsFirst | src/traffic.rs:735-750 | a date and time of day that some instant shows on the wall clock resolves to the first instant that does |
| AccountingPeriod.AnchoredIsBoundary | src/traffic.rs:766-793 | the anchored reset of a month lies on the requested day or, in a short month, the last one |
| AccountingPeriod.FirstAnchorDoesNotShorten | src/traffic.rs:711-720 | the `min` with the first anchor never shortens a period |
| AccountingPeriod.FirstAnchorEndsThePeriod | src/traffic.rs:711-720 | in any zone, while the first anchor is ahead no period ends after it; otherwise a period ends with the boundary of the month after its start |
| AccountingPeriod.LastMonthIsOutOfRange | src/traffic.rs:774-784 | exactly the last representable month fails as out of range, exactly the months that do not exist as invalid |
| AccountingPeriod.PeriodsTile | src/traffic.rs:653-727 | in every regular zone: start <= now < next, every instant of the period computes the same period, and the next one starts exactly at the reset |
| AccountingPeriod.EarlyTimesStayInMonth | src/traffic.rs:751-760 | in any zone a time requested before 21:00 resolves inside its month |
| AccountingPeriod.EarlyAnchorsAreRegular | src/traffic.rs:670-727 | so an anchored schedule before 21:00 is regular wherever months come in order |
| AccountingPeriod.FixedZonesAreRegular | src/traffic.rs:653-727 | every fixed-offset zone is regular under both policies |
| AccountingPeriod.FixedPeriodExists | src/traffic.rs:653-727 | inside the representable years the schedule of a fixed-offset zone never fails |
| AccountingPeriod.FixedZonePeriodsTile | src/traffic.rs:653-727 | in a fixed-offset zone, either policy, any instant: the period exists, contains it, is shared by its instants, and is followed without gap or overlap |
| AccountingPeriod.NaturalStartIsTheFirstInstantIff | src/traffic.rs:746-763 | a natural period starts at its month's first instant if and only if that instant shows the first hourly time from midnight that exists; otherwise it starts later |
| AccountingPeriod.NaturalStartIsOnTimeIff | src/traffic.rs:746-763 | where the month's first instant shows its earliest time, that is if and only if the month opens a whole number of hours after midnight |
| AccountingPeriod.NaturalMonthsAreRegularIff | src/traffic.rs:664-668 | over all zones: natural months are regular exactly when the clock never falls back across a month start and every month opens on its first hourly time |
| AccountingPeriod.AnchoredBoundaryInMonthIff | src/traffic.rs:746-763 | over all zones and anchors: the boundary of a month lies in that month exactly when an hourly time from the anchored one on, at most three hours later, exists before the month ends |
| AccountingPeriod.AnchoredMonthsAreRegularIff | src/traffic.rs:670-727 | the zones in which an anchored schedule is regular, exactly |
| AccountingPeriod.FallingBackBreaksTiling | src/traffic.rs:664-668 | where the clock falls back from a month into the one before it, some natural period does not contain its instant |
| AccountingPeriod.LateBoundaryBreaksTiling | src/traffic.rs:689-716 | a boundary that resolves into the next month starts a period that includes the next boundary, whose instant computes another period, unless the first anchor lies between |
| AccountingPeriod.HalfHourGapStartsLate | src/traffic.rs:664-668 | a half-hour gap at a month start gives a natural period that starts after its instant |
| AccountingPeriod.FoldAcrossAMonthStartEndsEarly | src/traffic.rs:664-668 | a fold across a month start gives a period that ends before its instant |
| AccountingPeriod.GapAfterALateAnchorMakesALongPeriod | src/traffic.rs:689-716 | a two-hour gap and an anchor at 23:30 on the 31st for which it happens |
| JsonMerge.DeepMerge | crates/json-merge/src/lib.rs:104-132 | the loop over the overlay's keys, in whatever order, computes the merge function |
| JsonMerge.OverlaysComposeIff | crates/json-merge/src/lib.rs:104-132 | merging x then y equals merging merge(x, y) on every base if and only if y is composable after x |
| JsonMerge.SameKindsAreComposable | crates/json-merge/src/lib.rs:104-132 | overlays with the same kind at every shared path are composable |
| JsonMerge.EmptyObjectIsNeutral | crates/json-merge/src/lib.rs:104-132 | the empty object is neutral on both sides of objects |
| JsonMerge.MergePrependsRules | crates/json-merge/src/lib.rs:111-122 | at any depth a `rules` array is the overlay's items followed by the base's |
| JsonMerge.RulesReplaceWhatIsNoArray | crates/json-merge/src/lib.rs:104-132 | over a base value that is not an array, at any depth, a `rules` array replaces |
| JsonMerge.UntouchedIsKept | crates/json-merge/src/lib.rs:104-132 | a path the overlay does not touch keeps its value, present or absent |
| JsonMerge.UntouchedIffNeitherPresentNorBlocked | crates/json-merge/src/lib.rs:104-132 | a path is untouched exactly when the overlay lacks it and has no non-object on the way |
| JsonMerge.TouchedIsDecided | crates/json-merge/src/lib.rs:104-132 | for a touched path the overlay alone decides whether the result has it |
| JsonMerge.ReplacementWins | crates/json-merge/src/lib.rs:124-130 | a replacing value at a path is what the result has there |
| ConfigOverride.ProfileOverride.Apply | crates/client-core/src/config_override.rs:181-192 | the reverse loop computes the fold over the fragments switched on and the set of reserved fields they name; what that is, fragment by fragment, is in the next rows |
| ConfigOverride.EnabledIff | crates/client-core/src/config_override.rs:174-175 | an overlay list is the one merged exactly when it lists the overlays at the increasing places whose flag is set |
| ConfigOverride.DisabledIsAsIfAbsent | crates/client-core/src/config_override.rs:185-188 | deleting a fragment that is switched off changes neither the merged document nor the conflicts |
| ConfigOverride.ProfileOverride.Toggle | crates/client-core/src/config_override.rs:221-248 | refused for a hand-written file or an unknown id; else exactly the first fragment with the id changes, only its flag |
| ConfigOverride.RulesAreInListedOrder | crates/client-core/src/config_override.rs:181-192 | each `rules` array is the arrays of the fragments switched on, in listed order, followed by the base's |
| ConfigOverride.FirstFragmentWins | crates/client-core/src/config_override.rs:183-188 | the first listed fragment that is switched on and sets a field decides it |
| ConfigOverride.ConflictsAreReported | crates/client-core/src/config_override.rs:304-311 | a conflict is reported exactly for the reserved fields some fragment switched on has |
| ConfigOverride.FieldSurvivesIffSpared | crates/client-core/src/config_override.rs:54-59 | a field of every base survives the fragments if and only if each one switched on spares it |
| ConfigOverride.ReservedFieldsSurvive | crates/client-core/src/config_override.rs:181-192 | with no reported conflict and no blocked way, every reserved field is as in the base, for any number of fragments |
| ConfigOverride.Parse | crates/client-core/src/config_override.rs:123-170 | the parse succeeds exactly on documents that mean some fragment list, and gives that list |
| ConfigOverride.FragmentIsReadIff | crates/client-core/src/config_override.rs:335-392 | what a fragment must be to be read, exactly, and what is read |
| ConfigOverride.OmittedFieldsHaveDefaults | crates/client-core/src/config_override.rs:363-377 | a fragment without a flag reads as one switched on, one without a label as one labelled with its id |
| ConfigOverride.HandWrittenFileIsMerged | crates/client-core/src/config_override.rs:141-151 | a bare object is merged whole, and its conflicts are the document's |
| ConfigOverride.DistinctIffAddressable | crates/client-core/src/config_override.rs:159-168 | ids are distinct exactly when a toggle by its id reaches every fragment |
| ConfigOverride.WrittenFileReadsBack | crates/client-core/src/config_override.rs:280-298 | a written list reads back as itself, and is readable at all exactly when ids are distinct and not blank and overlays are objects |
| ConfigOverride.ParsedIsWritable | crates/client-core/src/config_override.rs:335-392 | whatever the parser accepts is writable, so reading, switching and rewriting loses nothing |
| ManagedFiles.FileStore.Write | src/config.rs:1442-1450 | a write leaves the old version or the new one complete; a failure may be either |
| ConfigTransaction.WriteArtifacts | src/subscription/artifacts.rs:208-213 | artifacts are written in order up to the first try that fails, and nothing else changes |
| ConfigTransaction.RestoreReplaced | src/subscription/artifacts.rs:139-152 | best effort: every prior version is tried, past failures, and is back exactly where its own write goes well; files absent before are not deleted |
| ConfigTransaction.RemoveStaleArtifacts | src/subscription/artifacts.rs:241-261 | success removes every superseded owned artifact; other files are never touched |
| ConfigTransaction.Sync | src/subscription/artifacts.rs:207-221 | artifacts and active configuration in place, or rolled back; the first try that fails decides the error |
| ConfigTransaction.Commit | src/subscription/artifacts.rs:223-229 | the configuration in place and stale files pruned, or everything rolled back |
| ConfigTransaction.Transact | src/subscription/artifacts.rs:207-229 | the error is that of the first try that fails, the prune's aside; what each end leaves |
| ConfigTransaction.ServerIsFound | src/subscription/artifacts.rs:122-130 | the search gives the contents of the first artifact with the server configuration's name, and nothing exactly when there is none |
| ConfigTransaction.ApplyConfigTransaction | src/subscription/artifacts.rs:171-235 | exactly which transactions are refused before the first write, unchanged, and why (none that changes an artifact passes without the check); for the others the first try that fails decides the error; on failure pre-existing files keep their old bytes (the configuration unless its own write landed); on success exactly the generated set among owned names, foreign files untouched, and an active configuration equal to the artifact generated and stored under the server configuration's name |
| ConfigTransaction.ForeignArtifactsAreSpared | src/subscription/artifacts.rs:249-253 | a file of the artifact directory without the generator's prefix, other than the server configuration, is as before |
| ConfigTransaction.SupersededArtifactsArePruned | src/subscription/artifacts.rs:254-257 | one with the prefix that is no longer generated is gone, if the prune's removals succeed |
| ConfigTransaction.ALandedConfigurationStays | src/config.rs:1442-1450 | a run in which the configuration's write lands and is reported as failed: the transaction fails and the new configuration stays |
| ConfigTransaction.RestoreConfigTransaction | src/subscription/artifacts.rs:266-284 | with working writes and removals the files are the snapshot's restoration; it succeeds only with all its versions in place, and the first failing write ends it before the configuration is touched |
| ConfigTransaction.RestoreUndoesIffNothingWasPruned | src/subscription/artifacts.rs:266-284 | restoring the snapshot of a successful transaction gives back the old deployment if and only if the prune removed nothing |
| Update.Backup | src/update.rs:668-693 | a complete rollback point of every managed path, absence included, changing no path outside the backups; it fails exactly when one of its copies does |
| Update.Restore | src/update.rs:695-710 | success puts contents and absence of every managed path back |
| Update.ReplaceBinaries | src/update.rs:611-626 | which of the two writes fails decides the error; the second one's failure is undone on all managed paths, the first one's is not |
| Update.RestartOrRestore | src/update.rs:628-640 | a failed restart restores everything whatever it did to units and hook; then every managed path holds what the second restart makes of its old contents |
| Update.ReplaceAndRestart | src/update.rs:611-640 | the update after its backup: the first step that fails decides the error; what each end leaves at the managed paths |
| Update.Apply | src/update.rs:583-641 | the first step that fails (a copy, a binary, the restart, the restore) decides the error; each failure leaves the managed paths at their pre-update contents or absence, up to the first binary's own landed write and to what the rollback's restart makes of units and hook; the rollback point stays complete |
| Update.RestartSparesTheRest | src/lifecycle.rs:790-875 | of the managed paths exactly the service unit, the socket unit and the hook may be rewritten by a restart: never binaries, configuration, state, artifacts or certificates |
| Update.RollbackIsExactIff | src/update.rs:628-640 | after a rollback whose restart succeeds on the live host, every managed path is as before the update if and only if units and hook were in line with the subscription mode then |
| Update.RollbackOfFilesInLineIsExact | src/update.rs:628-640 | in line, they are as before however the steps of the rollback's restart go |
| Update.RollbackCreatesTheMissingHook | src/update.rs:628-640 | a run in Direct mode without a hook: the rollback ends with one |
| Update.ALandedBinaryStays | src/update.rs:611 | a run in which the first binary's write lands, is reported as failed, and stays |
| ServiceRestart.ReconcileSubscriptionUnits | src/lifecycle.rs:790-842 | step by step, the method makes of the files what the restart function says, stopping at the first failed step or foreign file |
| ServiceRestart.ReconcileCertificateHook | src/lifecycle.rs:844-875 | so does the reconciliation of the hook |
| ServiceRestart.RestartServices | src/lifecycle.rs:739-784 | and the restart, which reconciles on the live host only |
| ServiceRestart.SuccessBringsInLine | src/lifecycle.rs:786-842 | a live restart that succeeds leaves the mode's service unit, in Direct mode socket and hook in place, in the others no hook |
| ServiceRestart.RestartChangesNothingIff | src/lifecycle.rs:790-875 | a live restart that succeeds changes no file if and only if the files were in line with the mode before it |
| ServiceRestart.ReloadsExactlyWhenUnitsChange | src/lifecycle.rs:836-840 | the units are read again exactly when the file of one of them changes |
| ServiceRestart.InLineIsLeftAlone | src/lifecycle.rs:790-875 | files in line are left alone however the steps go |
| ServiceRestart.OnlyForeignFilesStopARestart | src/lifecycle.rs:790-865 | where every step works, a live restart fails exactly at a file without the program's marker or at a missing service unit |
| ServiceRestart.RestartSucceedsIff | src/lifecycle.rs:790-875 | a live restart succeeds exactly when no file is foreign and every step these files need, and no other, goes well |
| ServiceRestart.RestartDependsOnItsFiles | src/lifecycle.rs:790-875 | a restart looks at its three files only: files that agree on them are treated alike |
| Update.ManagedPathsAreNotBackups | src/update.rs:12-28 | no managed path lies below the backup directory, so backups and managed files never overwrite each other |
| Update.PinsAreManaged | src/update.rs:653-665 | the managed paths are the fixed ones and, in Direct mode, both files of the host's pin |
| Update.PruneRollbackHistory | src/update.rs:765-784 | what is left is exactly the generations with fewer than three newer ones by name and those that could not be removed |
| Update.LatestGenerationIsKept | src/update.rs:763-775 | for names of one width the latest generation sorts last and is kept |
| RequestBudget.IpBudget.TryAcquire | src/subscription/serve.rs:157-190 | the mutating method computes the request function; a refusal leaves the table as it was |
| RequestBudget.IpBudget.Admit | src/subscription/serve.rs:192-201 | the sweep keeps exactly the indebted addresses, or clears the table on overflow |
| RequestBudget.GrantsAreBounded | src/subscription/serve.rs:124-201 | in any window of any run one address gets at most burst * (1 + clears) + ceil(window / refill) grants, across sweeps and re-creation |
| RequestBudget.OwnRequestCostsExactly | src/subscription/serve.rs:170-188 | below the cap a request lowers the address's allowance by exactly one refill if granted and by nothing if refused: no waiting time is lost |
| RequestBudget.GrantsAreExact | src/subscription/serve.rs:170-188 | in a window without a clear in which the address is never full, a request is granted if and only if the grants so far are fewer than the tokens at the start and the whole periods since the bucket's instant |
| RequestBudget.ConformingIsNeverRefused | src/subscription/serve.rs:124-201 | the other side of the bound: in any run an address that keeps to the burst and one request per period is never refused, across sweeps and clears |
| RequestBudget.SweepForgetsOnlyFullOnes | src/subscription/serve.rs:193-197 | the sweep forgets exactly the addresses that would have the whole burst again |
| RequestBudget.ClearForgetsEveryone | src/subscription/serve.rs:198-200 | a new address clears the table exactly when more indebted ones than the limit are left; otherwise all of these are kept |
| RequestBudget.EarlierInstantRefillsNothing | src/subscription/serve.rs:170-171 | an instant before the last top-up refills nothing |
| RequestBudget.TableStaysBounded | src/subscription/serve.rs:192-201 | after any run the table has at most MAX_TRACKED_PEERS + 1 entries |
| RequestBudget.RefusalChangesNothing | src/subscription/serve.rs:178-187 | a refusal happens exactly when nothing is available, asks for one second, and changes nothing |
| RequestBudget.AvailableIsServed | src/subscription/serve.rs:169-189 | requests at one instant are granted exactly until what is available is used up |
| RequestBudget.WaitingEarnsAGrant | src/subscription/serve.rs:178-187 | waiting the returned time earns a grant, whatever other addresses do meanwhile |
| RequestBudget.NeighboursAreIndependent | src/subscription/serve.rs:192-201 | another address's request never lowers what is available, and changes it only by clearing the table |
| TlsReload.TlsListener.Accept | src/subscription/serve.rs:362-399 | one accept: reload exactly when nothing is loaded or the stamp differs, a failed reload keeps the configuration and forgets the stamp |
| TlsReload.ActKeepsInv | src/subscription/serve.rs:362-399 | every step keeps: a cached stamp equal to the files' times means the cached pair is the files' contents |
| TlsReload.ServedPairsMatch | src/certificate.rs:209-277 | under any interleaving with renames and removals every served configuration is a key that fits its chain |
| TlsReload.LoadedIsNeverLost | src/subscription/serve.rs:368-399 | a configuration once loaded keeps being served whatever happens to the files |
| TlsReload.ServedOnceServedEver | src/subscription/serve.rs:368-399 | once a connection got a configuration, every later one gets one |
| TlsReload.NextAcceptServesTheFiles | src/subscription/serve.rs:362-399 | once the files are stable and valid the next accept serves exactly them; if invalid, what was served before |
| TlsReload.UnchangedTimesNeedNoRead | src/subscription/serve.rs:362-369 | while the files keep the times of the loaded pair an accept serves it without reading them |
| TlsReload.OnlyPinnedPairsAreServed | src/certificate.rs:417-427 | however pins and accepts interleave, only pairs pinned together are served |
| TlsReload.RenewalServesOldOrNew | src/certificate.rs:417-427 | during a renewal every accept serves the old pair or the new one |
| Release.WriteCanonicalJson | src/release.rs:169-198 | the writer appends the canonical encoding to its buffer whatever order the maps list their keys in |
| Release.WriteObject | src/release.rs:171-184 | so does the object branch, after sorting the keys |
| Release.WriteMembers | src/release.rs:174-183 | the loop over the sorted keys appends the members and the closing brace |
| Release.WriteArray | src/release.rs:185-194 | and the array branch |
| Release.EscapesAreUnambiguous | src/release.rs:195 | no string escape (section 7 of RFC 8259) is the start of another |
| Release.EscapedOnlyWhereNeeded | src/release.rs:195 | a character is escaped exactly where section 7 of RFC 8259 demands it, in the two-character form wherever there is one |
| Release.CanonicalIsUnambiguous | src/release.rs:169-198 | equal encodings followed by delimiters encode equal values and leave equal rests |
| Release.CanonicalIsInjective | src/release.rs:156-198 | the encoding determines the document |
| Release.SignedBytesDetermineTheManifest | src/release.rs:54-83 | canonical bytes are equal if and only if the manifests agree in every field but the signature |
| JsonText.CanonicalIsATextOfItsValue | src/release.rs:169-198 | the canonical encoding of every value follows the JSON grammar and reads back as that value |
| JsonText.EscapedReadsBack | src/release.rs:195 | every string, escaped, reads back as itself (section 7 of RFC 8259) |
| JsonReading.OneTextOneReading | crates/client-core/src/clash_api.rs:472-474 | the JSON grammar (RFC 8259) is unambiguous: a text is laid out from one document only and has at most one value |
| JsonReading.CanonicalIsReadAsItsValue | src/release.rs:169-198 | the signed bytes of a value are read as that value and no other |
| Text.SortedIsUnique | src/release.rs:173-174 | a set of names has one sorted listing, so the bytes do not depend on insertion order |
| Text.EqualWidthOrder | src/update.rs:774 | on decimal names of one width the name order is the numeric order |
| JsonStream.FindEnd | crates/client-core/src/clash_api.rs:457-470 | the depth counter finds the end of an object and never underflows |
| JsonStream.CompleteJsonObjects | crates/client-core/src/clash_api.rs:448-478 | the cursor loop terminates with the objects of the specification |
| JsonStream.ObjectsAreAPrefix | crates/client-core/src/clash_api.rs:445-478 | the result on a text is a prefix of the result on any extension of it |
| JsonStream.StreamYieldsItsObjects | crates/client-core/src/clash_api.rs:445-478 | on separated balanced objects exactly those are returned, in order, before whatever follows |
| JsonStream.EncodedObjectsAreBalanced | crates/client-core/src/clash_api.rs:454-472 | every text of an object (RFC 8259: members in any order, any whitespace, any escapes, any numbers) without braces in its strings is balanced |
| JsonStream.EncodedStreamRoundTrip | crates/client-core/src/clash_api.rs:448-478 | so a separated stream of such texts yields exactly what the parser reads each of them as |
| JsonStream.ValuesComeBack | crates/client-core/src/clash_api.rs:448-478 | a parser that reads the sent texts as the values they have gives these values back, in order |
| JsonStream.ABraceInAStringEndsTheObject | crates/client-core/src/clash_api.rs:457-470 | the condition on braces is needed: an object ends at a closing brace inside a string |
| JsonStream.TrafficTextIsASample | crates/client-core/src/clash_api.rs:439-443 | the samples the traffic endpoint sends are such texts, with the value they show |
| JsonStream.CanonicalObjectsAreBalanced | crates/client-core/src/clash_api.rs:454-472 | so are canonical encodings without braces in their strings |
| Routes.VersionReadsBack | src/subscription/serve.rs:785-788 | a printed client version parses back |
| Routes.ReadNumbers | src/subscription/serve.rs:785-788 | a version number is read from its digits, with leading zeros or a plus sign, and from nothing else |
| Routes.ServedVersions | src/subscription/serve.rs:754-783 | of the versioned links exactly five sing-box versions and one Clash version are served |
| Routes.PathNamesAreDistinct | src/subscription/profile.rs:48-59 | over all versions distinct formats have distinct path names |
| Routes.ArtifactNamesAreDistinct | src/subscription/profile.rs:61-74 | and distinct artifact names, all owned by the generator and none the server's |
| Routes.GeneratedNamesAreDistinct | src/subscription/artifacts.rs:354-416 | a generation over distinct formats uses no name twice, as the transaction requires |
| Routes.RouteReadsBack | src/subscription/serve.rs:736-788 | for every valid credential the parser maps a printed link path to its credential and route, and to nothing when the version is not registered |
| Routes.AcceptedFormatsPrintBack | src/subscription/serve.rs:754-783 | whatever segment is accepted names a registered format whose printed name is accepted as the same |
| Routes.AcceptedTargetsIff | src/subscription/serve.rs:736-752 | a request is served exactly when it has no query and its segments are a credential and a route, with not a segment more |
| Redaction.RedactedTextHidesTheCredential | src/subscription/serve.rs:694-699 | for every text and valid credential the redacted text has no occurrence, not even across a replacement |
| Redaction.RedactionReplacesTheSecretOnly | src/subscription/serve.rs:694-699 | the text is some pieces joined by the secret and the result is the same pieces joined by the marker |
| Redaction.OtherTextIsLeftAlone | src/subscription/serve.rs:694-699 | a text without the secret is returned unchanged |
| ProtocolConfig.ValidateRequestedPorts | src/config.rs:996-1029 | accepted exactly when every requested port belongs to an enabled protocol, is in range and is requested once; each error has its cause |
| ProtocolConfig.Host.AllocatePort | src/config.rs:1185-1214 | a given port is not taken and was free when probed; it fails only when the requested port, or every one of 256 candidates, is taken or was in use when probed |
| ProtocolConfig.Host.BuildProtocolCredentials | src/config.rs:1042-1087 | a staying protocol keeps its secret, with the exact outcome for its port: changed only on request, probed only when changed; a new one gets a secret of its own |
| ProtocolConfig.NewSecretsAreTheirOwn | src/config.rs:1090-1103 | the secrets of protocols enabled together come from different generations |
| ProtocolConfig.Host.BuildAll | src/config.rs:490-535 | credentials for exactly the enabled protocols, ports all different, each kept or probed free; when all have credentials it succeeds if and only if the edited ports differ and the changed ones are free when probed one after the other, with the exact result and exactly these probes; every failure has its cause |
| ProtocolConfig.Host.FailureHasCause | src/config.rs:1068-1087 | a collision means a fixed port equals an earlier protocol's fixed port or was drawn for an earlier new one; in use, that a changed port was not free when probed; none found, that the last 256 draws were all held by earlier protocols or not free when probed |
| ProtocolConfig.Host.ApplyOptions | src/config.rs:470-588 | a rebuilt deployment is valid and carries options, kept secrets, preferences and subscription credential; a bad port request fails before any probe, an edit that enables nothing new has one outcome, and every other failure has its cause |
| ProtocolConfig.Host.RebuildWithOwnValues | src/config.rs:470-588 | a valid deployment rebuilt with its own values is returned equal, without a probe, if and only if it has credentials for its enabled protocols only; otherwise the edit is refused |
| ProtocolConfig.OwnOptionsFitIffNothingIsExtra | src/wizard.rs:340-346 | the ports an edit is prefilled with are accepted exactly in that case |
| ProtocolConfig.MergeProtocolOrder | src/wizard.rs:619-635 | exactly the selected set, no duplicates, kept protocols in their old order, new ones in selection order; the same selection changes nothing |
| ProtocolConfig.ClearPortsForDisabled | src/wizard.rs:639-652 | exactly the enabled protocols' ports stay, so no port of a disabled one is requested |

## Left out

- Update.Apply: the pruning of older rollback generations is modelled by itself (Update.PruneRollbackHistory), outside the managed files; a failure to prepare the rollback directory counts as not ready.
- RequestBudget.GrantsAreBounded: the run is shorter than 2^32 seconds, because beyond that the source's cast to 32 bits forgets refills; the same bound is on RequestBudget.OwnRequestCostsExactly, RequestBudget.GrantsAreExact, RequestBudget.ConformingIsNeverRefused, RequestBudget.NeighboursAreIndependent and, for the wait itself, on RequestBudget.WaitingEarnsAGrant. The clock type's own overflow is not modelled.
- Update.LatestGenerationIsKept: names are decimal and of one width, as nanosecond counts are until the year 2286.
- AccountingPeriod.PeriodsTile: for a general zone it is stated under regularity, whose exact conditions are the two `RegularIff` lemmas; that tiling fails without it is shown case by case, where the schedules involved exist.
- ProtocolConfig.ClearPortsForDisabled: ports and credentials are maps by protocol and the five credential builds a loop over the protocol table; update in place of the five separate fields is not modelled.
- JsonMerge.DeepMerge: it returns the changed base instead of changing it through a reference. The YAML twin and the shared table of cases are left out; the twin differs only in non-string keys.
- ConfigOverride.ProfileOverride.Apply: conflicts are a set; the sorted and deduplicated list of their printed pointers is left out, as are changed pointers, rule counts and summaries.
- JsonStream.CompleteJsonObjects: texts are code points; a buffer that is not UTF-8 yields nothing in the source. The JSON parser is a parameter.
- Release.WriteCanonicalJson: numbers are integers, as in manifests; texts are code points and their UTF-8 encoding is left out.
- JSON numbers with a fraction or an exponent: their texts are covered by the scanner's theorems, but they have no value in the model.
- Floating-point amounts, byte formatting and the parsing of traffic amounts.
- The text of the state file, correction timestamps beyond being carried along, and the schema version; a cycle key is an opaque text in `Traffic` and a start instant in `AccountingPeriod`.
- The IANA zone database (a zone is any list of transitions) and the validation that an anchored reset exists once in its zone.
- Artifact rendering, template catalogs and the choice of the full client profile: generation is a parameter.
- `regenerate` and the single-binary update: the same steps as their larger siblings over fewer files.
- Existing files that cannot be read, directory creation and permissions; a failure there is one of the refusals of a write.
- Certificates, signatures, digests and key generation: predicates given as parameters. Wildcard host names and the redaction of private keys are left out.
- The compatibility matrix, version and seed parsing of manifests, and the order and wording of validation errors that do not concern protocols.
- Failing randomness: a fresh credential always succeeds once its port is allocated.
- Network, async, semaphores, throttled log lines, HTTP responses, the wizard's prompts, the preflight module, and of the lifecycle module all but the restart.
- The unit texts and the search for their markers are parameters of a restart; the links `systemctl` makes when it enables or disables a unit are outside the modelled files.

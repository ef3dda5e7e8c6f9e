# Alphamill: a verified model of its stateful core

Alphamill collects exchange candles, exports them into a versioned data lake,
evaluates trading factors and serves a forecasting model. This project models,
in Dafny, the parts of it whose guarantees reach over many calls, processes and
crashes, and proves those guarantees for all inputs and all runs.

`dafny verify dfyconfig.toml` checks the whole project.

## What is modelled

**Claims** (`Claims`, `ClaimProtocol`). The single-writer claim of one key.
`Claims.ClaimKey` is the claim file with `acquire`, `recover` and `release`;
`ClaimProtocol` takes the same code apart into system calls and interleaves any
number of callers with process starts and deaths, pid reuse and a clock that may
jump either way. At most one live caller ever holds the key, and the file is
then intact and carries its token; and no crash point blocks a key for ever.
Safety does not depend on the clock; recovery waits for the lease and for the
recorded pid to be nobody's, the caller's own process included. On a clock that
does not go back nobody takes a claim from its owner while its lease runs.

**Row digests** (`Encoding`, `Digest`, `Reconcile`). The byte code of fields and
rows, the sorted stream of row codes that is hashed, and reconciliation. Rows
are self-delimiting, so the digest identifies the multiset of normalised rows
exactly; of the three verdicts of a reconciliation one decides the others. An
empty projection is the exception: it gives all row lists one digest.

**The lake** (`Versions`, `Manifest`, `Lake`, `LakeStore`, `LakeProofs`,
`LakeEquality`, `LakeRuns`, `LakeOutcomes`, `LakeIdempotence`, `LakeReadings`).
Version names are parsed with whatever decimal digits the platform knows, as the
original's patterns allow; formatting gives back those in ASCII digits that do
not spell out revision one. `Lake.Export` is one export of a dataset as a
function of the disk and the job; the job carries the source snapshot and says
as which rows fresh files read back and after how many writes the process dies.
`LakeStore.Exporter` is the exporter with its loops and effects, proved to do
what the function says. Over any run of incremental and full exports: published
versions are permanent, incremental exports equal full rebuilds, the gap ledger
is exact, versions ascend, the number of partitions cannot collapse, the same
export twice publishes once, and the files of a valid version hold the source's
rows. `LakeOutcomes` says exactly which exports are refused and which change
nothing.

**Backfill** (`Backfill`). The cursor loop over one pair's candles with its
table and progress rows. A run is given what the exchange answers, when its
slice ends and how many commits it survives. Saved cursors never lie, and a
completed run leaves exactly the exchange's candles. An undisturbed run
completes if and only if the exchange traded in the last minute of the available
window: without a candle there it ends in `stalled`, from whatever cursor it is
resumed. The count of rows it saves is that of the rows it has kept.

**Kronos lifecycle** (`KronosModel`, `Lifecycle`). Clients, waiters and workers
of the stop and restore actions. One action runs at a time. The original's
comments promise a stable state on every failure; the code keeps the promise
exactly for the courses in `Lifecycle.LandsStable`. Of what the shipped model
can do, one course breaks it: the load installs the predictor and then raises
while printing that it did, which leaves a loaded model with `stopped` as the
desired state. A success is always true: it is answered only in the state it
names. The set of timed-out ids keeps an id for ever exactly if its waiter
registers while another operation is in flight, since the code tests that some
operation is, not which.

**Canonical registry** (`Cohort`, `RunLog`, `Canonical`, `Campaigns`). Publish a
batch, then register the member, then give the cohort its verdict; or abandon an
incomplete experiment, which registers a candidate without a run. Each may be
killed at any effect on the file system and run again. The events of a published
batch are always the log of one run, with its abandonments after it. Two
commitments that share an experiment can block each other
(`Campaigns.SharedExperimentScenario`): the blocked one stays so until it is
registered without a run, which its own experiment allows if and only if it is
incomplete. Abandoning is documented as what keeps a cohort from staying open,
but the code asks neither whether the candidate is registered already nor
whether the experiment is published. After a run that has registered its
candidate with incomplete evidence, or on what a killed run has left behind and
a later one publishes, the candidate ends up with two registrations that differ;
then none can be read, and the cohort never gets a verdict
(`Campaigns.AbandonedAfterItsRun`, `Campaigns.AbandonedBeforeItsRun`). As long
as no candidate has two that differ, and no two commitments share an experiment,
one undisturbed run of what is missing and a finalization complete the cohort.

**Kernels** (`Dedup`, `TaskDag`, `Lineage`, `Trades`, `Universe`). Duplicate
detection by correlation, the checker of task dependencies, the chain of
superseded experiments, the trade simulator with its walk-forward split, and the
ledger of tradable pairs.

`Wrappers` holds the option and result types, `Traces` the induction over runs
of a state machine, `Sets` how sizes of finite sets compare, `Sorting` the
built-in stable sort as a function, with the facts the others rest on.

## Assumptions

SHA-256 and canonical JSON are collision-free, so hashes are constructors. An
intact claim file can always be read: the original takes a read that fails for a
corrupt file, and its recovery then removes the file although it may be held.
Process ids are numbered in the order of the directory names they give. Doubles
are 64-bit patterns as in section 3.4 of IEEE 754-2019. One exporter and one
canonical runner work at a time. Claim tokens are unique, there is one host, and
the kernel drops a file lock when its holder dies. The exchange's history does
not change, its bars are a minute or more apart, and an answer is a contiguous
stretch of it that starts at or before the cursor. Years have four digits.
Digits of other scripts lie outside ASCII and have values below ten.

## Model

| member | source | states |
|---|---|---|
| Claims.ClaimKey.CreateClaim | src/alphamill/evaluation/claim.py:151-173 | creates exclusively; a failed body write leaves a corrupt file, an existing file is untouched and its holder reported |
| Claims.ClaimKey.Acquire | src/alphamill/evaluation/claim.py:176-192 | succeeds exactly on a free key with the lock free, for valid arguments and a working write; says why else; never changes a file that is there |
| Claims.ClaimKey.Recover | src/alphamill/evaluation/claim.py:211-259 | with the lock free and valid arguments takes over exactly when nothing intact is there, or now is at or past the start plus the lease, the pid is dead and there is no temp file; otherwise the file stays and the reason is said |
| Claims.ClaimKey.Release | src/alphamill/evaluation/claim.py:195-208 | removes the file exactly when it carries the caller's token; a corrupt or foreign one raises and stays |
| ClaimProtocol.StepKeepsInv | src/alphamill/evaluation/claim.py:58-259 | every step of every caller, process and clock keeps the protocol's invariant |
| ClaimProtocol.ClaimSafety | src/alphamill/evaluation/claim.py:151-259 | in every reachable interleaving at most one live caller holds the key, and the file is intact with its token and pid |
| ClaimProtocol.MutualExclusion | src/alphamill/evaluation/claim.py:58-75 | two live callers are never inside the critical section together |
| ClaimProtocol.RecoverOutcome | src/alphamill/evaluation/claim.py:228-259 | with the lock free, recover run alone ends holding if and only if the file is missing, corrupt, or expired with its pid dead |
| ClaimProtocol.ClaimRecoverability | src/alphamill/evaluation/claim.py:211-259 | from any reachable such state a fresh caller reaches a state in which it is the sole holder |
| ClaimProtocol.NoCrashPointBlocks | src/alphamill/evaluation/claim.py:132-173 | wherever the others died, a fresh caller can become sole holder at any instant from the end of the lease on |
| ClaimProtocol.LeaseProtects | src/alphamill/evaluation/claim.py:104-109 | on a clock that does not go back an intact file stays as it is as long as its lease runs, unless its owner unlinks it |
| ClaimProtocol.NeverOverwritten | src/alphamill/evaluation/claim.py:151-259 | in a run the file changes only by a live caller that has the lock: it creates it where there was none, fills the file it has created with its own claim, removes its own, or takes over |
| ClaimProtocol.AcquireOutcome | src/alphamill/evaluation/claim.py:176-192 | with the lock free acquire run alone ends holding on a free key, and leaves the file as it is on one that is not |
| ClaimProtocol.FailedWriteOutcome | src/alphamill/evaluation/claim.py:151-173 | a write that fails leaves a file, corrupt, or intact if the body was complete, that keeps others out until it is recovered |
| ClaimProtocol.ReleaseOutcome | src/alphamill/evaluation/claim.py:195-208 | with the lock free a holder that runs release alone leaves the key free |
| ClaimProtocol.UnreleasedOutcome | src/alphamill/evaluation/claim.py:195-208 | a holder that raises in release before the file is gone still holds; one that gives up leaves the file |
| ClaimProtocol.LateReleaseOutcome | src/alphamill/evaluation/claim.py:195-208 | a caller that does not hold removes the file by release exactly if it carries its token |
| ClaimProtocol.AnybodyCanAcquire | src/alphamill/evaluation/claim.py:176-192 | from the start any caller with valid arguments comes to be sole holder in some run |
| ClaimProtocol.HolderCanBeReplaced | src/alphamill/evaluation/claim.py:211-259 | from there, once that holder has died, another caller comes to be sole holder at the very end of its lease |
| Encoding.BigEndianRoundTrip | src/alphamill/data_bridge/digest.py:66-76 | fixed-width big-endian codes of numbers in range decode to the number |
| Encoding.FieldSplits | src/alphamill/data_bridge/digest.py:66-85 | field codes of one type are prefix-free: equal streams have equal first values and equal rests |
| Encoding.RowSplits | src/alphamill/data_bridge/digest.py:88-94 | row codes are self-delimiting: equal streams have equal first rows and equal rests |
| Encoding.RowCodeExact | src/alphamill/data_bridge/digest.py:88-94 | two rows have one code if and only if their normal forms are equal |
| Encoding.NormalExactly | src/alphamill/data_bridge/digest.py:48-54 | two values have one normal form iff they are the same, both a zero of either sign, or both no number |
| Encoding.EncodableExactly | src/alphamill/data_bridge/digest.py:66-85 | which values a column of each type takes, and with which error it refuses the others |
| Encoding.RowRefusedExactly | src/alphamill/data_bridge/digest.py:88-94 | a row is refused for its length, or else for the first field that is, with that field's error |
| Digest.RowDigest | src/alphamill/data_bridge/digest.py:111-117 | the loop feeds the hasher the sorted row codes, or fails on the first row that cannot be encoded |
| Digest.ConcatInjective | src/alphamill/data_bridge/digest.py:111-117 | equal hashed streams come from equal lists of row codes |
| Digest.CodesExact | src/alphamill/data_bridge/digest.py:88-117 | two row lists have the same codes, with multiplicity, if and only if they hold the same normalised rows |
| Digest.DigestExact | src/alphamill/data_bridge/digest.py:111-117 | for a non-empty projection two row lists have one digest if and only if they are equal as multisets of normalised rows |
| Digest.EmptyProjectionCollapses | src/alphamill/data_bridge/digest.py:111-117 | without columns all row lists have one digest |
| Reconcile.SameRowsSameStats | src/alphamill/data_bridge/reconcile.py:86-96 | lists with the same rows, up to order and normal form, have the same count, time bounds and digest |
| Reconcile.ReconcileExact | src/alphamill/data_bridge/reconcile.py:86-107 | the digest verdict is ok if and only if all verdicts are, if and only if both sides hold the same rows |
| Backfill.BatchCovers | src/alphamill/data_bridge/collector/historical_backfill.py:179-181 | the rows kept of an answer are available exchange bars and leave no gap after the cursor |
| Backfill.ExactIsUnique | src/alphamill/data_bridge/collector/historical_backfill.py:236-240 | two tables that are exact on a window agree there, so completed runs leave one table whatever disturbed them |
| Backfill.Store.SaveProgress | src/alphamill/data_bridge/collector/backfill_progress.py:66-113 | replaces one progress row, keeping every saved cursor truthful |
| Backfill.Store.Upsert | src/alphamill/data_bridge/collector/historical_backfill.py:202-202 | adds the rows and changes no stored candle |
| Backfill.Store.OpenRun | src/alphamill/data_bridge/collector/historical_backfill.py:124-128 | starts at the saved cursor of an unfinished run or at the opening, saves that, and everything available before it is stored |
| Backfill.Store.FetchWithRetries | src/alphamill/data_bridge/collector/historical_backfill.py:147-177 | the first answer within the allowed attempts; a failure iff they all raise |
| Backfill.Store.AskExchange | src/alphamill/data_bridge/collector/historical_backfill.py:133-200 | rows without a gap after the cursor, or none with the status and outcome the run ends with; a cooperative exchange with nothing pending stalls it |
| Backfill.Store.StoreRows | src/alphamill/data_bridge/collector/historical_backfill.py:202-223 | upserts, adds the number of rows to the count, then moves and saves a strictly advancing cursor behind which everything is stored, or saves the old one as stalled |
| Backfill.Store.RunTurn | src/alphamill/data_bridge/collector/historical_backfill.py:132-223 | one turn advances and saves the cursor with everything behind it stored, and adds to the count exactly the rows it kept of the answer; or it ends the run with the cursor saved under the status of an outcome the turn brings |
| Backfill.Store.Advance | src/alphamill/data_bridge/collector/historical_backfill.py:132-234 | the loop terminates: it passes the close with everything stored, or stops short with a saved cursor and count not behind where they began, for a reason some turn brings |
| Backfill.Store.RunWindow | src/alphamill/data_bridge/collector/historical_backfill.py:124-240 | a run that stops short leaves a cursor at which the next one starts; an undisturbed one completes iff the last available minute was traded and stalls otherwise |
| Backfill.Store.CloseRun | src/alphamill/data_bridge/collector/historical_backfill.py:236-240 | writing complete, the table is exact on the window and its last minute was traded |
| Backfill.Store.FetchSymbol | src/alphamill/data_bridge/collector/historical_backfill.py:78-240 | terminates; whatever stops it, saved cursors stay truthful, the saved count of an unfinished run never falls, and the next run starts at the cursor it saved; completed, it leaves exactly the available bars; undisturbed, it completes iff the last available minute was traded, else it ends stalled, and the count it returns is that of the unfinished run it resumes plus the available bars from its starting cursor on; nothing is available iff the pair is marked so or the listing leaves none of the window |
| Backfill.Store.AvailableExactly | src/alphamill/data_bridge/collector/backfill_boundaries.py:31-42 | the available window is what of the window lies in the listing |
| Backfill.Store.Campaign | src/alphamill/data_bridge/collector/historical_backfill.py:78-240 | after any sequence of runs over any windows, every window for which one completed is exact |
| Backfill.StallsWithoutLastMinute | src/alphamill/data_bridge/collector/historical_backfill.py:184-200 | one bar at 0 and a window of two minutes: an undisturbed run stalls, and so does the run that resumes it |
| KronosModel.KronosRealSignal.Unload | src/alphamill/kronos_service/kronos_real.py:104-122 | drops the predictor before anything can fail, and says so when clearing the cache fails |
| KronosModel.KronosRealSignal.LoadPredictor | src/alphamill/kronos_service/kronos_real.py:211-240 | loads at most once; records the error exactly when it raises from the load itself |
| Lifecycle.StepKeepsInv | src/alphamill/kronos_service/lifecycle.py:175-309 | every step of clients, waiters and workers keeps the controller's invariant |
| Lifecycle.SingleFlight | src/alphamill/kronos_service/lifecycle.py:185-201 | whatever is between acceptance and clearing is the recorded operation, and there is one at most |
| Lifecycle.Landing | src/alphamill/kronos_service/lifecycle.py:213-309 | at the instant the slot is cleared the derived state is running or stopped, waited for or timed out, exactly for the courses in `LandsStable`, which tells them by the action, the call and the model before it; it is then running iff the model is loaded and stopped iff it is not |
| Lifecycle.SuccessExactly | src/alphamill/kronos_service/lifecycle.py:277-309 | an action succeeds iff its call was that of the action and nothing raised in it; a success is in the state it names, and an unload that fails past the point of no return is an error in the stopped state |
| Lifecycle.OneAnswerEach | src/alphamill/kronos_service/lifecycle.py:203-211 | in any run an answer or a timeout is final, whoever is answered has a finished operation, and whoever times out has given up before, when the operation was under way |
| Lifecycle.ShippedLanding | src/alphamill/kronos_service/lifecycle.py:277-309 | with the shipped model an action lands transitional iff it installs a predictor and then fails to announce it |
| Lifecycle.RestoreLandsTransitional | src/alphamill/kronos_service/lifecycle.py:300-309 | a reachable restore, on the shipped model, after which the instance is transitional |
| Lifecycle.StopLandsTransitional | src/alphamill/kronos_service/lifecycle.py:261-275 | a reachable stop of an unloaded model, whose body raises while the status cannot be read, after which the instance is transitional |
| Lifecycle.UnchangedUntilAcceptance | src/alphamill/kronos_service/lifecycle.py:110-115 | while no operation is recorded the derived state stays as it is, so a transitional one lasts until the next acceptance |
| Lifecycle.LateExactly | src/alphamill/kronos_service/lifecycle.py:203-250 | when it is cleared and in its log line an operation is marked late iff its waiter registered the timeout while that operation was in flight |
| Lifecycle.TimedOutCanLeak | src/alphamill/kronos_service/lifecycle.py:203-211 | a reachable state in which the id of a finished operation stays among the timed-out ones |
| Lifecycle.RegistrationLeaksExactly | src/alphamill/kronos_service/lifecycle.py:206-210 | registering a timeout leaves the id behind iff at that moment an operation is recorded, but another one |
| Lifecycle.LeakedExactly | src/alphamill/kronos_service/lifecycle.py:203-241 | at any moment of any run the id of an operation that is over is still among the timed-out ones iff its waiter has so registered before |
| Lifecycle.DrainedExactly | src/alphamill/kronos_service/lifecycle.py:203-241 | with no operation recorded the set of timed-out ids is empty iff no waiter has ever so registered |
| Versions.ParseFormat | src/alphamill/data_bridge/manifest.py:48-65 | parsing a formatted version gives back its day and revision |
| Versions.FormatParse | src/alphamill/data_bridge/manifest.py:48-65 | formatting a parsed name gives back the name iff it uses no other script's digits and does not spell out -r1 |
| Versions.UnformattedNames | src/alphamill/data_bridge/manifest.py:48-65 | the two kinds of names that are parsed and not given back, by an example of each |
| Versions.DatesExactly | src/alphamill/data_bridge/manifest.py:48-65 | a day is the date of a version iff the Gregorian calendar has it, in years of up to four digits |
| Versions.OrderExactly | src/alphamill/data_bridge/manifest.py:48-70 | versions are ordered by their days as the calendar counts them, and within a day by revision |
| Versions.RefusedExactly | src/alphamill/data_bridge/manifest.py:48-65 | a name that does not parse is refused for its form, or else for a day that is none |
| Versions.ParseAll | src/alphamill/data_bridge/manifest.py:132-136 | the versions of the names in their order, or the failure of the first that does not parse |
| Versions.HighestRevision | src/alphamill/data_bridge/manifest.py:134-138 | a revision of the day that none of the day is above, or zero if there is none |
| Versions.NextDataVersion | src/alphamill/data_bridge/manifest.py:132-139 | the name is free, above every name not of a later day, and no revision is left out, whatever other digits names use |
| Manifest.SynthesizePartitions | src/alphamill/data_bridge/manifest.py:208-215 | the baseline with every produced partition replacing or joining by key |
| Manifest.AscendingIsStrict | src/alphamill/data_bridge/manifest.py:172-174 | the listing by canonical key is strictly ascending |
| Manifest.ValueDigestExact | src/alphamill/data_bridge/manifest.py:172-192 | two versions have one value digest if and only if they have the same keys with the same counts, bounds and digests |
| Manifest.AddedOrChanged | src/alphamill/data_bridge/manifest.py:239-250 | the first loop finds exactly the new and the changed keys |
| Manifest.RemovedKeys | src/alphamill/data_bridge/manifest.py:251-253 | the second loop finds exactly the keys that are gone |
| Manifest.PartitionDiff | src/alphamill/data_bridge/manifest.py:235-255 | lists exactly the keys whose content differs, each once, with the right reason and in key order |
| Manifest.DiffAgreesWithIdentity | src/alphamill/data_bridge/manifest.py:172-255 | the diff is empty iff the value digest is unchanged, no key has two reasons, and applied to the baseline it gives the current version |
| Lake.TopRevision | src/alphamill/data_bridge/partitions.py:174-179 | a revision no file of the key is above, and that is on disk unless it is zero |
| Lake.LastDayIsLast | src/alphamill/data_bridge/exporter.py:44-47 | the last day of a baseline is one of its partitions' days and none is later |
| LakeProofs.SameDigestSameStats | src/alphamill/data_bridge/partitions.py:254-258 | reusing a file on an equal row digest reuses the right counts and bounds too |
| LakeProofs.ProduceSound | src/alphamill/data_bridge/partitions.py:218-263 | production writes only new files and yields, cell by cell, an entry with the statistics of the cell's rows and the hash of a file that is there |
| LakeProofs.BaselineIsLastValid | src/alphamill/data_bridge/manifest.py:318-350 | on a sound disk the baseline is the last valid version listed, in either mode |
| LakeProofs.ComposeSound | src/alphamill/data_bridge/exporter.py:223-256 | a composed version lists files that are there with the recorded hash and skips nothing it has; if it is valid, all of them, fresh, reused or inherited, have the recorded statistics when read |
| LakeProofs.ExportKeepsSound | src/alphamill/data_bridge/exporter.py:149-321 | however an export ends, all published manifests stay, with all their files unchanged |
| LakeProofs.PublishedIsPermanent | src/alphamill/data_bridge/partitions.py:160-199 | at every later point of every run a version once published, valid or not, is there unchanged and its files have the bytes it recorded |
| LakeEquality.ProducedContent | src/alphamill/data_bridge/partitions.py:218-263 | what a finished production holds is the source's content in the window, key by key |
| LakeEquality.SettledContent | src/alphamill/data_bridge/manifest.py:208-215 | a settled baseline merged with the content after its last day is all the content below the window end |
| LakeEquality.WindowEmptyContent | src/alphamill/data_bridge/exporter.py:197-219 | when the window is empty the baseline already holds all the content |
| LakeEquality.FallbackUnused | src/alphamill/data_bridge/manifest.py:318-350 | on a sound disk falling back is never needed and both modes find the same baseline |
| LakeEquality.ExportMeetsFullDigest | src/alphamill/data_bridge/exporter.py:223-283 | a published version has the content and digest of a full rebuild; a no-op leaves a baseline that has the digest |
| LakeEquality.RunHoldsContent | src/alphamill/data_bridge/exporter.py:149-321 | along a run every version holds exactly what its job saw below its window end |
| LakeEquality.IncrementalEqualsFull | src/alphamill/data_bridge/exporter.py:30-50 | at any point of any run whose rows up to the baseline's last day stay, an incremental export has the content and value digest of a full one |
| LakeRuns.PublishedLedger | src/alphamill/data_bridge/manifest.py:208-232 | present and skipped are disjoint; incremental: each known dimension and window day is exactly one of them; full: skipped are exactly the missing days between a dimension's first and last |
| LakeRuns.RunLedger | src/alphamill/data_bridge/exporter.py:226-253 | the same of every version published along any run from the empty lake |
| LakeRuns.AscendingIsListed | src/alphamill/data_bridge/manifest.py:90-96 | versions published in ascending order are listed in the order of publication |
| LakeRuns.RunIsOrderly | src/alphamill/data_bridge/manifest.py:318-350 | when days do not go back, versions ascend along a run and the baseline is the last valid publish |
| LakeRuns.ExportShrink | src/alphamill/data_bridge/export_policy.py:16-58 | only a valid publish changes the number of partitions, and an unconfirmed one halves it at worst, if it is full |
| LakeRuns.RunShrink | src/alphamill/data_bridge/export_policy.py:24-58 | along any run whose full publishes confirm no shrink the count falls by 2^k at most, k being the number of full exports that publish a valid version, and never from some to none |
| LakeOutcomes.RefusedExactly | src/alphamill/data_bridge/export_policy.py:24-58 | on a sound disk a full export that is not killed is refused iff there is a baseline with partitions, and one of them is dated at or past the window end, or the shrink is not confirmed and the source has nothing, or fewer than half as many cells, below it; each with its reason |
| LakeOutcomes.IncrementalIsNotRefused | src/alphamill/data_bridge/export_policy.py:24-58 | an incremental export on a sound disk is never refused |
| LakeOutcomes.FullKeepsTheWindow | src/alphamill/data_bridge/export_policy.py:42-46 | a full export that publishes, confirmed or not, has all days of the baseline before its window end |
| LakeOutcomes.NoOpExactly | src/alphamill/data_bridge/exporter.py:197-283 | an export neither killed nor refused publishes nothing iff there is a baseline, and either no day is left to look at or content, ledger and metadata are those of the baseline and every fresh file has reconciled |
| LakeIdempotence.AllReused | src/alphamill/data_bridge/partitions.py:254-258 | when the baseline has every cell's content nothing is written and its entries are taken over |
| LakeIdempotence.WrittenExactly | src/alphamill/data_bridge/partitions.py:254-261 | a file is written exactly for the cells whose content the baseline lacks |
| LakeIdempotence.EmptyIsLedgered | src/alphamill/data_bridge/manifest.py:208-232 | what a repeated incremental export finds empty is in the published ledger already |
| LakeIdempotence.ExportIsIdempotent | src/alphamill/data_bridge/exporter.py:257-283 | after a valid publish the same export again, in either mode, changes nothing on disk and publishes nothing |
| LakeIdempotence.RepeatedJobDoesNothing | src/alphamill/data_bridge/exporter.py:257-283 | in any run a job that repeats the one that has just published a valid version leaves the disk as it is and publishes nothing |
| LakeReadings.InvalidExactly | src/alphamill/data_bridge/exporter.py:72-97 | a published version is invalid iff some cell that had to be written afresh reads back as other rows than the source's |
| LakeReadings.ReconcilesExactly | src/alphamill/data_bridge/exporter.py:87-94 | rows read back pass all three verdicts iff they are the cell's rows, up to order and normal form |
| LakeReadings.ValidVersionsHoldTheSource | src/alphamill/data_bridge/exporter.py:149-321 | along a continuous run every valid version has files for exactly the cells its job saw below its window end, and each reads back as the rows of its cell |
| LakeIdempotence.NoOrphansLeft | src/alphamill/data_bridge/partitions.py:319-344 | an undisturbed full export leaves exactly the files some manifest lists |
| LakeReadings.ExportGetsThrough | src/alphamill/data_bridge/exporter.py:197-313 | with writes to spare and files that can be read an export is not killed, and without a baseline it publishes even an empty snapshot |
| LakeStore.Exporter.FindBaseline | src/alphamill/data_bridge/manifest.py:318-350 | the backward loop finds the specified baseline or refuses |
| LakeStore.Exporter.WritePartition | src/alphamill/data_bridge/partitions.py:160-199 | writes the revision above all on disk, to a path that was free, and changes no other file |
| LakeStore.Exporter.ProduceCell | src/alphamill/data_bridge/partitions.py:253-262 | one cell reuses the baseline's file or writes a new one as specified, or the process dies first |
| LakeStore.Exporter.ProducePartitions | src/alphamill/data_bridge/partitions.py:218-263 | the loop does what the specification of production says, killed runs included |
| LakeStore.Exporter.ComposeVersion | src/alphamill/data_bridge/exporter.py:226-256 | puts together the version the specification composes |
| LakeStore.Exporter.FinishExport | src/alphamill/data_bridge/exporter.py:253-321 | guard, no-op test, publication and cleanup in the specified order, killed or not |
| LakeStore.Exporter.CleanupOrphans | src/alphamill/data_bridge/partitions.py:319-344 | collects the referenced paths and unlinks the others, or a part of them when killed |
| LakeStore.Exporter.ExportOne | src/alphamill/data_bridge/exporter.py:149-321 | new disk and outcome are those of the specified export |
| LakeStore.Exporter.ExportAll | src/alphamill/data_bridge/exporter.py:149-321 | exports one after the other form a run in the sense of the theorems on runs |
| Cohort.CompleteInOrder | src/alphamill/experiment_store/population.py:190-209 | when nothing is missing, the registrations are the commitments one for one, in commitment order |
| Cohort.RejectedAreCounted | src/alphamill/experiment_store/population.py:263-263 | the rejected count is the size of the set of members whose promotion is refused |
| RunLog.MovesOn | src/alphamill/evaluation/run_state.py:35-45 | a run moves on until it is registered, which it can be from each of its three ends; it goes back only by the retry of an incomplete one, and can become incomplete until it has ended |
| RunLog.AppendAbandonment | src/alphamill/evaluation/run_state.py:35-47 | the log of a run goes on being one iff what is appended is the abandoning of its incomplete experiment, with a reason |
| RunLog.OneRegistration | src/alphamill/evaluation/canonical_registration.py:47-66 | the log of a run has one registration iff it was not rejected, of its candidate and from its final state |
| RunLog.StateIsTold | src/alphamill/evaluation/canonical_execute.py:53-71 | the log of a run tells its final state, and its candidate unless it was rejected |
| Canonical.RequestSound | src/alphamill/evaluation/canonical_execute.py:53-147 | every batch a run asks to publish is complete, and its events are moves the state machine allows, from created to the state in its manifest, then the registration or the gate's rejection |
| Canonical.Reports.WriteBatch | src/alphamill/evaluation/publisher.py:92-139 | writes all five files, the registration last: a batch that is not finished has none |
| Canonical.Reports.Publish | src/alphamill/evaluation/publisher.py:153-188 | the target appears at once and complete or not at all, exactly when the batch validates and the process lives long enough; an existing one is never changed |
| Canonical.Reports.RegisterMember | src/alphamill/experiment_store/population.py:152-187 | writes the event file once; the same again succeeds, different content is refused |
| Canonical.Reports.Register | src/alphamill/experiment_store/population.py:152-209 | a sound registration keeps the registry valid and registers its candidate only; the registrations stay readable iff the candidate has no other that differs |
| Canonical.Reports.Registrations | src/alphamill/experiment_store/population.py:190-209 | yields the registrations by candidate exactly when no two disagree |
| Canonical.PublishedEventSound | src/alphamill/evaluation/canonical_registration.py:86-103 | the event reused or rebuilt from a published batch is a registration of the batch's experiment from the state its manifest says, of the batch's own candidate unless it was rejected |
| Canonical.Reports.EnsureMemberRegistered | src/alphamill/evaluation/canonical_registration.py:106-155 | registers the member under the published event unless it is registered, exactly if no two registrations disagree, that event file is free and the process lives to write it |
| Canonical.Reports.PublishCandidate | src/alphamill/evaluation/canonical_execute.py:174-215 | publishes the attempt's batch for an experiment that has none |
| Canonical.Reports.ExecuteCanonical | src/alphamill/evaluation/canonical_execute.py:215-229 | publishes, then registers, each exactly if the batch validates and the process lives that long; registered only if published; a candidate registered before without a run then has two registrations that differ |
| Canonical.Reports.OwnExperimentIsRegistrable | src/alphamill/evaluation/canonical_registration.py:106-155 | a published member whose experiment no other commitment shares can be registered |
| Canonical.SharedExperimentBlocks | src/alphamill/evaluation/canonical_registration.py:86-103 | a registration of another candidate under the event of this one's published batch leaves this one unregistrable by a run |
| Canonical.Reports.BlockedHasNoVerdict | src/alphamill/experiment_store/population.py:221-244 | a cohort with a blocked commitment has no verdict and is not complete |
| Canonical.Reports.RunCanonical | src/alphamill/evaluation/canonical.py:103-157 | killed anywhere, targets are complete or absent and no candidate has two registrations by runs; done exactly if `CanFinish` held before, and then published and registered; a run of a published candidate changes no batch, one of a registered one no file; a blocked candidate stays blocked |
| Canonical.Reports.OnlyRunsAgree | src/alphamill/evaluation/canonical.py:103-157 | where nothing was abandoned each candidate has one registration at most, none disagree, and only published candidates are registered |
| Canonical.VerdictOfSound | src/alphamill/experiment_store/population.py:244-266 | the verdict lists the commitments in order with the overrides applied, and its counts agree |
| Canonical.Reports.CompleteIndex | src/alphamill/experiment_store/population.py:212-224 | succeeds exactly when every commitment is registered and no two registrations disagree |
| Canonical.Reports.FinalizeCohort | src/alphamill/experiment_store/population.py:238-280 | done exactly when the cohort is complete, its registrations agree, and the process lives to write the verdict or the written one has the same ruling; the verdict has a member for each commitment in order, which is its registration with the ruling's overrides, and counts those refused; a written verdict never changes |
| Canonical.Reports.FindManifest | src/alphamill/evaluation/canonical_ops.py:59-67 | the experiment's published manifest, else the first that a killed process has left, and it is of that experiment |
| Canonical.AppendedOnce | src/alphamill/evaluation/events.py:172-189 | an event is appended once; one that is there already costs nothing and changes nothing |
| Canonical.AppendedOutlasts | src/alphamill/evaluation/events.py:172-189 | the transition appended to an abandoned batch changes neither what the batch says nor whose its registration event is |
| Canonical.Reports.AbandonExperiment | src/alphamill/evaluation/canonical_ops.py:70-116 | registers the candidate exactly if `CanAbandon` held before, with the transition noted in the directory; the registrations stay readable iff it has no other that differs; it unblocks that candidate and no other |
| Campaigns.UnblockedExactly | src/alphamill/evaluation/canonical_ops.py:84-116 | a blocked candidate can be registered on its own experiment without a run iff the published state is incomplete |
| Campaigns.Campaign | src/alphamill/evaluation/canonical.py:62-157 | over any sequence of killed and repeated runs, finalizations and abandonings: batches, registrations and the verdict stay, finished members are registered, a blocked candidate is unblocked iff one of them registers it without a run, and a cohort whose registrations differ before its verdict never gets one |
| Campaigns.SharedExperimentScenario | src/alphamill/evaluation/canonical_registration.py:106-155 | from an empty registry, two commitments with one experiment and a kill between publish and register block the first until it is registered without a run; on its own experiment that never happens if the evidence is complete, and until then the cohort has no verdict |
| Campaigns.AbandonedAfterItsRun | src/alphamill/evaluation/canonical_ops.py:84-116 | from an empty registry, abandoning after a run that has registered incomplete evidence succeeds and leaves registrations that differ, and no verdict whatever follows |
| Campaigns.AbandonedBeforeItsRun | src/alphamill/evaluation/canonical_ops.py:59-116 | the same with a killed run's leftovers abandoned first and a complete run afterwards |
| Campaigns.CompleteCohort | src/alphamill/experiment_store/population.py:212-224 | from any valid state whose registrations agree, where no two commitments share an experiment, one undisturbed run of each member that is missing and a finalization give the cohort its verdict |
| Dedup.CauchySchwarz | src/alphamill/experiment_store/dedup.py:37-39 | the square of the covariance sum is at most the product of the variance sums |
| Dedup.RhoIsBounded | src/alphamill/experiment_store/dedup.py:30-42 | a correlation that is computed lies between minus one and one |
| Dedup.RhoIsSymmetric | src/alphamill/experiment_store/dedup.py:30-42 | the correlation does not depend on the order of the series |
| Dedup.AffineIsPerfect | src/alphamill/experiment_store/dedup.py:30-42 | a series rescaled by a non-zero slope and shifted is perfectly correlated with the original |
| Dedup.PerfectIsAffine | src/alphamill/experiment_store/dedup.py:30-42 | only such series are perfectly correlated |
| Dedup.RootAgrees | src/alphamill/experiment_store/dedup.py:42-42 | the quotient with the root lies in [-1, 1], has the square used here, and gets the verdict its absolute value asks for |
| Dedup.RhoExactly | src/alphamill/experiment_store/dedup.py:30-42 | a correlation is computed iff the series are equally long, have two points or more and are both not constant, and fails for the first of these that is not met |
| Dedup.MaxRhoExactly | src/alphamill/experiment_store/dedup.py:45-63 | two candidates score iff some series can be compared and each that can has a correlation; the score is the largest of them, and nothing is comparable iff neither can |
| Dedup.CopyScoresOne | src/alphamill/experiment_store/dedup.py:45-63 | the larger absolute correlation of a copy in either series is one whenever it is computed |
| Dedup.DecideIsMaximum | src/alphamill/experiment_store/dedup.py:137-151 | the outcome is the maximum over the comparators that can be scored, attained by the first one that has it, or nothing if none can |
| Dedup.CopyIsRejected | src/alphamill/experiment_store/dedup.py:113-151 | a candidate that copies a comparator it can be scored against is rejected |
| Dedup.KnownExactly | src/alphamill/experiment_store/dedup.py:130-136 | a registry record brings its counterpart unless it is rejected, unknown, or the candidate itself |
| Dedup.RejectedRecordsDoNotCount | src/alphamill/experiment_store/dedup.py:130-136 | records marked rejected change no outcome, wherever they stand |
| Dedup.DecideDedup | src/alphamill/experiment_store/dedup.py:121-151 | the loops decide over the earlier members and the eligible registry records |
| Dedup.ResolveCohortDedup | src/alphamill/experiment_store/dedup.py:154-172 | each member is decided against those committed before it |
| Dedup.EarlierIsStable | src/alphamill/experiment_store/dedup.py:154-172 | appending members of other names never changes an earlier outcome |
| Dedup.LaterCopyIsRejected | src/alphamill/experiment_store/dedup.py:160-172 | a copy of an earlier member of the cohort is rejected |
| TaskDag.ParseChain | tools/check_task_dag.py:105-122 | the edges are exactly the pairs of tasks in neighbouring hops |
| TaskDag.Incoming | tools/check_task_dag.py:149-151 | the dictionary holds exactly the sources of the edges into each task |
| TaskDag.ClosedHoldsPath | tools/check_task_dag.py:154-161 | a set closed under sources that holds a path's end holds its beginning |
| TaskDag.TasksReaching | tools/check_task_dag.py:154-161 | the worklist terminates with exactly the tasks that have a path to the closing task |
| TaskDag.CheckEdges | tools/check_task_dag.py:134-146 | reports exactly the undefined, backward and forbidden edges |
| TaskDag.CheckTasks | tools/check_task_dag.py:125-164 | reports exactly what is wrong with the graph, each error once |
| TaskDag.NoErrorsExactly | tools/check_task_dag.py:125-164 | nothing is wrong iff edges are defined and forward, none enters a parallel task and every task reaches the closing one; the edges are then acyclic |
| Lineage.FromContexts | src/alphamill/experiment_store/experiment_context.py:203-205 | the index holds under each identity the last context that has it |
| Lineage.ValidateSupersedes | src/alphamill/experiment_store/experiment_context.py:219-243 | terminates on every index and accepts exactly the contexts whose target is of their kind and starts a finite chain of published experiments without them; says which of these fails |
| Lineage.NoRepeats | src/alphamill/experiment_store/experiment_context.py:210-216 | a walk that ends comes by nothing twice and never back to its start |
| Lineage.CycleNeverEnds | src/alphamill/experiment_store/experiment_context.py:210-216 | a walk that comes back to its start never ends |
| Lineage.EndsExactly | src/alphamill/experiment_store/experiment_context.py:210-216 | the walk from an experiment ends iff it never comes by anything twice, at the start or further on |
| Lineage.EndsWithinIndex | src/alphamill/experiment_store/experiment_context.py:210-216 | a walk that ends takes no more steps than the index has entries |
| Lineage.TailIntoCycle | src/alphamill/experiment_store/experiment_context.py:210-216 | an index whose walk from one entry never ends although it never comes back to that entry |
| Lineage.LineageOf | src/alphamill/experiment_store/experiment_context.py:210-216 | where nothing repeats, the loop ends with the chain of the walk |
| Lineage.LineageIsSound | src/alphamill/experiment_store/experiment_context.py:210-243 | the lineage of a published experiment that passes is finite, of published experiments, each once and not itself |
| Lineage.LineageIsOfOneKind | src/alphamill/experiment_store/experiment_context.py:229-233 | if every published experiment passes, a whole lineage has one upstream and one cohort |
| Trades.RunWalkForward | src/alphamill/validation/validate_low_frequency_expanded_holdout.py:179-219 | terminates with the windows of the tiles that have enough training rows and some test row |
| Trades.WindowOfExactly | src/alphamill/validation/validate_low_frequency_expanded_holdout.py:190-193 | the training rows of a window are exactly the frame's rows dated from the training length before the split up to it, the test rows exactly those of the tile, each in the frame's order |
| Trades.WindowsExactly | src/alphamill/validation/validate_low_frequency_expanded_holdout.py:194-217 | there is a window for exactly the tiles with a thousand training rows and some test row |
| Trades.TilesAbut | src/alphamill/validation/validate_low_frequency_expanded_holdout.py:188-218 | the test intervals abut from start to end, none longer than a step |
| Trades.TestedOnce | src/alphamill/validation/validate_low_frequency_expanded_holdout.py:188-218 | every instant of the span lies in exactly one test interval |
| Trades.WindowsAreApart | src/alphamill/validation/validate_low_frequency_expanded_holdout.py:191-217 | training rows are dated before the test rows of their window, and no instant is tested twice |
| Trades.GreedyIsApart | src/alphamill/validation/validate_low_frequency_expanded_holdout.py:239-265 | entries of a pair are at least the holding time apart |
| Trades.PassedOverIsCovered | src/alphamill/validation/validate_low_frequency_expanded_holdout.py:244-245 | a dropped signal lies inside the holding time of an entry |
| Trades.GreedyIsMaximum | src/alphamill/validation/validate_low_frequency_expanded_holdout.py:239-265 | no choice of signals that far apart is longer |
| Trades.BookIsSimulation | src/alphamill/validation/validate_low_frequency_expanded_holdout.py:239-265 | going through the signals with one next free instant for each pair makes the greedy choice for each pair, in the order of the signals |
| Trades.SimulateWindow | src/alphamill/validation/validate_low_frequency_expanded_holdout.py:239-265 | the loop over all pairs makes the greedy choice for each pair, in the order of the signals |
| Trades.SimulatePredictions | src/alphamill/validation/validate_low_frequency_expanded_holdout.py:222-266 | every window is simulated over the signals past its own threshold, by date; every trade acts on such a signal: gross is its target, negated for short, net is gross less 0.003, pnl a hundred times net, and the exit is the holding time after the entry at the signal's date |
| Trades.SignalsExactly | src/alphamill/validation/validate_low_frequency_expanded_holdout.py:228-238 | the signals traded are exactly the predictions at or past the quantile of the training predictions on the side traded, by date |
| Trades.BothSidesCostTheFees | src/alphamill/validation/validate_low_frequency_expanded_holdout.py:246-259 | the long and the short trade on one signal cancel in gross and lose both fees in net |
| Trades.FiringExactly | src/alphamill/validation/validate_low_frequency_expanded_holdout.py:233-238 | the signals are exactly the predictions at or past the threshold on the side traded |
| Trades.TradesAreBest | src/alphamill/validation/validate_low_frequency_expanded_holdout.py:222-266 | within a window and pair no trade is entered before the last is over, every signal falls into a trade's time, and no choice of signals that far apart is longer |
| Universe.ApartExactly | src/alphamill/evaluation/universe_ledger.py:63-69 | two intervals pass the comparison iff they share no instant |
| Universe.OneActiveInterval | src/alphamill/evaluation/universe_ledger.py:80-86 | without overlap a pair is active by one interval at most at any instant |
| Universe.NeighboursExactly | src/alphamill/evaluation/universe_ledger.py:279-283 | for sorted intervals of a pair comparing neighbours tells whether any two overlap |
| Universe.OverlapByPair | src/alphamill/evaluation/universe_ledger.py:275-278 | members do not overlap iff those of each pair do not |
| Universe.AssertNoOverlap | src/alphamill/evaluation/universe_ledger.py:273-287 | passes iff no two intervals of one pair overlap |
| Universe.CanonicalIgnoresOrder | src/alphamill/evaluation/universe_ledger.py:141-152 | canonical document and refusal do not depend on the order of the members |
| Universe.CanonicalExactly | src/alphamill/evaluation/universe_ledger.py:141-152 | members are refused iff some interval is none, or else some two of one pair share an instant; otherwise the document has the same members, by pair and text of the beginning |
| Universe.ValidateDocument | src/alphamill/data_bridge/universe/artifact.py:111-163 | accepts exactly documents of proper intervals in strictly ascending key order, and names the first fault of others |
| Universe.BothSidesAgree | src/alphamill/data_bridge/universe/artifact.py:89-108 | what the consumer accepts the publisher builds to the same document, and it validates |
| Universe.UniversesAgree | src/alphamill/data_bridge/universe/artifact.py:60-68 | both implementations read the ledger's universe from its published document at every instant |

## Left out

- SQL, DuckDB, Parquet, exchange and model libraries: maps, sequences and parameters that say what they answer.
- SHA-256, JSON text and UTF-8: collision-free constructors; JSONB values count as already canonical text.
- The clock, the network, log lines, summaries, retries' sleeping times and command lines.
- The lake holds one dataset; dimensions other than the day are one rank, and two pairs that map to one name are not modelled.
- Export admission, quality flags and the symbol map: their digest is the job's metadata number.
- A manifest file that does not parse, and files that change on disk behind the exporter's back, are not part of this model; `Intact` is checked as the original does.
- Row order inside a Parquet file and the staging directory.
- Manifest.SynthesizePartitions: partition and skipped lists are maps and sets, which lose the order the original sorts them into; `Ascending` brings it back where it matters.
- Backfill.Store.FetchSymbol: one exchange pair and one timeframe per store, and times at minute resolution.
- ClaimProtocol.ClaimSafety: the caller's own verdict on the old process is left at its default, a probe of the recorded pid.
- Lifecycle.StepKeepsInv: inference that runs at the same time as an action is left out; it loads outside the lifecycle's lock and can leave a loaded model while stopped.
- Lifecycle.Landing: holds for the courses in `LandsStable` only, because for the others the code does land transitional.
- Freezing and loading a cohort: the commitments are fixed and distinct from the start.
- Canonical.Reports.RunCanonical: the claim is a granted or refused parameter; `Claims` models it.
- Canonical.Reports.AbandonExperiment: a reason is the number of its text, one for all blank ones, and an experiment has one published directory.
- Canonical.Reports.Publish: validation is one outcome per attempt; the contents of report and curves are numbers; other exceptions than a failed validation count as a kill.
- Listing published directories: the original also scans leftover temporary and quarantined ones.
- Dedup.RhoIsBounded: exact arithmetic; square roots and rounding are left out, so a correlation is carried by its square.
- TaskDag.CheckTasks: the rules on verification tasks and their test files are single conditions on text.
- Lineage.LineageOf: is asked to return only where nothing repeats, which is exactly where the walk ends; elsewhere the original does not return either.
- Trades.RunWalkForward: a positive test length, without which the original does not return; fitting is left out, and labels that reach past the split are not purged by the original either.
- Trades.SimulatePredictions: the quantile is a parameter, and signals of one instant keep their order, which the original leaves to its sort.
- Universe.UniversesAgree: timestamps are numbers with the rank of their text; parsing them is left out.
- Cohort statistics, stage models, cost models, capability and promotion tables, configuration parsing and report writers.

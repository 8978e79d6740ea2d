# Models of the repository's schedulers, checkers and protocols

Dafny models of the algorithmic and concurrent parts of the repository, with proofs. `dafny verify dfyconfig.toml` checks everything.

**Weighted test scheduling.** `CoveragePartitions` is the longest-processing-time scheduler as it is written: mutable buckets and an in-place heap of bucket indices. `Partitions` says what a run is without the heap, `ListScheduling` holds Graham's approximation bounds for it, and `PartitionConfig` the include lists and the output tail. Weights are exact reals, negative ones included; only the approximation bounds are about non-negative weights.

**Three-valued type paths.** `TypePaths` is the lookup that answers found, missing or unknown for a schema path against a possibly cyclic graph of type declarations; `depth` counts the stack frames left, and `Overflow` is an exhausted stack. `TypeChecker` is the same lookup on one mutable set of seen keys. `TypeMembership` defines what having a path means and proves soundness, `TypeLimits` covers what is not sound, `TypePrecision` says when the lookup is definite, `TypeSharing` compares the shared set with one set per branch, and `TypeTermination` and `TypeCycles` say when every lookup ends. Soundness and termination are stated for a region of declarations: any set that refers to nothing outside it, for instance all that the configuration type reaches. `SchemaPaths` and `SchemaWalk` cover the text form of paths and the walk that emits it, `SchemaGate` what that walk reports and composes, `PasteClosure` the worklist that collects the declarations to paste.

**Protocols.** In `AsyncJobs`/`JobProtocol` (job queue), `FrameWatchdog`, `StopControl` and `MapConcurrent` a class holds the shared fields with one method for each locked section or stretch between awaits, and a state machine interleaves those sections with the other threads. Runs are arbitrary finite sequences of steps. `DevSupervisor` is one supervised service over arbitrary poll observations.

**Byte framing and reachability.** `ClientBuildRecord` is the length-prefixed artifact digest and the record that is written and checked, `GitBatch` the reader of `git cat-file --batch`, both over `Decimal`. A byte is a character; a path is its UTF-8 bytes. `BenchmarkCandidates` is the dependency worklist.

Assumptions of the protocol models: an executor that was told to shut down rejects submissions, a cancelled future never runs, a waiting shutdown returns after running work drained; job functions return or raise `Exception`; the clock is monotone; an operation of the concurrent mapping fulfils.

Where the code departs from what its comments say:

- `lookupPath` promises never to mis-report a type it cannot see through. It answers `keyof T` and `unique T` as `T`, reports methods and index signatures of literals and interfaces as missing, and looks through a declared type or a namespace that merely has a wrapper's name. `TypeMembership` proves soundness for all other declarations, and `TypeLimits` for each of these says exactly when the answers are still sound and gives an input on which they are not.
- `assignWeightedPartitions` says every partition is non-empty. That holds exactly when there are at least as many files as partitions and at most one partition has to do without a file of non-negative weight. Recorded durations can be negative: all files of negative weight but the first follow it into its partition.
- `mapConcurrent` skips an undefined value and retires the worker that met it, so enough undefined values end the mapping early.
- Schema keys that contain `.` or end in `[]` do not survive the text form of a path.

## Model

| member | source | states |
|---|---|---|
| ListScheduling.ChosenLoadTimesMachines | harness-engine/scripts/coverage-partitions.ts:311-319 | at every placement, the load of the chosen bucket times the number of buckets is at most the total weight placed so far |
| ListScheduling.LoadsSumToTotal | harness-engine/scripts/coverage-partitions.ts:311-319 | the bucket loads add up to the whole weight |
| ListScheduling.ListSchedulingBound | harness-engine/scripts/coverage-partitions.ts:309-319 | placing in any order, each bucket is within 2 - 1/m of the makespan of every other assignment |
| ListScheduling.BigJobsFit | harness-engine/scripts/coverage-partitions.ts:302-319 | when every file exceeds a third of another assignment's makespan, the last greedy placement stays within that makespan |
| ListScheduling.LongestFirstBound | harness-engine/scripts/coverage-partitions.ts:297-320 | placing in descending weight, each bucket is within 4/3 - 1/(3m) of the makespan of every other assignment |
| Partitions.RunIsGreedy | harness-engine/scripts/coverage-partitions.ts:309-319 | extending a lightest bucket, by weight and then file count, is greedy scheduling of the file weights |
| Partitions.PlacementOrder | harness-engine/scripts/coverage-partitions.ts:303-305 | heavier files are placed first and files of equal weight by name, the same for every listing of the files |
| Partitions.LongestFirstIsNearOptimal | harness-engine/scripts/coverage-partitions.ts:297-320 | the heaviest bucket of a run is within 4/3 - 1/(3m) of the heaviest part of any partition of the same files into m parts |
| Partitions.BucketsHoldAllFiles | harness-engine/scripts/coverage-partitions.ts:311-319 | the buckets hold exactly the placed files, with multiplicity |
| Partitions.LoadIsPartitionWeight | harness-engine/scripts/coverage-partitions.ts:374-376 | the sum kept for a bucket is the weight of its files |
| Partitions.EmptyBucketsFillFirst | harness-engine/scripts/coverage-partitions.ts:309-319 | with non-negative weights exactly max(0, partitions - files) buckets stay empty |
| Partitions.RunLeavesEmpty | harness-engine/scripts/coverage-partitions.ts:309-319 | for any weights the number of buckets left empty: files of non-negative weight take one each, the first negative one at most one more |
| Partitions.NoneEmptyIff | harness-engine/scripts/coverage-partitions.ts:295-319 | no partition is empty exactly when there are as many files as partitions and all but one partition can have a file of non-negative weight |
| Partitions.NegativeWeightsLeaveEmptyPartition | harness-engine/scripts/coverage-partitions.ts:228-240 | two files with negative durations leave one of two partitions empty, in every run |
| Partitions.RunMatchesNaiveScan | harness-engine/scripts/coverage-partitions.ts:309-319 | however ties fall, the multiset of (sum, count) pairs is that of the scheduler that scans all buckets for the least |
| CoveragePartitions.RootIsLeast | harness-engine/scripts/coverage-partitions.ts:307-312 | in an ordered heap no bucket is less than the one at the root |
| CoveragePartitions.SiftRound | harness-engine/scripts/coverage-partitions.ts:329-350 | one round either restores heap order or moves the only violation down to the smaller child |
| CoveragePartitions.SmallestAround | harness-engine/scripts/coverage-partitions.ts:330-343 | the scan yields the least of a position and its children that exist |
| CoveragePartitions.SiftDown | harness-engine/scripts/coverage-partitions.ts:323-351 | from one violation the heap becomes ordered, stays a permutation of the bucket indices, and no bucket changes |
| CoveragePartitions.Place | harness-engine/scripts/coverage-partitions.ts:311-318 | one file goes to a lightest bucket, which alone grows by that file and its weight; the heap is ordered again |
| CoveragePartitions.PlaceAll | harness-engine/scripts/coverage-partitions.ts:309-319 | the loop is a lightest-first run and the buckets are its file lists and weights |
| CoveragePartitions.AssignWeightedPartitions | harness-engine/scripts/coverage-partitions.ts:297-320 | fails exactly for files without partitions; otherwise the lists are those of a lightest-first run in descending weight |
| CoveragePartitions.AssignFiles | harness-engine/scripts/coverage-partitions.ts:529-531 | partition weights descend and the first is the heaviest; all files kept, the naive scheduler's sums and counts, within 4/3 - 1/(3m) of every other partition |
| CoveragePartitions.AssertNonEmptyAssignments | harness-engine/scripts/coverage-partitions.ts:486-494 | refuses exactly when a partition is empty, naming the first |
| CoveragePartitions.PlanPartitions | harness-engine/scripts/coverage-partitions.ts:452-453 | for any weights the run goes ahead exactly when there are as many files as partitions and at most one fewer of non-negative weight |
| PartitionConfig.IncludeRespectsProject | harness-engine/scripts/coverage-partitions.ts:388-411 | a project is given exactly the files of its kind, `process-bound` or not, under their portable names |
| PartitionConfig.IncludesConserveInventory | harness-engine/scripts/coverage-partitions.ts:378-411 | over all partitions, every inventory file is in exactly one include list of the two kinds |
| PartitionConfig.TailIsEndOfOutput | harness-engine/scripts/coverage-partitions.ts:650-653 | however output is chunked, the kept tail is the last 65536 characters of all of it |
| TypeMembership.LookupIsSound | harness-engine/scripts/gen-config-catalog.ts:317-403 | on cyclic declarations, with any seen keys, found implies membership and missing implies non-membership, in every membership relation; only declarations in a closed region need be plain |
| TypeMembership.LookupPathIsSound | harness-engine/scripts/gen-config-catalog.ts:309-403 | the same of the whole check from the configuration type, however unresolved types are read |
| TypeMembership.EveryReadingHasMembership | harness-engine/scripts/gen-config-catalog.ts:309-316 | for every reading of the types out of reach there is a membership relation with that reading |
| TypeMembership.OpenNeedsUnknown | harness-engine/scripts/gen-config-catalog.ts:309-316 | where the declarations determine nothing, unknown is the only sound answer |
| TypePrecision.LookupIsExact | harness-engine/scripts/gen-config-catalog.ts:317-403 | on plain declarations, with one set per branch, found and missing are answered exactly where the declarations settle them, on paths of any length |
| TypePrecision.PartsAreExact | harness-engine/scripts/gen-config-catalog.ts:328-375 | bases and intersections settle found by some part and missing by all, unions by agreement |
| TypePrecision.TreeLosesNothing | harness-engine/scripts/gen-config-catalog.ts:322-326 | the shared set costs no answer on a walk that meets no declaration twice with as many steps left |
| TypePrecision.LookupPathIsExact | harness-engine/scripts/gen-config-catalog.ts:317-403 | on such a walk the check from the configuration type answers exactly what the declarations settle |
| TypeLimits.VisibleIsDefinite | harness-engine/scripts/gen-config-catalog.ts:317-403 | a type seen through to a literal, an array, or an interface with a property or without bases is answered found or missing on some one-step path |
| TypeLimits.OperatorSoundIff | harness-engine/scripts/gen-config-catalog.ts:380 | an operator on a plain type that can be seen through is always answered soundly exactly when it is `readonly` |
| TypeLimits.KeyOfIsUnsound | harness-engine/scripts/gen-config-catalog.ts:380 | `keyof { x }` is answered found for x, against a membership relation without it |
| TypeLimits.LiteralSoundIff | harness-engine/scripts/gen-config-catalog.ts:334-346 | a literal is always answered soundly exactly when property signatures declare all its names |
| TypeLimits.InterfaceSoundIff | harness-engine/scripts/gen-config-catalog.ts:347-360 | the same of an interface without bases |
| TypeLimits.HiddenMemberSoundIff | harness-engine/scripts/gen-config-catalog.ts:347-360 | a method or indexed name of an interface is wrongly missed exactly when every base answers missing; below it only an unknown of the bases is sound |
| TypeLimits.QualifiedWrapperSoundIff | harness-engine/scripts/gen-config-catalog.ts:388-398 | a wrapper's name around a plain argument that can be seen through is always answered soundly exactly when it is not a namespace |
| TypeLimits.QualifiedWrapperIsUnsound | harness-engine/scripts/gen-config-catalog.ts:388-398 | `Partial.X<{ x }>` is answered found for x, against a membership relation without it |
| TypeLimits.ShadowedWrapperSoundIff | harness-engine/scripts/gen-config-catalog.ts:391-397 | where a declaration reuses a wrapper's name and its own lookup is definite, the answer is sound exactly when it is unknown or agrees with that lookup |
| TypeLimits.ShadowedWrapperIsUnsound | harness-engine/scripts/gen-config-catalog.ts:391-394 | a declaration named `Partial` is bypassed: found is answered for a member it does not have |
| TypeSharing.LookupWeakens | harness-engine/scripts/gen-config-catalog.ts:322-326 | for seen sets that contain the branch's own, the shared lookup gives the per-branch answer or unknown |
| TypeSharing.SharingOnlyWeakens | harness-engine/scripts/gen-config-catalog.ts:317-403 | whenever the check with one set per branch answers, so does the check, with the same answer or unknown |
| TypeSharing.DiamondWeakens | harness-engine/scripts/gen-config-catalog.ts:322-326 | a diamond of declarations is answered unknown where separate branches find the member |
| TypeTermination.MoreDepth | harness-engine/scripts/gen-config-catalog.ts:317-403 | an answer does not depend on how much stack is left over |
| TypeTermination.Terminates | harness-engine/scripts/gen-config-catalog.ts:322-326 | by unseen declaration keys and node size, some stack depth answers when a potential on declarations pays for every lengthening of the path |
| TypeTermination.LookupPathTerminates | harness-engine/scripts/gen-config-catalog.ts:317-403 | when no cycle that can be reached lengthens the path on balance, every path is answered, the same way at every sufficient depth |
| TypeCycles.NoIndexedCycleSettles | harness-engine/scripts/gen-config-catalog.ts:381-385 | without an indexed access on a cycle there is such a potential |
| TypeCycles.NoIndexedCycleTerminates | harness-engine/scripts/gen-config-catalog.ts:317-403 | so without an indexed access on a cycle every path is answered |
| TypeCycles.SelfIndexedConfigSettles | harness-engine/scripts/gen-config-catalog.ts:381-385 | an interface that indexes itself below a member has an indexed access on a cycle and a potential all the same |
| TypeTermination.SelfIndexingDiverges | harness-engine/scripts/gen-config-catalog.ts:381-385 | `type A = A["x"]` exhausts every stack, on every path |
| TypeChecker.PathChecker.Check | harness-engine/scripts/gen-config-catalog.ts:317-403 | on the mutable seen set, the answer and the resulting set are those of the shared lookup |
| TypeChecker.PathChecker.CheckEach | harness-engine/scripts/gen-config-catalog.ts:349-371 | siblings are answered in order and each sees the keys its predecessors added |
| TypeChecker.LookupSchemaPath | harness-engine/scripts/gen-config-catalog.ts:760 | a check with a fresh set gives the answer of the shared lookup from the configuration type |
| SchemaPaths.ParsePath | harness-engine/scripts/gen-config-catalog.ts:232-245 | the loops compute the steps of the dotted segments |
| SchemaPaths.SegmentsRoundTrip | harness-engine/scripts/gen-config-catalog.ts:232-245 | segments printed and parsed come back exactly when every key is clean |
| SchemaPaths.PathRoundTripIff | harness-engine/scripts/gen-config-catalog.ts:232-245 | a printed path parses to its steps exactly when no key contains `.` or ends in `[]` |
| SchemaPaths.ParsedIsExact | harness-engine/scripts/gen-config-catalog.ts:232-245 | every text parses to the one path of clean keys that prints as it |
| SchemaWalk.SchemaWalker.CollectValuePaths | harness-engine/scripts/gen-config-catalog.ts:432-451 | pushes the nested key paths of a value, in order |
| SchemaWalk.SchemaWalker.Visit | harness-engine/scripts/gen-config-catalog.ts:452-501 | pushes the keys, composed packages and violations of a schema expression, in order |
| SchemaWalk.EmittedLeads | harness-engine/scripts/gen-config-catalog.ts:432-451 | every emitted text prints steps that lead to a nested member node |
| SchemaWalk.LeadingIsEmitted | harness-engine/scripts/gen-config-catalog.ts:432-451 | every nested member node is emitted |
| SchemaWalk.KeysAreMemberPaths | harness-engine/scripts/gen-config-catalog.ts:422-503 | the emitted keys are exactly the printed member paths of the schema |
| SchemaWalk.EmittedKeysRoundTrip | harness-engine/scripts/gen-config-catalog.ts:232-245 | each emitted key parses to the steps of its node exactly when the keys on the way are clean |
| SchemaGate.ReportedIff | harness-engine/scripts/gen-config-catalog.ts:452-501 | each kind of violation is reported exactly when an expression the walk descends to deserves it |
| SchemaGate.NothingReportedIff | harness-engine/scripts/gen-config-catalog.ts:412-501 | nothing is reported exactly when every expression descended to is a plain object literal, an intersection of imported configurations and calls, a union, or a refinement of a call |
| SchemaGate.ComposedIff | harness-engine/scripts/gen-config-catalog.ts:471-480 | the packages composed are exactly the non-relative imports whose `Config` stands in an intersection that is reached |
| PasteClosure.CollectPastes | harness-engine/scripts/gen-config-catalog.ts:663-717 | when nothing is reported, pastes and references are exactly what is reachable and the first paste is the configuration type; every violation is true of the names met, and there is none exactly when each of them means one thing |
| PasteClosure.FinishedCoversMet | harness-engine/scripts/gen-config-catalog.ts:670-715 | with the queue empty and no violation, every item reachable from the configuration type was recorded |
| AsyncJobs.TrimIsExact | backend/app/async_jobs.py:126-139 | a trim removes exactly min(overflow, terminal jobs) jobs, oldest terminal first, never an active one |
| AsyncJobs.TrimBound | backend/app/async_jobs.py:126-139 | after a trim the limit holds or no terminal job is left |
| AsyncJobs.AsyncJobQueue.Admit | backend/app/async_jobs.py:50-55 | while accepting, adds a queued job and trims; otherwise changes nothing |
| AsyncJobs.AsyncJobQueue.Withdraw | backend/app/async_jobs.py:58-63 | afterwards the rejected job is not held, and every other job is kept in its order |
| AsyncJobs.AsyncJobQueue.UpdateJob | backend/app/async_jobs.py:118-124 | the held job of that identifier gets its new status, times and error and keeps the rest; all others are unchanged |
| AsyncJobs.AsyncJobQueue.OnFutureDone | backend/app/async_jobs.py:94-101 | a queued job whose future was cancelled becomes cancelled with its finish time; no other job changes, and exactly this future is forgotten |
| AsyncJobs.AsyncJobQueue.CompleteShutdown | backend/app/async_jobs.py:84-92 | cancels all queued jobs, forgets all futures, trims |
| AsyncJobs.AsyncJobQueue.TrimHistory | backend/app/async_jobs.py:126-139 | the popping loop leaves what a trim leaves |
| JobProtocol.StepKeeps | backend/app/async_jobs.py:42-124 | one step of any thread keeps jobs, futures and executor in agreement and moves jobs legally |
| JobProtocol.RunInvariant | backend/app/async_jobs.py:42-124 | the agreement holds in every state of every interleaving |
| JobProtocol.JobsMoveLegally | backend/app/async_jobs.py:94-124 | a job only moves queued, running, succeeded or failed, or queued to cancelled |
| JobProtocol.OutcomeFollowsFunction | backend/app/async_jobs.py:103-124 | a function that raised leaves its job failed with the error, one that returned leaves it succeeded without one, at the recorded time and for as long as the job is held |
| JobProtocol.AdmissionBoundsHistory | backend/app/async_jobs.py:51-55 | after an admission the history limit holds or all held jobs are queued or running |
| JobProtocol.NothingGetsStuck | backend/app/async_jobs.py:42-124 | while a thread, the executor or a shutdown is under way, a step other than a new job or shutdown is possible |
| JobProtocol.CancelledNeverRuns | backend/app/async_jobs.py:78-116 | the function of a job seen cancelled at any moment is called at no moment |
| JobProtocol.ActiveJobIsHeld | backend/app/async_jobs.py:118-139 | a job that may still run is never forgotten, so a worker's updates find it |
| JobProtocol.ShutdownTerminates | backend/app/async_jobs.py:78-92 | from the return of a shutdown on, every held job is terminal with its finish time and the history limit holds |
| JobProtocol.NothingLeftBehind | backend/app/async_jobs.py:56-67 | when all threads are through, no future is tracked and no rejected job is held |
| FrameWatchdog.Watchdog.Decide | backend/feishu_connector_worker.py:245-260 | leaves iff stopped, sleeps unbounded iff nothing is armed, sleeps to the least deadline if that is still to come, and otherwise fires for the first token with it |
| FrameWatchdog.Watchdog.Arm | backend/feishu_connector_worker.py:218-222 | the token is armed one timeout from now, in its place if it was armed; no other entry changes |
| FrameWatchdog.Watchdog.Disarm | backend/feishu_connector_worker.py:229-236 | says whether the token was armed; afterwards it is not, and every other entry is kept in its order |
| FrameWatchdog.SleepsUntilEarliest | backend/feishu_connector_worker.py:245-257 | no lost wakeup: an un-notified sleeper sleeps to the earliest deadline, forever when none is armed, and never through a stop |
| FrameWatchdog.ArmIsLatest | backend/feishu_connector_worker.py:218-236 | the recorded arm of an armed token is its latest, with no disarm since |
| FrameWatchdog.FiresOnlyOverdue | backend/feishu_connector_worker.py:246-260 | it fires only for a token whose latest arm is at least the timeout old and undisarmed at the decision |
| FrameWatchdog.OverdueIsNotMissed | backend/feishu_connector_worker.py:245-260 | an overdue armed token is not slept through: the thread can wake, and its next pass fires |
| StopControl.ChildControl.AddUnderLock | backend/feishu_connector_worker.py:134-138 | lists the callback exactly while no stop was requested |
| StopControl.ChildControl.TakeUnderLock | backend/feishu_connector_worker.py:180-185 | the first stop takes all listed callbacks; a later one takes none |
| StopControl.ChildControl.ReadCommands | backend/feishu_connector_worker.py:164-192 | reads to the first matching STOP and no further, changing nothing before it |
| StopControl.ExactlyOnePlace | backend/feishu_connector_worker.py:134-192 | in every interleaving a registered callback is listed, pending, late or invoked in exactly one place, and none is invoked before the stop |
| StopControl.InvokedExactlyOnce | backend/feishu_connector_worker.py:134-192 | once the reader and the registering thread are through, the callback was invoked exactly once |
| StopControl.StopTakesEffect | backend/feishu_connector_worker.py:171-187 | a received STOP with matching binding, revision and nonce requests the stop and takes the callbacks listed so far |
| StopControl.StopWasMatching | backend/feishu_connector_worker.py:171-183 | a requested stop goes back to a received message that matches binding, revision and nonce |
| DevSupervisor.Service.Poll | scripts/dev_supervisor.py:195-221 | the fields and the outcome after one poll |
| DevSupervisor.CounterCounts | scripts/dev_supervisor.py:208-221 | the counter is the number of counted failures since the last start or healthy probe, at most 7 between polls |
| DevSupervisor.OutcomeFollowsObservation | scripts/dev_supervisor.py:195-221 | the first poll starts, later ones are decided by exit, restart setting, health URL and probe; starts and healthy probes reset the counter |
| DevSupervisor.HealthRestartIff | scripts/dev_supervisor.py:208-221 | a health restart happens exactly at the eighth consecutive counted failure; a failed probe counts exactly when the service was healthy since its start or its start-up time is over |
| DevSupervisor.FieldsRecordStart | scripts/dev_supervisor.py:118-141 | the deadline is the last start plus the grace period, and health is remembered since that start |
| DevSupervisor.BackoffIsClosedForm | scripts/dev_supervisor.py:199-207 | after k crashes the time slept is min(10,1) + ... + min(10,k), in closed form |
| MapConcurrent.Mapping.Take | harness-engine/scripts/benchmark-next-package-dependency.ts:189-194 | takes the index at the cursor and moves it on; none at the end or for an undefined value |
| MapConcurrent.RunInvariant | harness-engine/scripts/benchmark-next-package-dependency.ts:182-199 | in every interleaving the indices called are those below the cursor with a value, each stored or in flight in one worker |
| MapConcurrent.BoundedAndOnce | harness-engine/scripts/benchmark-next-package-dependency.ts:182-199 | at most `jobs` operations are in flight and no index is called twice |
| MapConcurrent.FinalResults | harness-engine/scripts/benchmark-next-package-dependency.ts:182-199 | on every schedule the final results are the operation's results at exactly the defined indices with fewer than `jobs` undefined values before them |
| MapConcurrent.EveryValueIsMapped | harness-engine/scripts/benchmark-next-package-dependency.ts:182-199 | with at least one job and every value defined, every schedule maps every value |
| MapConcurrent.FullyConcurrent | harness-engine/scripts/benchmark-next-package-dependency.ts:189 | then some schedule has min(jobs, values) operations in flight |
| MapConcurrent.EveryScheduleEnds | harness-engine/scripts/benchmark-next-package-dependency.ts:188-197 | no schedule stalls, and every schedule has at most 3n plus workers steps |
| ClientBuildRecord.DecodeEncode | harness-engine/scripts/client-build-environment.ts:336-343 | the length-prefixed digest input decodes to its entries |
| ClientBuildRecord.EncodedExample | harness-engine/scripts/client-build-environment.ts:339-342 | the bytes hashed for one artifact |
| ClientBuildRecord.SameInputIff | harness-engine/scripts/client-build-environment.ts:329-345 | two listings give the same digest input exactly when the path to content maps are equal, whatever order the files are found in |
| ClientBuildRecord.Root.ClientArtifactDigest | harness-engine/scripts/client-build-environment.ts:329-345 | the loop hashes the encoding of the sorted artifacts and counts them; fails when there are none |
| ClientBuildRecord.ParsesIffWritten | harness-engine/scripts/client-build-environment.ts:347-384 | parsing accepts exactly the JSON forms of valid records and returns the record |
| ClientBuildRecord.Root.WriteClientBuildRecord | harness-engine/scripts/client-build-environment.ts:279-292 | stores the defined `DSH_CLIENT_` variables with their values and the current digest, or leaves the old record |
| ClientBuildRecord.Root.ReadClientBuildRecord | harness-engine/scripts/client-build-environment.ts:300-326 | the record, or the first check that fails |
| ClientBuildRecord.ReadAcceptsIff | harness-engine/scripts/client-build-environment.ts:279-345 | after a write a read returns that record exactly when the expected environment matches and the artifacts are the recorded ones, or the hash collides on the two inputs |
| GitBatch.ReadFrame | harness-engine/scripts/benchmark-npm-resolution.ts:154-166 | the readable frame at the offset, or the reason there is none |
| GitBatch.ReadGitFiles | harness-engine/scripts/benchmark-npm-resolution.ts:151-169 | succeeds with the contents of frames that start the output, or fails after the frames before the failing path |
| GitBatch.FramesAreUnique | harness-engine/scripts/benchmark-npm-resolution.ts:154-167 | an output can be cut into a number of frames in one way only |
| GitBatch.FailureExcludes | harness-engine/scripts/benchmark-npm-resolution.ts:154-165 | where the reading fails no further frame can be read |
| GitBatch.HeaderIsReadable | harness-engine/scripts/benchmark-npm-resolution.ts:156-162 | a header `oid kind size` announces exactly the content's size and is not taken for a missing file |
| GitBatch.AnnouncedIff | harness-engine/scripts/benchmark-npm-resolution.ts:158-161 | a numeral announces its size up to the safe range, a negative one or a missing word none |
| GitBatch.ReadFilesAtRef | harness-engine/scripts/benchmark-npm-resolution.ts:145-169 | succeeds exactly when all paths are at the ref, with each path's exact content and the whole output consumed; otherwise reports the first absent path |
| Decimal.ReadBack | harness-engine/scripts/client-build-environment.ts:339-341 | a printed length is read back whatever non-digit follows |
| BenchmarkCandidates.InstalledIff | harness-engine/scripts/benchmark-next-package-dependency.ts:149-154 | the sorted names are exactly the dependencies, optional dependencies and non-optional peers |
| BenchmarkCandidates.Reach | harness-engine/scripts/benchmark-next-package-dependency.ts:140-158 | the loop ends and has reached exactly the names with a version and manifest that the target installs, directly or not |
| BenchmarkCandidates.DiscoverBenchmarkCandidates | harness-engine/scripts/benchmark-next-package-dependency.ts:134-165 | sorted and each once, exactly the reachable, released names outside the policy whose manifest has a peer other than the framework |

## Left out

- TypeTermination.LookupPathTerminates: the condition is sufficient; a cycle that lengthens the path may still end because a lookup on it fails.
- TypeLimits.ShadowedWrapperSoundIff: where the declaration's own lookup is unknown, nothing is said of the answer.
- TypePrecision.LookupPathIsExact: of a walk that meets a declaration twice with as many steps left, only soundness and the comparison with one set per branch are proved.
- Unions without parts, which the parser does not produce: `LookupIsSound` excludes them.
- Name resolution through imports and re-exports, type parameters of declarations, and declaration merging: a name resolves to at most one declaration by a given map.
- The TypeScript parser: type nodes, schema calls and declarations are given as small syntax trees.
- Folding the keys of composed packages into a schema, member documentation checks, and rendering of the catalog.
- Floating-point rounding of durations and of the sums built from them: weights are exact reals.
- Locale collation and UTF-16 ordering: one fixed lexicographic order on strings stands for every comparison of names.
- UTF-8 decoding of file contents and JSON text: contents are byte sequences, records are JSON values.
- SHA-256: the hash is an arbitrary function, and a collision is named where it matters.
- File globbing, reading and writing: the artifacts are a map and the order they are found in is arbitrary; backslashes in their names are already replaced.
- The executor's worker count: any number of jobs may run at once.
- A submission that fails for a reason other than shutdown, and job functions that raise something other than `Exception`.
- `get`, `list_recent`, and the module-level default queue with its lock.
- Effects after the watchdog's firing decision, the order of emitted messages, and spurious wakeups.
- Exceptions of stop callbacks, and what the process does after its parent is gone.
- Stopping and spawning the supervised process, its log and pid files, and the length of health probes.
- Rejected operations of the concurrent mapping and the measurements made with it.
- Which wording a violation has, beyond its kind and the name it is about.
- Vitest, blob validation, and merging of coverage reports.

# StarPU: verified models

StarPU is a runtime system that schedules tasks on heterogeneous machines. This project models, in Dafny, the parts of it
that are hardest to get right, and proves what they promise for all inputs, all runs and all interleavings.

**Implicit data dependencies** (`ImplicitDeps`, `TaskSubmission`, `DepGraph`, `HandleOrder`, `TaskGraph`, `Coverage`,
`AccessHistory`, `GraphShape`, `SequentialConsistency`, `SequentialExecution`, `DataFlow`, `LostAccess`, `HazardWitness`,
`DepExact`, `Parallelism`, `SyncTasks`, `CleanHandles`).
The application submits tasks one after the other and says in which mode each accesses which data; StarPU builds a dependency
graph from that. `ImplicitDeps` has the code that works on one handle, in place, and `TaskSubmission` the loops over the
buffers of a task at submission and at release. `TaskGraph` is the whole protocol as a state machine: one thread submits
buffer by buffer, while workers start, finish and release jobs in any order that the graph allows. The main results are that
conflicting tasks run in submission order, that every run computes what the sequential execution computes, that the graph
never deadlocks, that two tasks can run at the same time exactly when no chain of conflicts leads from one to the other, and
that released jobs leave nothing behind. What conflicts is stated on the flags that the application gives, not on what the
detection makes of them.

The first of these is false for two kinds of tasks, and both are stated as conditions on the buffers of the task alone.
A task that accesses one handle in two different shared modes in a certain pattern escapes, because the synchronization task
then ignores it. And a buffer for which sequential consistency is asked loses its dependencies when an earlier buffer with the
same handle and mode is exempt, because the scan for duplicates comes before the test of the flag; the documentation promises
a dependency for each buffer whose flag is set. That does no harm only where the other accesses of the task to the handle
conflict with everything that the lost one conflicts with. A task with neither defect is called safe, and being safe is proved
to be exactly when the order of its accesses is kept in every program.

**Atomic read-modify-write loops** (`AtomicRmw`, `AtomicTight`, `AtomicOps`, `AtomicLoop`). The compare-and-swap fallbacks of
`starpu_util.h`, as a protocol of any number of threads and as the loop itself, with linearizability, a bound on the number
of memory accesses that is reached, and what addition and OR make of it. The comment in the source says that OR returns the
old value; the fallback returns the new one, and the model follows the code.

**Worker bitmaps** (`Arith`, `Words`, `WorkerSets`, `Bitmap`). Words are natural numbers below a power of two, with C's
truncating division written out. Every bitmap operation refines an operation on sets. `starpu_bitmap_unset_all` and
`starpu_bitmap_last` do not do what their comments say; the model follows the code and states exactly what they do.

**Performance model dumps** (`RecText`, `RecReader`, `RecMeaning`, `RecWriter`, `RecFields`, `WorkerCounts`, `Platform`,
`PlatformRead`, `RecDump`, `RecOrder`, `RecRoundTrip`, `RecStable`). The rec files of `starpu_perfmodel_recdump`, down to the
characters: `fgets` with its buffer, `strtoul`, the reader with its sticky variables, the two ways of writing, what stands
where in the output, and that the tool understands its own output.

**Schedule check** (`Schedule`) of `starpu_lp2paje`, over the reals, and three smaller pieces: time stamps (`Timespec`),
access modes of tasks (`TaskModes`) and section numbers (`Sections`).

`Wrappers` has the option type, and `Lexicographic` the order in which nested loops go. What enters as a parameter: which performance models can be loaded, the loaded models, the
interference of other threads, the schedule of the workers and the kernels of the tasks.

## Model

| member | source | states |
|---|---|---|
| `ImplicitDeps.ConcurrentByClass` | src/core/dependencies/implicit_data_deps.c:284-296 | the concurrency test relates exactly the accesses of one of three shared classes (commutative writes, reads, reductions); everything else is exclusive |
| `ImplicitDeps.ClassByFlags` | src/core/dependencies/implicit_data_deps.c:218-220 | the three flags that are masked off, and no others, leave the class of a mode as the flags given by the application say: commutative write, only reading, only reducing; and write-only is writing with no other flag but those |
| `HandleOrder.ConflictByFlags` | src/core/dependencies/implicit_data_deps.c:284-296 | on the flags as submitted: two accesses conflict unless both are commutative writes, both only read, or both only reduce |
| `ImplicitDeps.DataHandle.constructor` | src/datawizard/interfaces/data_interface.c:344-348 | a registered handle has no synchronization task, no accessors and read as its last mode |
| `ImplicitDeps.DataHandle.AddAccessor` | src/core/dependencies/implicit_data_deps.c:52-104 | the task joins the accessors and waits for the last synchronization task unless that is itself; nothing else changes |
| `ImplicitDeps.DataHandle.AddSyncTask` | src/core/dependencies/implicit_data_deps.c:107-194 | the two passes over the list leave it empty, and the job waits for exactly the accessors of tasks other than the ignored one |
| `ImplicitDeps.DataHandle.DetectDeps` | src/core/dependencies/implicit_data_deps.c:212-393 | the branches on class, number of accessors and write-only mode produce exactly the state, edges and synchronization task of the specification whose order properties are proved below |
| `ImplicitDeps.DataHandle.ReleaseJob` | src/core/dependencies/implicit_data_deps.c:497-558 | any finished job, task or synchronization task, is no longer the synchronization job afterwards, and its slot leaves the accessors; nobody else is touched |
| `ImplicitDeps.WithoutMembers` | src/core/dependencies/implicit_data_deps.c:519-541 | removing a slot removes that slot and no other |
| `TaskSubmission.FindDuplicate` | src/core/dependencies/implicit_data_deps.c:451-466 | the backward scan finds exactly an earlier buffer with the same handle and mode within the same root |
| `TaskSubmission.DetectBuffer` | src/core/dependencies/implicit_data_deps.c:440-481 | a buffer that is scratch memory, a duplicate or exempt changes nothing; any other one does to its handle and the graph what the detection specifies |
| `TaskSubmission.DetectTask` | src/core/dependencies/implicit_data_deps.c:419-486 | the loop over the buffers of a task leaves handles, graph and synchronization tasks, each submitted once, exactly as the buffer steps of the protocol do, so the theorems about runs hold of it |
| `TaskSubmission.ReleaseTaskData` | src/core/dependencies/implicit_data_deps.c:562-597 | the loop over the buffers of a finished task, with its own duplicate scan, leaves the handles exactly as the release steps of the protocol do |
| `TaskSubmission.ReleasesForget` | src/core/dependencies/implicit_data_deps.c:562-597 | once a task has finished its releases are always possible, change nothing but handles, and leave no handle that names the task as synchronization task or any of its buffers as accessor |
| `CleanHandles.SyncForgotten` | src/core/jobs.c:523-526 | the release of a synchronization task on its handle: the handle does not name it afterwards, and nothing else changes |
| `CleanHandles.NextKeepsNames` | src/core/dependencies/implicit_data_deps.c:497-558 | every step keeps this: a handle names only jobs that have been processed on it and not been released on it since |
| `CleanHandles.NothingLeftBehind` | src/core/dependencies/implicit_data_deps.c:488-496 | for every program and run: once every job has been released on its handles, no handle names any job, and the next task gets no edge from any job but its own synchronization tasks |
| `SyncTasks.SyncTasksEndGroups` | src/core/dependencies/implicit_data_deps.c:311-351 | for every program and run: a synchronization task is created for a buffer only if the two accesses before it on its handle may overlap, it may not overlap with them, and it does more than write; as long as nothing has been released, if and only if |
| `Coverage.RepresentedByFirst` | src/core/dependencies/implicit_data_deps.c:451-475 | an access that the application wants ordered is processed, or has a processed twin before it, if and only if the first buffer of the same handle and mode in its stretch of one root is enabled: the duplicate scan comes before the test of the flag |
| `Coverage.CoverConflicts` | src/core/dependencies/implicit_data_deps.c:451-475 | whatever conflicts with a covered access conflicts with a processed access of the same task to the same handle |
| `Coverage.UncoveredClass` | src/core/dependencies/implicit_data_deps.c:451-475 | an access that is not covered conflicts with some class that no processed access of the task to that handle conflicts with |
| `Coverage.FirstTwinsEnabled` | doc/doxygen/chapters/starpu_extensions/advanced_tasks.doxy:60-68 | a task none of whose wanted buffers comes behind an exempt twin loses no access |
| `LostAccess.LostAccessBreaksOrder` | src/core/dependencies/implicit_data_deps.c:451-475 | for every task that loses an access there is a harmless task after it and a run in which that one starts although the first, whose access conflicts, has not finished |
| `LostAccess.ExemptReadHidesWantedRead` | doc/doxygen/chapters/starpu_extensions/advanced_tasks.doxy:60-68 | concrete instance: a writer, and a task that reads the same handle twice with only the second read to be ordered, starts before the writer has finished |
| `HandleOrder.DetectOrders` | src/core/dependencies/implicit_data_deps.c:212-393 | processing one access keeps the invariant of its handle, and orders it after every earlier conflicting access that has not finished |
| `HandleOrder.ReleaseKeepsInv` | src/core/dependencies/implicit_data_deps.c:497-558 | forgetting a finished job keeps the invariant of the handle |
| `AccessHistory.NextKeepsLog` | src/core/dependencies/implicit_data_deps.c:419-486 | the recorded accesses of a handle are those that the program text prescribes up to the point reached |
| `GraphShape.NextKeepsShape` | src/core/dependencies/implicit_data_deps.c:212-558 | every step of every program keeps the graph well founded: each edge goes from an existing job to a later one |
| `GraphShape.NeverStuck` | src/core/dependencies/implicit_data_deps.c:419-486 | for every program and every run: as long as a launched job has not finished, some job is running or can start, so the detection never creates a deadlock |
| `SequentialConsistency.NextKeepsInv` | src/core/dependencies/implicit_data_deps.c:212-626 | every step (buffer, submission, start, finish, release) keeps the ordering invariant of all handles |
| `SequentialConsistency.ConflictsRunInSubmissionOrder` | doc/doxygen/chapters/starpu_extensions/advanced_tasks.doxy:21-25 | sequential consistency: in every run of every program of safe tasks, when a task has started, every earlier task has finished that conflicts with it in accesses that the application wants ordered |
| `SequentialConsistency.NoConflictingTasksRunTogether` | src/core/dependencies/implicit_data_deps.c:284-296 | in every run of every program of safe tasks, no two tasks run at the same time that conflict in accesses that the application wants ordered |
| `SequentialExecution.ParallelIsSequential` | doc/doxygen/chapters/starpu_extensions/advanced_tasks.doxy:21-25 | for every program of reads and exclusive accesses, every kernel, every initial data and every run: each started task took exactly the inputs of the one-after-the-other execution, and when all tasks have finished the data equals what that execution leaves |
| `DataFlow.InOrderByWriters` | doc/doxygen/chapters/starpu_extensions/advanced_tasks.doxy:21-25 | the sequential execution said by its writers: a handle that nobody has written holds the initial value, any other what the kernel of its last writer makes of exactly the handles that this task reads, as they were before it |
| `DataFlow.RunIsDataFlow` | doc/doxygen/chapters/starpu_extensions/advanced_tasks.doxy:21-25 | for every program of reads and exclusive accesses, every kernel and every run: each started task took exactly the handles it reads, each with what the last earlier writer made of the inputs that one took (or the initial value), and at the end each handle holds what its last writer made |
| `SequentialExecution.StartReadsInOrder` | doc/doxygen/chapters/starpu_extensions/advanced_tasks.doxy:21-25 | a task that starts finds in every handle it reads the value that the sequential execution has there |
| `SequentialExecution.FinishWritesInOrder` | doc/doxygen/chapters/starpu_extensions/advanced_tasks.doxy:21-25 | a task that finishes stores the values of the sequential execution |
| `SequentialExecution.PlainIsSafe` | src/core/dependencies/implicit_data_deps.c:284-296 | tasks of reads and exclusive accesses are safe: they lose no access and never have the hazard |
| `HazardWitness.HazardBreaksOrder` | src/core/dependencies/implicit_data_deps.c:115-130 | for every task with the hazard there are two harmless tasks and a run in which the last one starts although the conflicting middle one has not finished |
| `HazardWitness.SafeTaskIsExact` | src/core/dependencies/implicit_data_deps.c:115-130 | exact condition: the accesses that a task wants ordered are ordered in every program of otherwise safe tasks if and only if it loses none of them and accesses no handle in the hazardous pattern, a condition on its own buffers |
| `HazardWitness.CommuteThenReadHasHazard` | src/core/dependencies/implicit_data_deps.c:346-348 | concrete instance: a commutative write and a read of one handle by one task |
| `DepExact.PathsFollowConflicts` | src/core/dependencies/implicit_data_deps.c:331-334 | for every program and run: a dependency path between two tasks always follows a chain of conflicts between processed accesses in submission order, so nothing is serialized without need |
| `DepExact.GraphIsExact` | src/core/dependencies/implicit_data_deps.c:212-393 | for programs of safe tasks, at every point of every run: a submitted task waits for an unfinished one if and only if a chain of conflicts between accesses that the application wants ordered leads from that one to it |
| `DepExact.NextKeepsExact` | src/core/dependencies/implicit_data_deps.c:212-558 | every step keeps every path justified by a chain of conflicts |
| `Parallelism.IndependentTasksRunTogether` | src/core/dependencies/implicit_data_deps.c:284-303 | for every program: two tasks without a chain of conflicts from one to the other run at the same time in some run |
| `Parallelism.TogetherIsIndependent` | src/core/dependencies/implicit_data_deps.c:212-393 | for programs of safe tasks: two tasks run at the same time in some run if and only if no chain of conflicts in submission order leads from one to the other |
| `Parallelism.TwoTasksOverlap` | src/core/dependencies/implicit_data_deps.c:284-296 | two tasks with one access each to a handle can run at the same time if and only if one uses it as scratch memory or their flags are of one of the three kinds that may overlap |
| `AtomicRmw.StepKeepsLinearized` | include/starpu_util.h:581-593 | every memory access of every thread keeps the word equal to the sequential result of the commits, each commit returning what it installed |
| `AtomicRmw.Linearizable` | include/starpu_util.h:581-619 | for any number of threads, any programs of calls, any expression and any interleaving: the successful swaps are a linearization, also when the word returns to an earlier value |
| `AtomicRmw.RealTimeOrder` | include/starpu_util.h:585-591 | the order of commits never changes once made, so it respects real time |
| `AtomicRmw.StepTakesPotential` | include/starpu_util.h:585-591 | a potential over waiting, live and stale threads decreases at every memory access, failed swaps included |
| `AtomicRmw.BoundedAccesses` | include/starpu_util.h:585-591 | lock-freedom with a bound: the total number of accesses in any run is bounded by the number of threads and of calls |
| `AtomicRmw.BudgetClosedForm` | include/starpu_util.h:585-591 | the bound is c(c+1) for c calls on at least as many threads, and n(2c-n+1) on n threads with more calls |
| `AtomicRmw.OneCallEach` | include/starpu_util.h:585-591 | n threads that make one call each need at most n(n+1) accesses in any interleaving |
| `AtomicTight.BudgetIsReached` | include/starpu_util.h:585-591 | the bound is the best possible: for every program in which each thread makes at least one call, and every call changes the word, some schedule takes exactly that many accesses |
| `AtomicTight.IncrementsReachBound` | include/starpu_util.h:630 | n threads that add one each can need exactly n(n+1) accesses |
| `AtomicRmw.FinishedCommitsAll` | include/starpu_util.h:585-593 | when all threads have returned, each has committed its whole program in order |
| `AtomicLoop.SharedWord.CompareAndSwap` | include/starpu_util.h:459-466 | returns the value seen and stores the new one exactly when that is the expected one |
| `AtomicLoop.SharedWord.ReadModifyWrite` | include/starpu_util.h:581-593 | the retry loop, among any accesses of other threads, is a run of the protocol that ends with its own commit, returns the value just stored, and takes at most one iteration more than there are rounds of interference |
| `AtomicOps.AddIsSumOfCommitted` | include/starpu_util.h:630 | in every run the word is the initial value plus all committed operands modulo the word size, and each call returns its running sum |
| `AtomicOps.AddOutcome` | include/starpu_util.h:630 | when all calls have returned, the word is the initial value plus all operands of all programs, whatever the interleaving |
| `AtomicOps.SumConserved` | include/starpu_util.h:630 | operands still to come plus operands committed are conserved by every run |
| `AtomicOps.IncrementTickets` | include/starpu_util.h:630 | additions of one return pairwise distinct values if and only if there are no more of them than the word has values |
| `AtomicOps.OneNotifierSeesZero` | src/core/dependencies/cg.c:172-188 | when as many notifiers as the counter says each add -1, exactly the last one to commit sees zero, and then no call is in progress any more that could race with the reset |
| `AtomicOps.GroupIsReusable` | src/core/dependencies/cg.c:172-188 | over any number of uses of a group, with the reset by whoever sees zero, the counter is the number of notifiers before each use, and in each use exactly one notifier completes the group |
| `AtomicOps.CounterCountsDown` | src/core/dependencies/cg.c:172-188 | after some of the notifiers, in any interleaving, the counter is the number of those still to come, and the number of all of them when none is |
| `AtomicOps.OrIsUnionOfCommitted` | include/starpu_util.h:659 | in every run a bit of the word is set if and only if it was set initially or in a committed operand |
| `AtomicOps.BitsAreNeverLost` | include/starpu_util.h:659 | once set, a bit stays set in every later state |
| `AtomicOps.OrReturnsOldValueWhenIncluded` | include/starpu_util.h:650-659 | the fallback returns the new value, not the old one that the comment promises: the two agree if and only if the old value already includes the operand |
| `Bitmap.CountBits` | include/starpu_bitmap.h:110-123 | the loop counts exactly the set bits of a word |
| `Bitmap.FirstBitRank` | include/starpu_bitmap.h:208-220 | the loop finds the least set bit |
| `Bitmap.LastBitRank` | include/starpu_bitmap.h:222-234 | with the builtin, the position of the highest set bit plus one |
| `Bitmap.WorkerBitmap.Create` | include/starpu_bitmap.h:125-128 | a new bitmap is the empty set with cardinal 0 |
| `Bitmap.WorkerBitmap.Init` | include/starpu_bitmap.h:130-133 | afterwards the bitmap is the empty set with cardinal 0 |
| `Bitmap.WorkerBitmap.Get` | include/starpu_bitmap.h:179-185 | true exactly for members |
| `Bitmap.WorkerBitmap.Set` | include/starpu_bitmap.h:140-149 | adds the worker; the cardinal grows exactly when it was not a member |
| `Bitmap.WorkerBitmap.Unset` | include/starpu_bitmap.h:150-161 | removes the worker; the cardinal shrinks exactly when it was a member |
| `Bitmap.WorkerBitmap.Union` | include/starpu_bitmap.h:187-196 | becomes the union, with the right cardinal from any previous one, even when it is united with itself |
| `Bitmap.WorkerBitmap.Intersect` | include/starpu_bitmap.h:168-177 | becomes the intersection, with the right cardinal from any previous one, also when it is one or both of the operands |
| `Bitmap.WorkerBitmap.UnsetAll` | include/starpu_bitmap.h:163-166 | for either byte order, clears just the leading bytes that the unparenthesized size macro asks for and keeps the cardinal; a well-formed bitmap stays so if and only if no worker was in those bytes |
| `WorkerSets.UnsetAllEmptiesOneWord` | include/starpu_bitmap.h:40 | for either byte order, unset_all empties every bitmap if and only if there is one word, or a word is a single byte |
| `WorkerSets.LeftByNumber` | include/starpu_bitmap.h:163-166 | which workers unset_all leaves, by their numbers: those from eight times the number of bytes cleared on when the low byte comes first in memory, and the mirror image within each word otherwise |
| `WorkerSets.LeftOfTwoWords` | include/starpu_bitmap.h:163-166 | for two words of eight bytes: workers 72 to 127 stay, or 64 to 119 in the other byte order |
| `WorkerSets.CapacityFits` | include/starpu_bitmap.h:40 | the array has room for the configured number of workers, and less than a word to spare |
| `Bitmap.WorkerBitmap.First` | include/starpu_bitmap.h:236-247 | the least member, or -1 for the empty set |
| `Bitmap.WorkerBitmap.Next` | include/starpu_bitmap.h:277-293 | the least member above e, or -1, for every e from -1 on, with truncating division |
| `Bitmap.WorkerBitmap.HasNext` | include/starpu_bitmap.h:249-260 | true exactly when a member above e exists |
| `Bitmap.WorkerBitmap.Last` | include/starpu_bitmap.h:262-275 | for a well-formed non-empty set, one more than the greatest member; -1 for the empty one |
| `Bitmap.Visit` | src/sched_policies/component_best_implementation.c:79-81 | iterating from first through next visits every member exactly once, in increasing order, in as many visits as the cardinal, and ends |
| `Bitmap.ScansAgree` | include/starpu_bitmap.h:236-293 | next from -1 is first, and has_next agrees with next for every position |
| `Bitmap.CheckBitmap` | include/starpu_bitmap.h:88-105 | for any words and any cached cardinal, returns true if and only if the cardinal is the number of set bits (a negative one counting as zero) |
| `Bitmap.Dispatch` | include/starpu_bitmap.h:125-196 | one call makes of the set of its bitmap what the set operation makes of it, with the right cardinal, also under aliasing |
| `Bitmap.Run` | include/starpu_bitmap.h:125-196 | after every run of init, set, unset, or and unset_and over any number of bitmaps, each bitmap is the set that the same run computes on mathematical sets, and every cardinal is the size |
| `RecText.ReadChunk` | tools/starpu_perfmodel_recdump.c:282-288 | a call of fgets takes characters up to a newline, 1023 of them, or the end of the file |
| `RecText.ChunksOfLines` | tools/starpu_perfmodel_recdump.c:282-288 | lines below 1023 characters are read back one by one |
| `RecText.LongLineFillsBuffer` | tools/starpu_perfmodel_recdump.c:284-288 | the first line that is too long shows up as a full buffer |
| `RecText.FootprintRoundTrip` | tools/starpu_perfmodel_recdump.c:184 | every 32-bit footprint survives `%08x` and `strtoul` in base 16 |
| `RecText.DigitsReadBack` | tools/starpu_perfmodel_recdump.c:332 | hexadecimal digits, however many, are read as the number that they stand for by position, or as the largest one when that does not fit |
| `RecText.OtherForms` | tools/starpu_perfmodel_recdump.c:332 | white space, a plus sign or the prefix 0x in front do not matter, and a minus sign negates in the unsigned type |
| `RecText.HexTextRoundTrip` | src/debug/traces/starpu_fxt.c:269 | every number that fits survives `%lx`, with as many digits as it needs, and `strtoul` in base 16 |
| `RecReader.AddFootprint` | tools/starpu_perfmodel_recdump.c:51-68 | a footprint already in the list leaves it alone, a new one is put in front |
| `RecReader.Reader.EndOfTask` | tools/starpu_perfmodel_recdump.c:290-320 | a blank line files the pending model with the footprint in force, loading the model when it is new, and fails exactly when it cannot be loaded |
| `RecReader.Reader.Line` | tools/starpu_perfmodel_recdump.c:284-338 | one turn of the loop, with all its failures |
| `RecReader.Reader.File` | tools/starpu_perfmodel_recdump.c:272-339 | the loop over the whole file reaches the state, or the first failure, of the specification |
| `RecMeaning.ReadFindsWhatIsWanted` | tools/starpu_perfmodel_recdump.c:272-339 | for every sequence of lines: accepted if and only if every line is good and every model asked for can be loaded; then each model is listed once, each footprint of it once, and a pair is listed if and only if some blank line ends a record whose last Model line and most recent Footprint line (0 if none) are that pair |
| `RecMeaning.LineKeepsMeaning` | tools/starpu_perfmodel_recdump.c:282-339 | what the three variables say about the lines read so far is kept by every line |
| `RecWriter.ReadDigits` | tools/starpu_perfmodel_recdump.c:330-333 | a Footprint line with any number of hexadecimal digits sets the footprint to what they stand for, on 32 bits |
| `RecFields.RecordReadsBack` | tools/starpu_perfmodel_recdump.c:180-192 | the lines of an entry, read as `key: value` pairs, have each value after its own key, in the order of the source, and flops only if they are a number |
| `RecFields.LinesDetermineRecord` | tools/starpu_perfmodel_recdump.c:180-192 | two records with the same lines are the same record |
| `RecWriter.ReadItem` | tools/starpu_perfmodel_recdump.c:180-192 | reading a printed record files exactly its name and footprint, and reading any other printed line changes nothing |
| `RecWriter.WriteThenRead` | tools/starpu_perfmodel_recdump.c:180-339 | round trip by characters: printed output is accepted if and only if no line fills the buffer and every model named can be loaded; then exactly the printed pairs of name and footprint are listed |
| `RecDump.Stem` | tools/starpu_perfmodel_recdump.c:421-425 | the name of the model is what stands before the last dot of the file name, or all of it without a dot |
| `RecDump.DumpAll` | tools/starpu_perfmodel_recdump.c:401-477 | the nested loops over directories, files, combinations and entries print what the specification says, whose order and contents are proved below |
| `RecOrder.DumpInOrder` | tools/starpu_perfmodel_recdump.c:401-477 | a full dump is the header, then every entry of the model of every file of every directory, each exactly once and in the order of directories, files, combinations and entries, with an empty line where there is no implementation, and then the platform |
| `RecDump.DumpSelection` | tools/starpu_perfmodel_recdump.c:342-396 | the nested loops print, for each model and footprint asked for and each combination, the first entry with that footprint |
| `RecOrder.SelectionInOrder` | tools/starpu_perfmodel_recdump.c:342-396 | a selection is the platform, the header, and then, each exactly once and in the order of models, their footprints and combinations, the first entry with the footprint where there is one |
| `RecRoundTrip.DumpThenRead` | tools/starpu_perfmodel_recdump.c:282-477 | a full dump read back lists exactly the pairs of model and footprint for which some file of some directory has an entry; it is accepted if and only if no line is too long and all those models can be loaded |
| `RecRoundTrip.SelectionRecords` | tools/starpu_perfmodel_recdump.c:349-389 | a record is in the selection if and only if its pair is asked for and it is the first entry with its footprint on a combination |
| `RecStable.SelectionIsStable` | tools/starpu_perfmodel_recdump.c:267-398 | for every accepted input: the output is accepted in turn if and only if no line is too long; it asks for those pairs of the input that have an entry; the tool then prints the same records, each as often, with the footprints of each model reversed; and run on that it prints the first output again, character by character |
| `RecStable.CollectSelection` | tools/starpu_perfmodel_recdump.c:51-68 | reading a selection back gives the models with a record, in order, each with its footprints that have one, reversed by the list that grows at its head |
| `RecRoundTrip.NamesRead` | tools/starpu_perfmodel_recdump.c:334-338 | whatever the input, a model name that was read can be loaded and has no newline or null character |
| `WorkerCounts.CountWorkers` | tools/starpu_perfmodel_recdump.c:87-121 | the blocks expand to exactly the workers whose combination is known, in order; no block is empty and no neighbours are equal |
| `WorkerCounts.BlocksUnique` | tools/starpu_perfmodel_recdump.c:87-121 | there is only one such list of blocks |
| `WorkerCounts.PresentIsKnown` | tools/starpu_perfmodel_recdump.c:91-95 | the workers counted are those with a combination that some model knows, each once and in order |
| `Platform.PrintArchs` | tools/starpu_perfmodel_recdump.c:85-163 | the loops print the worker counts, the memory nodes with their workers and the transfer performance of every ordered pair of different nodes |
| `PlatformRead.PlatformReadsBack` | tools/starpu_perfmodel_recdump.c:85-163 | read back as rec records, the document has: the blocks of workers with their counts; for each memory node in order its number, name, size and exactly its workers; and for each ordered pair of different nodes, once each in lexicographic order, their numbers and the bandwidth and latency from the first to the second |
| `PlatformRead.DecimalReadsBack` | tools/starpu_perfmodel_recdump.c:127 | a printed number reads back as itself |
| `Platform.PlatformIsSilent` | tools/starpu_perfmodel_recdump.c:85-163 | every line of the three sections is blank, or has a key that the reader does not know, from names and numbers on one line |
| `Schedule.ReadAssignment` | tools/starpu_lp2paje.c:119-130 | each task is on the last worker whose variable exceeds one half, with its number, or on worker 0 with number 0; times are untouched |
| `Schedule.CheckOverlaps` | tools/starpu_lp2paje.c:144-158 | reports exactly the pairs of tasks on one worker neither of which ends before the other starts, each once and in order |
| `Schedule.ReportIsSharedInstant` | tools/starpu_lp2paje.c:149-156 | for tasks that take time, a pair is reported if and only if the two share an instant |
| `Schedule.ClearFits` | tools/starpu_lp2paje.c:151-152 | pairwise apart tasks within an interval take no longer than the interval |
| `Schedule.SilentWorkerFits` | tools/starpu_lp2paje.c:144-158 | without reports, and with times within 0 and tmax, no worker is busy for longer than tmax |
| `Schedule.WorkConserved` | tools/starpu_lp2paje.c:119-130 | the work of all tasks is the sum of the work of the workers |
| `Schedule.SilentScheduleFits` | tools/starpu_lp2paje.c:144-158 | without reports, all the work is at most nw times tmax |
| `Schedule.OneTaskAtATime` | tools/starpu_lp2paje.c:149-156 | without reports, a worker runs at most one task at any instant |
| `Timespec.Add` | include/starpu_profiling.h:303-315 | nanosecond addition in normal form, whichever operands the result aliases |
| `Timespec.Accumulate` | include/starpu_profiling.h:318-329 | nanosecond accumulation in normal form, also onto itself |
| `Timespec.Sub` | include/starpu_profiling.h:332-344 | nanosecond subtraction in normal form, also for negative results and under aliasing |
| `Timespec.Cell.Clear` | include/starpu_profiling.h:294-298 | zero nanoseconds |
| `Timespec.TotalElapsed` | include/starpu_profiling.h:318-344 | accumulating the differences of consecutive stamps gives exactly last minus first, for any sequence of stamps |
| `Timespec.CmpIsNanosecondOrder` | include/starpu_profiling.h:346-347 | on normal stamps the macro agrees with the order of nanoseconds for all six comparison operators |
| `TaskModes.AppTask.SetMode` | include/starpu_task.h:1678-1693 | get after set returns the mode set if and only if the configuration is not one of the two mismatched ones or the mode was that one before; other buffers keep theirs, and so does the codelet unless the task shares its array; aborts exactly when the codelet has another mode and the task may not have its own |
| `TaskModes.SetIsLost` | include/starpu_task.h:1668-1693 | concrete instance: too many fixed buffers and no task modes, where the mode set is not the one read |
| `Sections.NumberLine` | doc/sectionNumbering.py:47-62 | how a line moves the counters and which labels it produces, and that the script stops with a NameError exactly at a heading whose counter does not exist |
| `Sections.LineFits` | doc/sectionNumbering.py:47-62 | whatever headings a line has, and whatever the counters kept from earlier files, its labels continue the increasing order |
| `Sections.NumberFile` | doc/sectionNumbering.py:42-62 | numbering one file continues the order, gives its headings their labels, and keeps the counters equal to the counts that define them |
| `Sections.NumberManual` | doc/sectionNumbering.py:41-62 | over all files and lines the labels are strictly increasing, and unless the script stops every heading has its label, in the order of files, lines and levels |
| `Sections.ManualSorted` | doc/sectionNumbering.py:41-62 | the places of the labels, by file, line and level, are increasing and so each is used once |
| `Sections.HeadingLabel` | doc/sectionNumbering.py:50-53 | a first-level heading is labelled with the number of its file and its own number within the file, starting at 1 in each file |
| `Sections.LowerHeadingLabel` | doc/sectionNumbering.py:54-60 | the labels of lower headings end with the number of second-level headings since the last first-level one, and of third-level ones since the last second-level one, across files |
| `Lexicographic.IncreasingIsDistinct` | doc/sectionNumbering.py:41-62 | increasing labels are pairwise distinct, so no label occurs twice in the manual |

## Left out

- SequentialExecution.ParallelIsSequential: programs with commutative writes or reductions, whose result depends on an order that the implicit dependencies leave open, and with accesses exempted from sequential consistency; for these the ordering theorems still hold.
- DataFlow.RunIsDataFlow: the same programs as for SequentialExecution.ParallelIsSequential.
- SyncTasks.SyncTasksEndGroups: only one direction once something has been released, since a group whose members were released in time needs no synchronization task.
- SequentialConsistency.ConflictsRunInSubmissionOrder: programs with tasks that are not safe, for which it is false; HazardWitness.SafeTaskIsExact gives the exact condition.
- Implicit dependencies of `starpu_data_acquire` (different tasks before and after) and of reduction tasks, and tasks submitted by several threads at once.
- Ghost dependencies, which only matter while a trace or a bound is recorded, and the read-only and initialization checks, which abort.
- Explicit dependencies, tags, partitioning, data coherency, schedulers and the memory manager.
- TaskSubmission.ReleaseTaskData: the reference counts of handles, which the same function drops afterwards.
- Weak memory: each memory access of the compare-and-swap loops is one atomic step; the assembly versions of the swap itself are taken at their word.
- Bitmap.LastBitRank: the branch for compilers without the builtin, whose loop never iterates.
- Bitmap.WorkerBitmap.HasNext: positions at or beyond the capacity, where the source reads outside the array.
- RecWriter.WriteThenRead: the text of floating-point and size fields is a parameter; it must be on one line.
- RecRoundTrip.DumpThenRead: file and architecture names with a newline or a null character, which would break their own line.
- RecDump.DumpAll: how the directories are found and read; their file names enter as lists.
- RecReader.Reader.File: running out of memory, and what happens after the write before the buffer in the `NamelessModel` case.
- Schedule.ReadAssignment: the checks of `scanf` and of worker numbers, which abort, and the output in Paje format.
- Schedule.SilentScheduleFits: rounding of floating-point numbers.
- Timespec.Add: overflow of seconds.
- TaskModes.AppTask.SetMode: buffers beyond the array that a macro looks at, which the source does not check.
- Sections.NumberLine: the replacement in the text of the line; several headings of one kind on a line share one label in the source.

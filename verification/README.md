# LiteStore in Dafny

LiteStore is a key-value server with TTLs, an append-only log, worker processes and a bounded hot-key
tracker. This project models its stateful core and proves what that core promises, over every input,
every run and every reachable state.

Two layers. Each part that the source updates in place is a **class** whose methods are proved against a
**specification on values** that has none of the machinery: a wheel without buckets, a store without its
second copy of the deadlines, a tracker without a heap, a worker that does one thing at a time. The
promises are then lemmas about those values. A clock reading is a parameter of the operation that makes
it, one parameter per reading, so every theorem quantifies over all readings, in or out of order unless
it says otherwise. Time is an exact real.

| files | what they model |
|---|---|
| Ticks, WheelSpec, TimingWheel, WheelRuns | the bucket scheduler, and runs of it |
| StoreSpec, MemoryStore, Commands, CommandAnswers | the store, its commands and what they answer |
| StoreRuns, StoreLateness, KeyHistory | runs of the store: staleness, exact lateness, never-early |
| Journal, Persistence | the log on disk: numbering, fsync, what a machine stop loses |
| Replay, ReplayLimits, Recovery, RecoveryLimits | what a log means, what a replay of it gives, crash recovery |
| WorkerProtocol, WorkerProcess | callers, queues and worker as a step system; the worker and the pool |
| CrashRecovery, MachineStop, DurableWorker | a worker that crashes between steps; a machine that stops at any instant, write and fsync apart |
| Sharding, ShardingLimits | routing; N stores against one |
| Runtime, RuntimeRecovery | the single-process server and its recovery |
| CountMin, Heap, HeavyHitters, TopK, Metrics | sketch, lazy heap, top-k, histogram |
| Types, Options, Integers, StableSort | shared types, optional values, remainders, stable sorting |

A `hide` statement in a proof keeps a definition folded that the proof does not need; it only makes the
verifier quicker.

## Where the code and its documentation differ

- `README.md:115` promises expiry within one tick, and the comment at `src/timing_wheel.py:27-29` no stale
  key after a cycle. The code can keep an overdue
  key for almost a whole revolution of the wheel: a drain that falls in the deadline's own tick before
  the deadline puts the entry back, and that tick is then never processed again. `WheelRuns.LateExactly`
  is the exact condition for the wheel, `StoreLateness.ExpiredKeyLateExactly` the same for a key from its
  EXPIRE on, `StoreRuns.StalenessBound` the true bound and `StoreRuns.StalenessBoundIsTight`
  the run that comes arbitrarily close to it. The bound needs no limit on the tick length.
- FLUSHALL changes the store but is not logged (`src/process_worker.py:116-125`). Recovery survives it if
  and only if every key it deletes has a TTL (`Recovery.FlushRecoversExactly`); after SET and FLUSHALL the
  key comes back whatever the replay (`RecoveryLimits.FlushedKeyComesBack`).
- The log keeps relative TTLs, so a slow replay can lose a live key to a TTL that a later record replaced.
  Every replay that follows the run in clock order within a given time recovers a key if and only if the
  log's meaning agrees with the store on it and, if it is live, it has since its last SET no TTL that short,
  other than by the log's last record (`Recovery.KeyRecoversExactly`, for any store and log;
  `Recovery.RecoveryExactly` over runs; `ReplayLimits.ReplayFaithfulExactly` for the log alone). Keys
  without a TTL come back at any speed. TTLs are whole seconds, so a replay quicker than one second always
  recovers (`Recovery.QuickReplayRecovers`), and one second can be too long
  (`RecoveryLimits.SlowReplayLosesLiveKey`).
- In the single-process server a write that the storage refuses stays in the store
  (`src/server.py:210-214`). Live store and log then differ on its key until the key is set or deleted
  again; the theorems of Recovery and RuntimeRecovery are about the keys not so spoiled, and
  `Recovery.AllowedSpoilsNothing` says when there are none.
- Under `every_n` a session starts with its counter at zero over whatever an earlier, killed session left
  off disk (`src/persistence.py:33`). A machine stop loses fewer than n records, or none under `always`,
  if and only if no record that the session found in the file is still off disk
  (`Journals.LossBoundExactly`; for acknowledged writes, with the stop at any instant between a write, its
  fsync and its answer, `DurableWorker.StopsWithinExactly`); any number of sessions of one request each, killed before they close,
  have nothing on disk (`Journals.KilledSessionsLoseAll`).
- An fsync that raises leaves the line in the file (`src/persistence.py:42-59`): the write is answered by an
  error and yet in the log, and the next record repeats its number (`Journals.FailedFsyncRepeatsNumber`).
  Over a session the next number is above every record if and only if the last append's fsync did not raise
  (`Journals.NumberingExactly`).
- In multiprocess mode MGET and KEYS answer an array without its values: the worker's response has no field
  for them (`src/types.py:126-135`), and WorkerProtocol.OnWire drops them likewise.
- `flush` replaces a wheel of any parameters by a default one (`src/store.py:147`); the model does the same.
- Sharding is transparent if and only if at every call the same keys fall due in the one store and in the
  shard, apart from a SET of its own key and a TTL that deletes its key as long overdue
  (`Sharding.ShardingRefinesExactly`); so always while nothing falls due
  (`Sharding.ShardingRefinesOneStore`). `ShardingLimits.ShardsCanAnswerDifferently` is a run of four
  single-key commands that a sharded and an unsharded server answer differently.
- `execute` hands a caller whichever reply is first in the queue (`src/worker_pool.py:94-97`). With
  distinct identifiers a caller gets its own if and only if it takes in turn
  (`WorkerProtocol.OwnReplyExactly`); with one call outstanding it always does
  (`WorkerProtocol.OneOutstandingGetsOwn`); `WorkerProtocol.RepliesCanSwap` is a run in which two callers
  get each other's replies.

## Model

| member | source | states |
|---|---|---|
| TimingWheels.TimingWheel.Create | src/timing_wheel.py:32-43 | a wheel is made exactly when both parameters are positive, and starts empty |
| TimingWheels.TimingWheel.TickForTimestamp | src/timing_wheel.py:91-94 | the first timestamp seen fixes the origin; ticks are floors from it |
| TimingWheels.TimingWheel.Schedule | src/timing_wheel.py:45-53 | one entry per key with the new deadline, all others kept, origin moved back if needed; every bucket holds exactly the keys whose tick maps to it |
| TimingWheels.TimingWheel.Cancel | src/timing_wheel.py:55-60 | removes exactly that key, from map and bucket |
| TimingWheels.TimingWheel.RebaseOrigin | src/timing_wheel.py:99-116 | only the origin changes: deadlines and the last processed tick number stay, buckets and ticks are right again |
| TimingWheels.TimingWheel.PopDue | src/timing_wheel.py:62-89 | returns, once each and by deadline, exactly the due entries that some tick in (last, current] visits; keeps all others |
| WheelSpec.SweptExactly | src/timing_wheel.py:69-85 | for an entry less than a revolution behind, the ticks visited reduce to its own tick or the one a revolution later |
| WheelSpec.DrainNotEarlyAndNotMissed | src/timing_wheel.py:27-29 | no drain removes an entry early, and none misses a due entry scheduled ahead of the last processed tick |
| WheelSpec.OverdueSurvivesExactly | src/timing_wheel.py:69-89 | the exact condition under which an overdue entry survives one drain |
| WheelSpec.DrainKeepsWithinRevolution | src/timing_wheel.py:62-89 | after any drain every entry left is less than a revolution behind the last processed tick |
| WheelSpec.ScheduleKeepsWithinRevolution | src/timing_wheel.py:45-53 | scheduling, with or without a rebase, keeps that bound if and only if the new entry meets it |
| WheelSpec.OverdueLessThanRevolution | src/timing_wheel.py:62-89 | what survives a drain is overdue by strictly less than bucket count times tick length |
| WheelSpec.RebaseIsSafe | src/timing_wheel.py:99-116 | a rebase keeps deadlines, makes every tick non-negative, and never moves an entry from ahead of the last processed tick to behind it |
| WheelSpec.FirstTimestampStartsTicks | src/timing_wheel.py:91-94 | the first timestamp a wheel sees, of a drain or of a deadline, is the start of tick zero |
| WheelRuns.AlignedDeadlineNeverLate | src/timing_wheel.py:62-89 | over any run, a deadline on a tick boundary is gone exactly when some drain has reached it, early returns included |
| WheelRuns.LateExactly | src/timing_wheel.py:80-87 | over any run with drains in order, the if-and-only-if for an entry to outlive its deadline |
| MemoryStores.MemoryStore.constructor | src/store.py:19-28 | a new store is empty with a default wheel |
| MemoryStores.MemoryStore.ProcessExpirations | src/store.py:116-130 | removes exactly the due keys from data, deadlines and wheel, and counts them; the two copies of the deadlines agree |
| MemoryStores.MemoryStore.Set | src/store.py:30-34 | the whole new state of a SET; coupling kept |
| MemoryStores.MemoryStore.Get | src/store.py:36-39 | drains, then answers from what is left |
| MemoryStores.MemoryStore.Delete | src/store.py:41-49 | the whole new state and answer of a DEL; coupling kept |
| MemoryStores.MemoryStore.Expire | src/store.py:51-64 | the whole new state and answer of an EXPIRE with its two clock readings; coupling kept |
| MemoryStores.MemoryStore.Ttl | src/store.py:66-80 | the whole new state and answer of a TTL with its three clock readings; coupling kept |
| MemoryStores.MemoryStore.Flush | src/store.py:141-148 | empties everything, installs a default wheel, counts what was live |
| MemoryStores.MemoryStore.ApplyReplayRequest | src/store.py:92-114 | the effect of one logged request, malformed ones included |
| Commands.ExecuteCommand | src/commands.py:9-104 | the response and store of every command, error responses included |
| Commands.GetAll | src/commands.py:70-79 | MGET's lookups are successive, each after its own drain |
| CommandAnswers.ErrorsExactly | src/commands.py:16-97 | a request fails exactly for a wrong number of arguments, or as an EXPIRE for what is no integer, and then changes nothing |
| CommandAnswers.AnswerKinds | src/commands.py:16-97 | what kind of answer each command gives; PING answers PONG and touches nothing |
| CommandAnswers.SetIsRead | src/commands.py:21-79 | after a SET, at any time, GET and MGET answer the value, TTL -1, DEL 1 |
| CommandAnswers.ExpireIsRead | src/commands.py:44-68 | after an EXPIRE, until its end, GET answers a value and TTL the whole seconds left |
| CommandAnswers.DeletedIsGone | src/commands.py:37-68 | after a DEL or a non-positive EXPIRE, GET answers null, TTL -2, DEL 0 |
| CommandAnswers.KeysListsAll | src/commands.py:81-91 | KEYS without a pattern is KEYS with the one that matches everything, and lists every key |
| CommandAnswers.FlushCountsKeys | src/commands.py:81-97 | FLUSHALL answers how many keys KEYS would have listed, and leaves none |
| StoreRuns.StalenessBound | src/store.py:116-130 | over any run with the clock in order, a key readable after an expiration cycle is overdue by less than one revolution |
| StoreRuns.StalenessBoundIsTight | src/timing_wheel.py:80-87 | for any wheel and tolerance, a run that comes that close to the bound |
| StoreRuns.NewStoreStaleness | src/timing_wheel.py:32 | from a new store, flushes included, no key is readable 51.2 seconds after its deadline |
| StoreLateness.StoreLateExactly | src/store.py:36-130 | over any run under a clock in order that leaves a key alone, whether it outlives its deadline, as an if-and-only-if on the clock readings at which the commands drain |
| StoreLateness.ExpiredKeyLateExactly | src/store.py:51-130 | the same from the key's EXPIRE on, in any run from a fresh wheel |
| KeyHistory.StoreFollowsHistory | src/store.py:30-80 | over any run and any clock, a key holds its latest SET value and current deadline until deleted, flushed, given a non-positive TTL, or a reading reaches the deadline; then it stays away until the next SET |
| KeyHistory.AnswersFollowHistory | src/store.py:36-80 | what GET and TTL answer: the value, -2, -1, or the remaining time truncated toward zero; for a key past its deadline, -2 or that same number, which is 0 for less than a second |
| KeyHistory.WriteAnswersFollowHistory | src/commands.py:37-61 | what DEL and EXPIRE answer |
| KeyHistory.ListAnswersFollowHistory | src/commands.py:70-91 | what MGET and KEYS answer about each key |
| Persistence.AofPersistence.constructor | src/persistence.py:20-33 | a session starts numbering above every valid record in the file, with its counter at zero whatever is off disk |
| Persistence.AofPersistence.Append | src/persistence.py:35-52 | any record is appended as one line and the policy's fsync follows; one that raises leaves the line and the counter |
| Persistence.AofPersistence.AppendRequest | src/persistence.py:54-59 | the record is in the log under the next number even if its fsync fails; a success puts the numbering right and keeps the counter within its bound |
| Persistence.AofPersistence.Replay | src/persistence.py:61-73 | yields the valid records in file order |
| Persistence.AofPersistence.ForceFsync | src/persistence.py:75-79 | a machine stop loses nothing |
| Persistence.AofPersistence.Close | src/persistence.py:81-86 | a machine stop then loses nothing if the session had a write off disk and the policy is not NEVER; otherwise as much as before |
| Persistence.AofPersistence.DiscoverNextSequence | src/persistence.py:88-100 | one more than the largest valid sequence number, malformed lines skipped |
| Journals.NextSequenceIsAbove | src/persistence.py:88-100 | that number is above every record, and no larger than needed |
| Journals.SessionsAppendNumbered | src/persistence.py:54-73 | over any number of sessions, replay yields the old records then the new ones, numbered consecutively |
| Journals.SessionSequencesIncrease | src/persistence.py:54-100 | new sequence numbers increase strictly, from above every old one |
| Journals.LinesAreReadApart | src/persistence.py:61-73 | every line is read by itself: a record counts once where it stands, a malformed line takes nothing away |
| Journals.AppendKeepsValid | src/persistence.py:35-59 | every append, its fsync failing or not, keeps the counter and the numbering accounted for |
| Journals.MachineStopLoses | src/persistence.py:33-52 | if the machine stops, the records left are a prefix; at worst it loses what the session found off disk and its own writes since the last fsync, exactly |
| Journals.LossBoundExactly | src/persistence.py:33-52 | over the whole file, nothing is ever lost under ALWAYS and fewer than n records under EVERY_N, if and only if nothing the session found is still off disk |
| Journals.SyncsExactly | src/persistence.py:46-52 | a session syncs at every append under ALWAYS, at every n-th under EVERY_N and at none under NEVER; what is off disk after each |
| Journals.SessionInherits | src/persistence.py:20-33 | a session finds off disk all that the last could have lost, unless that one closed after an unsynced write under a policy other than NEVER |
| Journals.KilledSessionsLoseAll | src/persistence.py:33 | for every n of at least two, any number of killed one-request sessions leave every record off disk |
| Journals.FailedFsyncRepeatsNumber | src/persistence.py:42-58 | after an fsync that failed, the next record has the same number as the one before |
| Journals.NumberingExactly | src/persistence.py:42-59 | over any session, fsyncs failing or not, the next number is above every record if and only if the last append's fsync did not raise |
| Replay.ReplayMirrors | src/store.py:92-114 | at any speed a replay brings back no key and no value that the log does not give, and loses only keys with a TTL |
| ReplayLimits.ReplayFaithfulExactly | src/store.py:92-130 | for any log, every replay within a given time rebuilds its clock-free meaning if and only if each key of it has, since its last SET, no TTL that short, other than by the last record |
| ReplayLimits.LosingReplay | src/store.py:92-130 | for each key that fails that condition, a replay within the time that loses it, from any start on and with the clock in order |
| Recovery.RunMirrors | src/process_worker.py:80-99 | in every reachable state the live store mirrors its log on every key that is not spoiled, through commands, failed appends, FLUSHALL, expirations and restarts at any speed |
| Recovery.AllowedSpoilsNothing | src/server.py:209-214 | no key is spoiled if every write is stored and every key that a FLUSHALL deletes has a TTL |
| Recovery.SpoilsOnlyItsKey | src/server.py:209-214 | apart from FLUSHALL, only a write that is not stored spoils a key, and only its own |
| Recovery.FlushRecoversExactly | src/process_worker.py:116-125 | a replay recovers a FLUSHALL if and only if every key it deleted has a TTL |
| Recovery.RecoverySimulatesLiveStore | src/process_worker.py:52-99 | for every key not spoiled, at any speed: without a TTL it is recovered exactly, an extra key carries a deadline and no recovered deadline is earlier; a live key with a TTL comes back, value and deadline, if its TTLs since its last SET are longer than the replay |
| Recovery.KeyRecoversExactly | src/store.py:92-130 | for any store and any log, every later replay in clock order within a given time recovers a key if and only if the log's meaning agrees with the store on it and, if live, it has since its last SET no TTL that short, other than by the last record |
| Recovery.RecoveryExactly | src/process_worker.py:52-56 | so after any run, a key not spoiled comes back from every such replay if and only if, being live, it has no such TTL |
| Recovery.QuickReplayRecovers | src/process_worker.py:52-56 | a replay quicker than a second recovers every key not spoiled of every reachable store |
| Recovery.LoggedExactly | src/process_worker.py:116-125 | exactly which requests are logged, from request and store: every SET and DEL that takes its arguments, and an EXPIRE that finds its key |
| Recovery.LastWriteDecides | src/process_worker.py:87-99 | for any store, log and replay, a key just set comes back with its value and a key just deleted does not, even one that had lapsed |
| RecoveryLimits.SlowReplayLosesLiveKey | src/store.py:105-111 | a replay one second long can lose a live key |
| RecoveryLimits.FlushedKeyComesBack | src/process_worker.py:116-125 | SET then FLUSHALL: the live store is empty and every replay brings the key back |
| WorkerProtocol.EveryRunIsLinear | src/worker_pool.py:81-106 | under every interleaving, messages are handled one at a time in submission order; store, replies and log are those of the sequential worker |
| WorkerProtocol.QueueConservation | src/worker_pool.py:93-106 | submitted = delivered, waiting replies, in hand, waiting requests, as one sequence at every step |
| WorkerProtocol.OwnReplyExactly | src/worker_pool.py:93-106 | a caller that takes a reply in turn gets its own; with distinct identifiers, only then |
| WorkerProtocol.AllOwnExactly | src/worker_pool.py:93-106 | with distinct identifiers, all callers get their own if and only if replies are taken in submission order |
| WorkerProtocol.OneOutstandingGetsOwn | src/worker_pool.py:93-106 | with one call outstanding at a time, every caller gets its own reply |
| WorkerProtocol.RepliesCanSwap | src/worker_pool.py:93-97 | a run in which two callers get each other's replies, whatever they ask |
| WorkerProtocol.ShutdownAnswersAllBefore | src/process_worker.py:101-105 | everything submitted before the first shutdown is answered, nothing after it |
| WorkerProtocol.AcknowledgedWritesAreLogged | src/process_worker.py:87-99 | each answered write is in the log, in request order, with at most one more that is logged and unanswered |
| WorkerProtocol.SubmitIsAnswered | src/process_worker.py:80-99 | a request is answered, under its identifier, by what the command answers; only an array's values do not get through |
| WorkerProtocol.GetIsAnswered | src/process_worker.py:80-99 | a GET through the queues answers the key's value, or null |
| WorkerProtocol.SnapshotIsAnswered | src/process_worker.py:106-113 | a snapshot is answered by all that is in the store after a drain, under its own identifier or the default one |
| CrashRecovery.CrashLosesOnlyUnanswered | src/process_worker.py:52-99 | a crash between any two steps, then a replay, gives back, but for keys spoiled by a FLUSHALL, the state after a prefix of the history that covers every answered request: keys without a TTL at any speed, and every key that lasts through the replay |
| MachineStop.MachineStopRecoversPrefix | src/persistence.py:35-73 | a machine stop, then a replay, is a restart after a prefix of the history that is short of it by at most the records off disk, and recovers what that prefix had |
| MachineStop.AcknowledgedWritesSurvive | src/process_worker.py:87-99 | a machine stop loses no more acknowledged writes than were off disk, and none if no more was off disk than is not answered yet |
| DurableWorker.StopKeepsAcknowledged | src/persistence.py:35-59 | with nothing found off disk, a stop at any instant, between a write, its fsync and its answer, loses no acknowledged write under ALWAYS and fewer than n under EVERY_N, and after a shutdown nothing |
| DurableWorker.StopsWithinExactly | src/persistence.py:33-59 | over every run and every instant those bounds hold if and only if no record that the session found is still off disk |
| DurableWorker.StopLosesOnlyUnanswered | src/process_worker.py:80-99 | under ALWAYS, a stop at any instant and a replay of what is left give back the state after a prefix of the history that covers every answered request |
| WorkerProcesses.WorkerProcess.constructor | src/process_worker.py:28-50 | a new store, and the log opened with the given policy above its last number |
| WorkerProcesses.WorkerProcess.HandleRequest | src/process_worker.py:80-99 | execute, log a write, reply without an array's values: one step of the sequential worker; numbering and fsync bound of the log kept |
| WorkerProcesses.WorkerProcess.HandleControl | src/process_worker.py:101-113 | shutdown, snapshot and unknown controls as steps of the sequential worker; a shutdown closes the log, so that, if the session found nothing off disk, a machine stop then loses nothing except under NEVER |
| WorkerProcesses.WorkerProcess.ReplayLog | src/process_worker.py:54-56 | the loop over the log leaves the replayed store |
| WorkerProcesses.WorkerProcess.Run | src/process_worker.py:52-78 | the main loop is a run of the sequential worker over the replayed store, taking queue and arrivals in order, one at every wait that finds one, with that wait's clock readings; it stops exactly when it takes a shutdown, and a queued shutdown is reached in as many waits as there are messages; once stopped nothing is off disk |
| WorkerProcesses.ExpirationsKeepUp | src/process_worker.py:58-78 | after every wait, busy or idle, the last expiration cycle is at most a tenth of a second ago, and no two are closer than that |
| WorkerProcesses.WorkerPool.Execute | src/worker_pool.py:81-106 | whatever other callers and the worker do meanwhile, the queues go through the protocol's call and delivery, and the caller gets its own reply if it takes in turn; with distinct identifiers, only then |
| WorkerProcesses.WorkerPool.Receive | src/worker_pool.py:95-97 | taking a reply is the protocol's delivery to that caller |
| WorkerProcesses.WorkerPool.ShutdownAll | src/worker_pool.py:108-111 | every worker's queue gets exactly one shutdown, at its end |
| Sharding.RoutesByHash | src/router.py:21-52 | keys share a worker exactly when their hashes agree modulo the workers; a command on one key goes to that key's worker, every other to the first |
| Sharding.ExecuteIsReplay | src/server.py:218-224 | replaying a logged command by executing it has the effect of the worker process's replay |
| Sharding.ActsOnKey | src/commands.py:9-68 | a single-key command acts on the state it finds its own key in, as a per-key reference says, and otherwise only drops the keys that fall due |
| Sharding.DrainSplitsExactly | src/store.py:116-130 | draining one store and a shard keeps them together if and only if the same keys fall due |
| Sharding.DispatchSplitsExactly | src/router.py:21-52 | one single-key call leaves state and answer the same if and only if the same keys fall due in the one store and the shard, but for a SET's own key and a TTL's long overdue one |
| Sharding.ShardingRefinesExactly | src/router.py:21-52 | over a whole run, N routed stores agree with one store after every call if and only if that holds at every call |
| Sharding.ShardingRefinesOneStore | src/router.py:21-52 | while nothing falls due, N routed stores answer as one store does; their disjoint union is its state; each key lives only in its shard |
| Sharding.NewShardsRefineNewStore | src/server.py:50-71 | the same from new stores |
| Sharding.SharedLogFactorsByShard | src/server.py:218-224 | replaying the shared log through the router equals replaying each shard's part, for any log and any clock |
| ShardingLimits.ShardsCanAnswerDifferently | src/timing_wheel.py:80-87 | with a deadline falling due the refinement can fail |
| Runtime.WorkerExecuteCommand | src/worker.py:40-48 | drain, then execute |
| Runtime.LiteStoreRuntime.constructor | src/server.py:50-71 | one new store for every worker, and the log opened above its last number, synced at every hundredth append |
| Runtime.LiteStoreRuntime.DispatchRequest | src/server.py:200-216 | only the routed shard changes; a write is logged once; a storage error is answered over the changed store, with the write in the log if it was the fsync that failed |
| Runtime.LiteStoreRuntime.ReplayPersistence | src/server.py:218-224 | start-up replay is the routed run of the whole log |
| RuntimeRecovery.RunFactorsByShard | src/server.py:200-224 | over any run with restarts and storage errors, each shard with its part of the shared log goes through the history of a single store |
| RuntimeRecovery.RestartRecoversShard | src/server.py:200-224 | a restart gives each shard back but for its spoiled keys: keys without a TTL at any speed, and every key that lasts through the replay |
| CountMin.CountMinSketch.Increment | src/countmin.py:17-22 | every cell is the number of recorded events that hash to it |
| CountMin.CountMinSketch.EstimateOf | src/countmin.py:24-30 | the least mass over the rows |
| CountMin.RowHoldsEveryEvent | src/countmin.py:17-22 | every row sums to the number of events |
| CountMin.EstimateIsCountPlusCollisions | src/countmin.py:24-30 | the estimate is the true count plus the smallest colliding mass over the rows |
| CountMin.EstimateByHash | src/countmin.py:24-35 | the same in terms of the hash: the recorded events of the key plus the least number of events of other keys whose hashes collide with its own |
| CountMin.ExactByHash | src/countmin.py:24-35 | the estimate is exact if and only if in some row no other recorded key's hash collides |
| CountMin.EstimateGrows | src/countmin.py:17-30 | recording a key raises its own estimate by exactly one and lowers no other |
| HeavyHitters.NoHeavyHitterMissed | src/countmin.py:56-81 | over any history: with room left every recorded key is tracked, otherwise no untracked key outnumbers a reported count; counts lie between truth and estimate |
| HeavyHitters.ExactWithoutCollisions | src/countmin.py:56-89 | if each recorded key's hash has a row without a collision, the result is a true top k with exact counts |
| HeavyHitters.RecordReplacesExactly | src/countmin.py:61-81 | when a record enters the tracked keys and what it replaces: one key, of the least count and first by code points, only by a strictly larger estimate, never on a tie |
| TopK.TopKTracker.Record | src/countmin.py:56-81 | the lazily cleaned heap keeps the same tracked keys as direct search for the least; a key leaves only for a strictly larger estimate; heap sizes |
| TopK.TopKTracker.PeekMin | src/countmin.py:91-98 | the root left is the least over the tracked keys; there is none only if nothing is tracked |
| TopK.PushKeepsTracks | src/countmin.py:61-67 | a new entry is always new, so each tracked key has its current entry in the heap exactly once |
| TopK.CurrentRootIsLeast | src/countmin.py:91-98 | a current root is the least tracked entry |
| TopK.TopKTracker.CompactHeap | src/countmin.py:100-103 | the rebuilt heap holds exactly the tracked entries |
| TopK.TopKTracker.TopItems | src/countmin.py:83-89 | exactly the tracked keys and counts, highest first |
| Heap.StringLessExactly | src/countmin.py:77-81 | ties of counts are broken by the code points of the keys |
| TopK.TrackerMissesNoHeavyHitter | src/countmin.py:41-48 | every reachable tracker has the heavy-hitter property |
| TopK.HeapIsBounded | src/countmin.py:66-67 | the heap never exceeds 4k - 1 entries |
| TopK.ReachHeapBound | src/countmin.py:61-73 | 4k - 1 entries are reached, for every k |
| Metrics.MetricsCollector.constructor | src/metrics.py:27-35 | all counters empty; a hundred hot keys over a sketch of four rows of 2048 |
| Metrics.MetricsCollector.ObserveCommand | src/metrics.py:37-49 | every counter is a count of observations; the first argument is recorded as a hot key |
| Metrics.MetricsCollector.ObserveLatencyBucket | src/metrics.py:136-141 | exactly the first bound that holds the duration is counted, none if it exceeds all |
| Metrics.MetricsCollector.RenderHistogram | src/metrics.py:91-103 | the cumulative value of a bound is the number of observations of the command that took no longer, +Inf counts all |
| Metrics.BoundsAscend | src/metrics.py:25 | eight bounds from a millisecond to five seconds, ascending |
| Metrics.CumulativeNeverDecreases | src/metrics.py:91-103 | cumulative values never decrease and never exceed +Inf |
| Metrics.CommandTotalsAddUp | src/metrics.py:41-44 | per-command totals add up to the overall total |

## Left out

- Floating-point rounding: timestamps, ticks and durations are exact reals.
- Sockets, asyncio, HTTP framing, process start and join, threads and locks: only queue contents and the order of steps are modelled.
- SHA-256, JSON text, UTF-8, `int()` on strings and `fnmatch`: any deterministic functions; the only assumption is that decoding inverts encoding of a log line.
- A torn last line in the log, onto which the next record would be glued: files are sequences of whole lines.
- Text of a failed write that stays in the file's buffer and that a later flush writes: a write that fails leaves nothing behind.
- An append that raises in a worker process: the worker stops before it replies, which is a crash step of WorkerProtocol, so WorkerProcesses.WorkerProcess takes appends to succeed.
- Text of error messages and request identifiers inside single-process responses.
- Order of keys in KEYS, of equal deadlines in a drain and of equal counts in the top k: dictionary and set order is left open.
- A store handed a wheel that already holds entries (`src/store.py:23,28`): MemoryStores.MemoryStore.WithWheel asks for an empty one.
- Changing deadlines through the `expires_at` property, and caller-supplied future times for `process_expirations` in the staleness theorem.
- The server's choice between in-process and multiprocess dispatch: the two are modelled apart, as Runtime.LiteStoreRuntime and as the pool and worker.
- A worker process without a log file: the pool always gives one.
- Cross-shard MGET, KEYS and FLUSHALL: the router sends them to one worker, so no equivalence with one store holds.
- heapq and sorting internals: Heap.Push, Heap.Pop and StableSort.SortBy are implementations of the library contracts, not copies of the library.
- Latency sums, memory by prefix, label escaping and the text of the metrics page; benchmarks, deployment scripts and the text protocol.
- The worker's started flag and in-flight counter (`src/worker.py:27-28,74-76`).
- StoreRuns.StalenessBound: asks that the readings a command skips are also in clock order; they can be taken equal to its last one.
- Recovery.RunMirrors: asks also of readings that are never made (skipped ones, and replay readings past the end of the log) that they are not after `latest`; they can be taken equal to one that is made.

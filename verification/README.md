# ros2_cuda_ipc: a verified model

GPU blocks are shared between one publisher process and any number of subscriber
processes through three words in shared memory: a uid, a reference count and a
publish timestamp. This project models that protocol and the code around it, and
proves what the repository relies on. There are four groups of modules.

* **The block protocol.** `BlockWords` (the three words and what an uninterrupted
  call does to them), `BlockProtocol` (one step is one atomic operation; any number
  of actors; a clock), `BlockInvariants` and `BlockHistory` (conservation,
  exclusivity, the race, generations), `PoolProtocol` (the same under the pool
  mutex: grace period, and no reservation beside a read), `WriteExclusion` (GPU writes,
  the ready event and the stream it is recorded on), `BlockSolo` (a call that nobody
  interrupts does what `BlockWords` says), `BlockWitness` (runs that show which
  hypotheses are needed), `UnserialisedClaims` (which commits the mutex is needed for),
  `CallResults` (a call that comes back with nothing has met its reason),
  `RoundRobin` (the scan of the pool).
* **Ownership in one process.** `Hosts` (a ledger of live resources with a call
  oracle: any acquiring call may fail), `BufferPool` (`GpuBufferPool`), `Publisher`
  and `PublishProgram` (`GpuBufferManager`, `PublishBlock`, and any program that uses
  them; `PublishLedger` says what is owed), `Subscriber` with `ReadLedger`
  (publications, read handles, the deferred-release worker, `BufferMapper::map`, and a
  log of the calls made for each reference with their results),
  `DlpackImage` (`PyDLPackImage`), `Importer` (`VmmFdMemoryImporter`).
* **Caches.** `MetadataCache` (one call against any interference),
  `MetadataCacheRuns` (any number of calls interleaved) and `ImportCache`.
* **Layouts, names, kernels.** `ImageLayout`, `PointCloudLayout`, `ShmNames`,
  `Checksum`.

`LedgerRuns` joins the first two groups: what the ledgers of a process record about a
reference or a reservation is a run of the block protocol.

`Machine` holds integer widths and shared arithmetic. `dafny verify dfyconfig.toml`
checks everything.

Code that changes state is a class whose methods change its fields; its contracts
state the new state, and the invariants they keep are stated over values
(`PublishLedger`, `ReadLedger`, `ImportCache.State`). `PublishProgram.Program.Execute`,
`Subscriber.Process.Execute` and `DlpackImage.Producer.Execute` run any sequence of
operations in any order.

## Where the code does less than its documentation says

`doc/buffer_metadata_protocol.md:181-182` and the test
`ros2_cuda_ipc_core/test/test_buffer_ref.cpp:94-121` promise that a reference for an
old uid never coexists with a new reservation. At the granularity of single atomic
operations this does not hold: an acquire that runs as a whole between the claim
(`buffer_ref.cpp:126`) and the uid store (`buffer_ref.cpp:138`) succeeds with the old
uid. The model follows the code. `BlockInvariants.RaceCharacterised` states exactly
when the promise holds, `BlockWitness.LateAcquireRace` reaches the other case from
every reusable state, and `PoolProtocol.NoGenerationOverwrittenWhileRead` proves the
promise for every acquire whose final check comes within the grace period.

Cancelling a reservation returns its unit without waiting for GPU writes already
enqueued (`gpu_buffer_manager.cpp:98-106`), so the next generation can be published and
read while such a write is still running. `WriteExclusion.WriteBesideReadExactly` says
when: a timely read of a generation can run beside a write if and only if, when
`prepare_publish` records the ready event of that generation, a write is in flight on
another stream. A publisher that uses one stream for a block is therefore safe
(`WriteExclusion.OneStreamExcludesWrites`); with two streams
`WriteExclusion.CancelledWriteOverlapsRead` is a run in which a cancelled write goes on.

The grace period is not kept by `BufferRef` alone either
(`BlockWitness.UnserialisedClaimRace`): a claim can be early for exactly the commits that
are stamped between its own timestamp load and its CAS
(`UnserialisedClaims.GraceKeptExactly`). `PoolProtocol.GracePeriodBeforeClaim` proves it
for reservations and commits made under the pool mutex, with cancellation left
outside it as in the code.

## Assumptions

* Atomic operations interleave sequentially consistently.
* The clock is positive, does not go back and does not wrap. Timestamp 0 means
  unpublished.
* Statements about whole runs of a block hold until the uid overflow branch has run,
  hence for every uid below 2^64 - 1: that branch stores a reference count of 0
  outright. `BlockInvariants.RefcountConservation` says so.
* Whether a driver or system call succeeds is an arbitrary function of its position
  in the run. Calls that only give back something, such as unmapping, succeed.
* GPU work is enqueued only through a handle that is bound and a reservation that is
  owned; what it does in between is not restricted. An event recorded on a stream stands
  for all that was enqueued there before, and a stream that waits for an event starts
  nothing before that work is done.
* `sscanf` behaves as glibc's: `%u` skips white space, takes a sign, and keeps the low
  32 bits of what `strtoul` returns.

## Model

| member | source | states |
|---|---|---|
| BlockInvariants.RefcountConservation | ros2_cuda_ipc_core/src/buffer_metadata/buffer_ref.cpp:29-178 | in every reachable state short of uid overflow the count is the outstanding reservation plus tentative increments plus held references, never wraps, and no underflow branch is reachable |
| BlockInvariants.PublisherExclusivity | ros2_cuda_ipc_core/src/buffer_metadata/buffer_ref.cpp:29-53 | at most one reservation is outstanding, its uid is the shared uid, and the mismatch branch of commit and cancel is never taken |
| BlockInvariants.RaceCharacterised | ros2_cuda_ipc_core/src/buffer_metadata/buffer_ref.cpp:126-177 | let a reference for u be held since its final check at event k: it is overtaken if and only if some reservation was between its claim CAS and its uid store at k; the uid is u, or u + 1 once the very reservation claiming at k has made its store; otherwise it is pinned at u |
| BlockInvariants.HeldOrigin | ros2_cuda_ipc_core/src/buffer_metadata/buffer_ref.cpp:173-177 | every held reference has exactly one event that began its current hold, that event is its final uid check, and the recorded flags are those of the state it ran in |
| BlockInvariants.ClaimLeadsToStore | ros2_cuda_ipc_core/src/buffer_metadata/buffer_ref.cpp:126-138 | from a claim on the uid does not change until that same actor stores the next uid, whatever happens in between |
| BlockHistory.FreshGenerations | ros2_cuda_ipc_core/src/buffer_metadata/buffer_ref.cpp:125-140 | successive reservations and successive commits carry strictly increasing uids, so no (block, uid) is published twice |
| BlockHistory.CancelLeavesNoWait | ros2_cuda_ipc_core/src/buffer_metadata/buffer_ref.cpp:41-52 | in every run the timestamp is 0 from the step that returns a cancelled unit to the next commit stamp, so a cancellation makes no later reservation wait |
| BlockHistory.ReadPinsReference | ros2_cuda_ipc_core/src/subscriber/read_handle.cpp:110-158 | while a GPU read that precedes the completion event is running, no event drops the reference it reads under |
| PoolProtocol.PoolProjects | ros2_cuda_ipc_core/src/publisher/gpu_buffer_pool.cpp:188-209 | every run under the pool mutex is, position by position, a run of the bare protocol, so all block results hold for it |
| PoolProtocol.GracePeriodBeforeClaim | ros2_cuda_ipc_core/src/publisher/gpu_buffer_pool.cpp:188-311 | with reserve and commit under the mutex and cancel outside it, every successful claim comes at least 100000 us after every earlier commit of the block |
| PoolProtocol.TimelyReferenceExcludesReuse | ros2_cuda_ipc_core/src/buffer_metadata/buffer_ref.cpp:111-178 | a reference whose final check, event k, ran within the grace period of the commit of its generation is never overtaken while held: its uid stays current and nobody owns or is making a reservation, but for the last step of the commit that published it |
| PoolProtocol.NoGenerationOverwrittenWhileRead | ros2_cuda_ipc_core/src/buffer_metadata/buffer_ref.cpp:111-178 | end to end: while a guarded read of such a reference is in flight its generation is current, nobody owns or is making a reservation that could write the block, of that generation or another, and no event drops the reference |
| WriteExclusion.NoWriteBesideRead | ros2_cuda_ipc_core/src/subscriber/read_handle.cpp:231-250 | while a guarded read of such a reference executes, no event starts a write, and every write still running, of whatever generation, was in flight on another stream when the ready event of the read's generation was recorded |
| WriteExclusion.WriteBesideReadExactly | ros2_cuda_ipc_core/src/publisher/gpu_buffer_pool.cpp:249-264 | in every reachable state with a publisher about to publish and another actor idle: some continuation has a timely guarded read of that generation executing beside a write if and only if a write is in flight on another stream than the one the ready event is recorded on |
| WriteExclusion.OneStreamExcludesWrites | ros2_cuda_ipc_core/src/publisher/gpu_buffer_manager.cpp:42-71 | if all writes and recordings of the ready event are on one stream no write runs beside such a read, cancelled reservations included |
| WriteExclusion.CancelledWriteOverlapsRead | ros2_cuda_ipc_core/src/publisher/gpu_buffer_manager.cpp:98-106 | with two streams a write of a cancelled reservation runs beside such a read |
| BlockSolo.SoloReserve | ros2_cuda_ipc_core/src/buffer_metadata/buffer_ref.cpp:111-141 | an uninterrupted reservation has exactly the effect and result of `ReserveWords`, refusals and overflow included |
| BlockSolo.SoloRelease | ros2_cuda_ipc_core/src/buffer_metadata/buffer_ref.cpp:143-151 | an uninterrupted commit or cancel has exactly the effect of `ReleaseWords` |
| BlockSolo.SoloAcquire | ros2_cuda_ipc_core/src/buffer_metadata/buffer_ref.cpp:153-178 | an uninterrupted acquire has exactly the effect of `AcquireWords` |
| BlockSolo.CancelAddsNoDelay | ros2_cuda_ipc_core/src/buffer_metadata/buffer_ref.cpp:41-52 | in every reachable state where the reservation is the only unit and the uid is below 2^64 - 1, an uninterrupted cancel can be followed by an uninterrupted reservation at once, at the same clock value |
| CallResults.AcquireFailsForAReason | ros2_cuda_ipc_core/src/buffer_metadata/buffer_ref.cpp:153-178 | in every run an acquire that comes back without a reference has found another uid or a full count at one of its own steps; a lost CAS is no reason |
| CallResults.AcquireSucceeds | ros2_cuda_ipc_core/src/buffer_metadata/buffer_ref.cpp:153-178 | while the uid stays and the count is not full, whatever others do, an acquire can only end with a reference |
| CallResults.AcquireFinishes | ros2_cuda_ipc_core/src/buffer_metadata/buffer_ref.cpp:161-172 | left alone, an acquire in progress ends with a reference within five steps, also after a lost CAS |
| CallResults.FreeBlockIsReserved | ros2_cuda_ipc_core/src/buffer_metadata/buffer_ref.cpp:111-141 | in every reachable state a block that nobody holds, whose commits are all at least 100 ms old and whose uids are not used up is reserved, also without the mutex |
| CallResults.PoolReservesExactly | ros2_cuda_ipc_core/src/publisher/gpu_buffer_pool.cpp:188-209 | under the mutex, in every reachable state, a reservation succeeds if and only if the block is free in that sense |
| CallResults.ReserveFailsForAReason | ros2_cuda_ipc_core/src/buffer_metadata/buffer_ref.cpp:111-141 | in every run a reservation that comes back with nothing has found, at one of its own steps, a reference, the last uid, or a commit less than 100 ms before its clock reading |
| BlockWitness.LateAcquireRace | ros2_cuda_ipc_core/src/buffer_metadata/buffer_ref.cpp:126-138 | from every state with a reusable block, mutex and all, a run leads to a read of the old generation beside a reservation of the next |
| BlockWitness.CommittedBlockBecomesReusable | ros2_cuda_ipc_core/src/buffer_metadata/buffer_ref.cpp:111-151 | such a state is reachable from a fresh block with a committed generation |
| BlockWitness.UnserialisedClaimRace | ros2_cuda_ipc_core/src/buffer_metadata/buffer_ref.cpp:115-128 | without the mutex a block can be claimed at the very moment of its latest commit |
| UnserialisedClaims.OnlyCommitsSinceLoad | ros2_cuda_ipc_core/src/buffer_metadata/buffer_ref.cpp:115-128 | without the mutex, as long as no earlier claim was early, a claim comes a grace period after every commit if and only if it does for those stamped between its timestamp load and its CAS |
| UnserialisedClaims.GraceKeptExactly | ros2_cuda_ipc_core/src/buffer_metadata/buffer_ref.cpp:111-128 | in every run without the mutex all claims keep the grace period if and only if none is early for a commit stamped between its own timestamp load and its CAS |
| RoundRobin.ScanIsNearest | ros2_cuda_ipc_core/src/publisher/gpu_buffer_pool.cpp:195-208 | the scan returns the reusable block nearest to the cursor going round, and none only if none is reusable |
| RoundRobin.PassedOverComesNearer | ros2_cuda_ipc_core/src/publisher/gpu_buffer_pool.cpp:195-203 | a reservation that passes over a reusable block strictly shortens that block's cyclic distance from the cursor |
| RoundRobin.NoStarvation | ros2_cuda_ipc_core/src/publisher/gpu_buffer_pool.cpp:195-208 | a block that stays reusable is chosen within n successive scans, at the latest after its distance from the cursor |
| RoundRobin.CyclicIsRemainder | ros2_cuda_ipc_core/src/publisher/gpu_buffer_pool.cpp:196-202 | the cyclic index of the model is the remainder the code computes |
| Hosts.InitialUid | ros2_cuda_ipc_core/src/buffer_metadata/buffer_metadata.cpp:24-33 | the first uid of an object is the eight random bytes, except that 0 and 2^64 - 1 become 1 |
| Hosts.Host.AllocateBlockId | ros2_cuda_ipc_core/src/publisher/gpu_buffer_pool.cpp:61-71 | ids are issued once each, and refused only when the 32-bit space is used up |
| Hosts.Host.CreateMetadata | ros2_cuda_ipc_core/src/buffer_metadata/buffer_metadata.cpp:59-93 | a new object with fresh words under its name exactly when the name is free and no call fails, and otherwise nothing; an existing name is left alone |
| BufferPool.GpuBufferPool.AllocateAllMemory | ros2_cuda_ipc_core/src/backend/memory_backend.cpp:285-401 | memory for every block exactly when no call fails, or none live at all, for every failing call at every block |
| BufferPool.GpuBufferPool.DestroyMemory | ros2_cuda_ipc_core/src/backend/memory_backend.cpp:403-409 | exactly the resources of the blocks' memories go |
| BufferPool.GpuBufferPool.CreateEvent | ros2_cuda_ipc_core/src/detail/interprocess_event.cpp:22-60 | an event exactly when no call fails, or none live |
| BufferPool.GpuBufferPool.CreateBlockMetadata | ros2_cuda_ipc_core/src/publisher/gpu_buffer_pool.cpp:136-168 | a fresh id and object exactly when an id is left and no call fails, a stale name of an earlier process being replaced; nothing else appears or goes |
| BufferPool.GpuBufferPool.Initialise | ros2_cuda_ipc_core/src/publisher/gpu_buffer_pool.cpp:107-178 | a complete pool with ids never issued before exactly when the arguments are good, the ids suffice and no call fails, or nothing it created is live; bad arguments leave the old pool alone |
| BufferPool.GpuBufferPool.DestroyBlocks | ros2_cuda_ipc_core/src/publisher/gpu_buffer_pool.cpp:361-402 | every name, memory, event and the context of the pool go; only events stay if no context can be made current |
| BufferPool.GpuBufferPool.ReserveForPublish | ros2_cuda_ipc_core/src/publisher/gpu_buffer_pool.cpp:188-209 | reserves exactly the block that the round-robin scan designates and moves the cursor just past it; otherwise nothing changes |
| BufferPool.GpuBufferPool.ReserveUntil | ros2_cuda_ipc_core/src/publisher/gpu_buffer_pool.cpp:188-209 | successive reservations, with the words changed at will in between, reach a block that is reusable each time after at most its cyclic distance from the cursor |
| BufferPool.GpuBufferPool.Commit | ros2_cuda_ipc_core/src/publisher/gpu_buffer_pool.cpp:294-303 | refuses a reservation the pool does not own without touching it, and otherwise commits it |
| BufferPool.GpuBufferPool.Cancel | ros2_cuda_ipc_core/src/publisher/gpu_buffer_pool.cpp:305-311 | cancels also after a reset |
| Publisher.GpuBufferManager.Initialise | ros2_cuda_ipc_core/src/publisher/gpu_buffer_manager.cpp:113-116 | all or nothing: a full pool with pairwise distinct new ids exactly when the arguments are good, the ids suffice and no call fails, or no range, allocation, descriptor, server, context, event or name it created is live |
| Publisher.GpuBufferManager.AcquireForPublish | ros2_cuda_ipc_core/src/publisher/gpu_buffer_manager.cpp:128-137 | a block that owns a new reservation of this pool, exactly when the pool is initialised and one of its blocks is reusable |
| Publisher.PublishBlock.MoveFrom | ros2_cuda_ipc_core/src/publisher/gpu_buffer_manager.cpp:16-34 | the reservation changes owner and the source owns nothing |
| Publisher.PublishBlock.MoveAssign | ros2_cuda_ipc_core/src/publisher/gpu_buffer_manager.cpp:20-34 | the target's own reservation is cancelled first, then the other one moves in; self-assignment changes nothing |
| Publisher.PublishBlock.Cancel | ros2_cuda_ipc_core/src/publisher/gpu_buffer_manager.cpp:98-106 | the unit goes back if the block owned one, and the block owns nothing afterwards, returned or not |
| Publisher.PublishBlock.PreparePublish | ros2_cuda_ipc_core/src/publisher/gpu_buffer_manager.cpp:42-71 | a descriptor exactly when the pool owns the block, the event is recorded, the descriptor is built and the commit succeeds; on a failure no unit is returned |
| PublishLedger.ReserveKeeps | ros2_cuda_ipc_core/src/publisher/gpu_buffer_pool.cpp:188-209 | a new reservation is unlike every earlier one, and the account of owners and counts stays right |
| PublishLedger.ReturnKeeps | ros2_cuda_ipc_core/src/publisher/gpu_buffer_manager.cpp:63-106 | returning an owned reservation always succeeds, and returns exactly its one unit |
| PublishLedger.QuarantineKeeps | ros2_cuda_ipc_core/src/publisher/gpu_buffer_manager.cpp:73-96 | a quarantined reservation keeps its unit |
| PublishLedger.QuarantineIsFinal | ros2_cuda_ipc_core/src/publisher/gpu_buffer_manager.cpp:79-81 | a quarantined block is never reserved again, whatever happens later |
| PublishLedger.MoveKeeps | ros2_cuda_ipc_core/src/publisher/gpu_buffer_manager.cpp:30-34 | a move leaves every outstanding reservation with exactly one owner |
| PublishLedger.NothingOutstanding | ros2_cuda_ipc_core/src/publisher/gpu_buffer_manager.cpp:28-34 | once no block is live no reservation is outstanding |
| LedgerRuns.ReservationIsRun | ros2_cuda_ipc_core/src/publisher/gpu_buffer_manager.cpp:42-106 | from the owner's choice to commit, cancel or quarantine on, whatever others do, the protocol takes that way and no other; at its end the generation is committed if and only if the ledger says so, and the unit is back unless the ledger says it is unreturned |
| PublishProgram.Program.Execute | ros2_cuda_ipc_core/src/publisher/gpu_buffer_manager.cpp:12-137 | in any sequence of operations each reservation is owned by exactly one live block or committed, cancelled or quarantined for good, every count is its readers plus one unit for its unreturned reservation, and no object has two unreturned reservations |
| PublishProgram.Program.ExecuteAndDestroy | ros2_cuda_ipc_core/src/publisher/gpu_buffer_manager.cpp:12-34 | after any sequence of operations and the end of every live block, every reservation ever made is committed, cancelled or quarantined |
| PublishProgram.Program.ExecuteAndPublish | ros2_cuda_ipc_core/src/publisher/gpu_buffer_manager.cpp:42-71 | after any operations without a reset or a new initialisation, any live block whose reservation this pool made, before or meanwhile, can be published: it gets its descriptor and its reservation is committed |
| PublishProgram.Program.AcquireForPublish | ros2_cuda_ipc_core/src/publisher/gpu_buffer_manager.cpp:128-137 | a new outstanding reservation of the current pool exactly when the pool is initialised and a block is reusable |
| PublishProgram.Program.Perform | ros2_cuda_ipc_core/src/publisher/gpu_buffer_manager.cpp:12-137 | what each operation does to owners, ends of reservations and subscribers' references, step by step of a run |
| PublishProgram.Program.ResetAndExecute | ros2_cuda_ipc_core/src/publisher/gpu_buffer_pool.cpp:319-327 | a reservation that is live at a reset is disowned after every later sequence of operations, new initialisations included |
| PublishProgram.Program.Cancel | ros2_cuda_ipc_core/src/publisher/gpu_buffer_manager.cpp:98-106 | what a live block owns becomes cancelled, never quarantined |
| PublishProgram.Program.PreparePublish | ros2_cuda_ipc_core/src/publisher/gpu_buffer_manager.cpp:42-71 | committed, with the reservation's uid in the descriptor, if and only if the reservation was made since the last reset or initialisation and both preparations succeed; quarantined otherwise |
| PublishProgram.Program.Initialise | ros2_cuda_ipc_core/src/publisher/gpu_buffer_pool.cpp:319-327 | no reservation made before a new initialisation is owned by the new pool |
| PublishProgram.Program.Reset | ros2_cuda_ipc_core/src/publisher/gpu_buffer_pool.cpp:319-327 | no reservation is owned after a reset |
| ReadLedger.ExactlyOnePlace | ros2_cuda_ipc_core/src/subscriber/read_handle.cpp:298-440 | every acquired reference is in exactly one of publication, handle, queue, worker's hands, retained items and released ones |
| ReadLedger.ReleasedAfterCompletion | ros2_cuda_ipc_core/src/subscriber/read_handle.cpp:110-158 | in the log of calls a released bound reference with a completion event was released once, after a successful record and then a successful synchronise, and no call for it failed |
| ReadLedger.FailedIsRetained | ros2_cuda_ipc_core/src/subscriber/read_handle.cpp:120-358 | a reference for which any push, record or synchronise failed is retained |
| ReadLedger.ReleasedInOrder | ros2_cuda_ipc_core/src/subscriber/read_handle.cpp:110-118 | the queue items that have been released are a subsequence of those enqueued, in that order |
| ReadLedger.ReleaseKeepsCount | ros2_cuda_ipc_core/src/buffer_metadata/buffer_ref.cpp:76-88 | releasing a reference that has not been released takes its own unit back and does not underflow |
| ReadLedger.AcquireKeepsCount | ros2_cuda_ipc_core/src/buffer_metadata/buffer_ref.cpp:153-178 | an acquired reference adds exactly one unit |
| ReadLedger.MoveKeepsCount | ros2_cuda_ipc_core/src/subscriber/read_handle.cpp:361-376 | moving a reference changes no count |
| LedgerRuns.ReferenceIsRun | ros2_cuda_ipc_core/src/subscriber/read_handle.cpp:110-158 | from an acquisition in any state that satisfies the protocol's invariant, the owner's steps for the calls logged for a reference, interleaved with all other actors, end where the ledger says the reference is, with its unit unless it is released |
| LedgerRuns.RecordedRunExists | ros2_cuda_ipc_core/src/subscriber/read_handle.cpp:298-358 | for every record of the ledger there is such a run |
| Subscriber.Process.AcquirePublication | ros2_cuda_ipc_core/src/subscriber/buffer_mapper.cpp:30-88 | a publication that owns one new reference, or no net change to any count at each point of failure |
| Subscriber.Process.MakeBound | ros2_cuda_ipc_core/src/subscriber/read_handle.cpp:409-440 | succeeds exactly when the stream is valid, a completion event is created where there is a context, and the wait for the ready event is enqueued; moves everything into a handle or leaves the publication untouched |
| Subscriber.Process.Map | ros2_cuda_ipc_core/src/subscriber/buffer_mapper.cpp:103-121 | a handle and one more unit, or no net change to any count, with the exact condition for each |
| Subscriber.Process.ReleaseHandle | ros2_cuda_ipc_core/src/subscriber/read_handle.cpp:298-358 | without completion event the reference is dropped at once; with one it is queued if recording worked and retained if not |
| Subscriber.Process.MoveAssignHandle | ros2_cuda_ipc_core/src/subscriber/read_handle.cpp:371-376 | the target's reference is dropped, queued or retained with the counts changed exactly as its own destructor would have it, then the other handle moves in |
| Subscriber.Process.MoveAssignPublication | ros2_cuda_ipc_core/src/subscriber/read_handle.cpp:270-271 | the target's reference is dropped and the other publication moves in |
| Subscriber.Process.Take | ros2_cuda_ipc_core/src/subscriber/read_handle.cpp:110-118 | the worker takes the oldest item |
| Subscriber.Process.Finish | ros2_cuda_ipc_core/src/subscriber/read_handle.cpp:120-157 | the item is dropped after a successful wait and retained after a failed one |
| Subscriber.Process.Run | ros2_cuda_ipc_core/src/subscriber/read_handle.cpp:110-158 | the queue is emptied in order of enqueueing, and the released and the retained items are exactly those whose own wait succeeded or failed |
| Subscriber.Process.Perform | ros2_cuda_ipc_core/src/subscriber/read_handle.cpp:65-440 | what each operation does to publications, handles, queue and worker, step by step of a run |
| Subscriber.Process.Execute | ros2_cuda_ipc_core/src/subscriber/read_handle.cpp:65-440 | in any sequence of operations, with other processes changing the counts in between, references stay in one place, the calls logged for each are exactly those its place allows (released after a successful record and synchronise, retained after a failure), released and retained ones stay so, and every count is exact |
| DlpackImage.Producer.Dlpack | ros2_cuda_ipc_py/src/native_module.cpp:449-528 | a capsule exactly when available, given a stream, exportable and bound; any failure leaves the image as it was, with the error kind of the first failing check |
| DlpackImage.Producer.Close | ros2_cuda_ipc_py/src/native_module.cpp:530-534 | releases the publication's reference once |
| DlpackImage.Producer.Execute | ros2_cuda_ipc_py/src/native_module.cpp:412-548 | whatever is called, at most one capsule is handed out, none after a close, and a used image never changes again |
| MetadataCache.BufferMetadataCache.GetOrAttach | ros2_cuda_ipc_core/src/subscriber/buffer_metadata_cache.cpp:17-56 | table and result are those of `Outcome`, for every world at each of the four reads and every change of the table between the critical sections |
| MetadataCache.ReturnedHadUid | ros2_cuda_ipc_core/src/subscriber/buffer_metadata_cache.cpp:25-52 | a returned object has carried the name and had the expected uid when it was checked; the table keeps holding only objects that carried their names |
| MetadataCache.NoneMeansDirectFails | ros2_cuda_ipc_core/src/subscriber/buffer_metadata_cache.cpp:37-40 | nothing is returned if and only if the table does not help and attaching and checking directly fails, and then no entry is added or changed |
| MetadataCache.EntryIsResult | ros2_cuda_ipc_core/src/subscriber/buffer_metadata_cache.cpp:17-56 | afterwards the table has the returned object under the name, or nothing under it if nothing was returned; other names are as the call found them |
| MetadataCache.AgreesWithDirect | ros2_cuda_ipc_core/src/subscriber/buffer_metadata_cache.cpp:17-56 | if uids never coincide across objects of one name, whenever direct lookup succeeds the cache returns the same object, also across publisher restarts |
| MetadataCache.AgreesExactly | ros2_cuda_ipc_core/src/subscriber/buffer_metadata_cache.cpp:17-56 | without that hypothesis: cache and direct lookup agree if and only if no table consulted offers another object with the same uid |
| MetadataCache.CoincidingUidMisleads | ros2_cuda_ipc_core/src/subscriber/buffer_metadata_cache.cpp:22-32 | two objects of one name with the same uid do mislead the cache |
| MetadataCacheRuns.ReturnsTheOnlyObject | ros2_cuda_ipc_core/src/subscriber/buffer_metadata_cache.cpp:17-65 | in every run of any number of interleaved calls, clears and changes of the world, what a call returned carried the name and showed the uid, and if uids distinguish the objects of the name it is the object any direct lookup in the run finds |
| MetadataCacheRuns.InvStep | ros2_cuda_ipc_core/src/subscriber/buffer_metadata_cache.cpp:17-65 | every critical section, attach, check and clear keeps the table to objects that carried their names, which is what one call relies on others for |
| MetadataCacheRuns.CallIsOutcome | ros2_cuda_ipc_core/src/subscriber/buffer_metadata_cache.cpp:17-56 | one thread's steps among those of others end with the result of `Outcome` for the worlds it read and the table it found |
| ImportCache.ApplyKeeps | ros2_cuda_ipc_core/src/subscriber/ipc_handle_cache.cpp:43-116 | each critical section and each drop keeps the account: released once if nothing holds the resource, never otherwise |
| ImportCache.ReleasedExactlyOnce | ros2_cuda_ipc_core/src/subscriber/ipc_handle_cache.cpp:43-116 | in every run of interleaved find, insert, copy, drop and clear each resource is released exactly once, precisely when neither the cache nor an owner holds it |
| ImportCache.FirstWriterWins | ros2_cuda_ipc_core/src/subscriber/ipc_handle_cache.cpp:92-101 | between clears every insertion and lookup of a key returns what the first insertion returned |
| ImportCache.HandedOutIsHeld | ros2_cuda_ipc_core/src/subscriber/ipc_handle_cache.cpp:43-105 | in every run what an event hands to its caller has been imported, is held by that caller and has not been released |
| ImportCache.OwnersExactly | ros2_cuda_ipc_core/src/subscriber/ipc_handle_cache.cpp:43-116 | holders outside the cache come only with what is handed out or copied, and go one by one |
| ImportCache.IpcHandleCache.Find | ros2_cuda_ipc_core/src/subscriber/ipc_handle_cache.cpp:43-50 | the cached resource with one more holder exactly when the key is cached, and nothing otherwise |
| ImportCache.IpcHandleCache.InsertOrDiscardDuplicate | ros2_cuda_ipc_core/src/subscriber/ipc_handle_cache.cpp:52-105 | the first resource of the key is returned, and a duplicate is released before the call returns |
| ImportCache.IpcHandleCache.Clear | ros2_cuda_ipc_core/src/subscriber/ipc_handle_cache.cpp:107-116 | the cache is empty and exactly the resources in it that nobody else holds have been released |
| Importer.Import | ros2_cuda_ipc_core/src/backend/memory_importer.cpp:109-236 | context, allocation, range and event exactly when the path fits and no call fails, or the ledger as found, whichever call fails; the received descriptor is closed in every case |
| Importer.RequestFd | ros2_cuda_ipc_core/src/backend/memory_importer.cpp:35-105 | a descriptor exactly when the path fits and no call fails, or nothing; the socket is closed on every path |
| Importer.Release | ros2_cuda_ipc_core/src/backend/memory_importer.cpp:238-280 | exactly what a release gives back, and its result |
| Importer.ReleasesEverything | ros2_cuda_ipc_core/src/backend/memory_importer.cpp:238-280 | a release gives back everything if and only if the context can be made current and the mapping is not empty |
| Importer.LeftBehind | ros2_cuda_ipc_core/src/backend/memory_importer.cpp:238-280 | what a release leaves: all but the context if that cannot be made current, the range of an empty mapping, and nothing otherwise |
| Importer.ImportAndRelease | ros2_cuda_ipc_core/src/backend/memory_importer.cpp:109-280 | an import followed by its release restores the ledger |
| Importer.AlignUpExact | ros2_cuda_ipc_core/src/backend/memory_importer.cpp:24-33 | the result is the least multiple of the granularity that holds the value if and only if that multiple is below 2^64 |
| Importer.SizesAgree | ros2_cuda_ipc_core/src/backend/memory_backend.cpp:31-40 | publisher and subscriber map the same size for every block that fits |
| ImageLayout.NeededIsExact | ros2_cuda_ipc_image/src/image_read_handle.cpp:54-59 | the 128-bit sum never wraps: it is the end of the last element |
| ImageLayout.SanityCheckExact | ros2_cuda_ipc_image/src/image_read_handle.cpp:49-62 | the check passes if and only if the image is readable, not empty and of a known dtype, and every in-shape element lies inside the buffer |
| ImageLayout.ExportableIsSane | ros2_cuda_ipc_py/src/native_module.cpp:200-217 | every layout the tensor projection accepts passes the image check |
| ImageLayout.ExportableExactly | ros2_cuda_ipc_py/include/ros2_cuda_ipc_py/dlpack/image_tensor_descriptor.hpp:52-98 | exportable means: non-null address, known element size, byte strides that are 63-bit numbers of elements, all elements inside the buffer, neighbours along each dimension apart, no address wrap |
| ImageLayout.ElemSizes | ros2_cuda_ipc_image/src/image_read_handle.cpp:31-47 | the size of each dtype, in both tables |
| ImageLayout.ProjectToTensor | ros2_cuda_ipc_py/include/ros2_cuda_ipc_py/dlpack/image_tensor_descriptor.hpp:52-98 | accepts exactly the exportable layouts, and returns shape, element strides and bits |
| ImageLayout.TensorAddressesImage | ros2_cuda_ipc_py/include/ros2_cuda_ipc_py/dlpack/image_tensor_descriptor.hpp:64-96 | each index has the same byte offset under element strides as under byte strides, inside the buffer and without pointer wrap |
| PointCloudLayout.FromMessage | ros2_cuda_ipc_pointcloud2/src/pointcloud2_read_handle.cpp:30-71 | accepts exactly the clouds of `Accepts`; no arithmetic wraps |
| PointCloudLayout.AcceptsExactly | ros2_cuda_ipc_pointcloud2/src/pointcloud2_read_handle.cpp:30-71 | a cloud with points is accepted if and only if every point lies in its row and in the buffer and every element of every field lies in its point |
| PointCloudLayout.ElementSizes | ros2_cuda_ipc_pointcloud2/src/pointcloud2_read_handle.cpp:45-61 | the size of each field datatype |
| PointCloudLayout.ElementsInside | ros2_cuda_ipc_pointcloud2/src/pointcloud2_read_handle.cpp:30-71 | every element of every field of every point of an accepted cloud is inside the buffer and inside its point |
| PointCloudLayout.PointsDisjoint | ros2_cuda_ipc_pointcloud2/src/pointcloud2_read_handle.cpp:30-45 | the byte ranges of distinct points do not meet |
| PointCloudLayout.CloudEndExact | ros2_cuda_ipc_pointcloud2/src/pointcloud2_read_handle.cpp:30-45 | the size check passes if and only if every point is inside |
| ShmNames.NameRoundTrip | ros2_cuda_ipc_core/src/publisher/gpu_buffer_pool.cpp:76-88 | parsing a printed name recovers pid and block id, for all 32-bit ids and nonzero pids |
| ShmNames.NamesInjective | ros2_cuda_ipc_core/src/buffer_metadata/buffer_metadata.cpp:37-41 | distinct blocks have distinct names |
| ShmNames.AcceptedExactly | ros2_cuda_ipc_core/src/publisher/gpu_buffer_pool.cpp:79-83 | the sweep considers exactly the entries made of the prefix, a numeral that is not 0, an underscore and a numeral with nothing after it |
| ShmNames.AcceptedEndsInDigit | ros2_cuda_ipc_core/src/publisher/gpu_buffer_pool.cpp:79-83 | an entry with anything but a digit at its end is left alone |
| ShmNames.ConvertExactly | ros2_cuda_ipc_core/src/publisher/gpu_buffer_pool.cpp:79-83 | a numeral is taken modulo 2^32, negated if signed, and saturates beyond 64 bits |
| ShmNames.Sweep | ros2_cuda_ipc_core/src/publisher/gpu_buffer_pool.cpp:73-97 | unlinks exactly the entries whose parsed pid is not running; among printed names exactly those of dead processes |
| Checksum.GridCoversExactly | examples/multi_process_image_fanout/src/cuda/kernels.cu:210-224 | the 32-bit grid covers all elements if and only if the computation neither truncates nor wraps |
| Checksum.GridExactly | examples/multi_process_image_fanout/src/cuda/kernels.cu:210-224 | the grid is the least one for the low 32 bits of the count, or empty if rounding up wraps |
| Checksum.ChecksumScheduleIndependent | examples/multi_process_image_fanout/src/cuda/kernels.cu:90-101 | each index is visited once, and the result is the sequential weighted sum modulo 2^64 under any order of the additions |
| Checksum.Launch | examples/multi_process_image_fanout/src/cuda/kernels.cu:210-224 | the accumulator ends at that sum |
| Checksum.SequentialChecksum | examples/multi_process_image_fanout/test/test_kernels.cpp:56-63 | the sequential loop computes the same sum |
| Checksum.WeightCycle | examples/multi_process_image_fanout/src/cuda/kernels.cu:98-100 | weights count from 1 to 251 and start again |
| Checksum.OneByteDetected | examples/multi_process_image_fanout/src/cuda/kernels.cu:98-100 | a change of any single byte changes the checksum |
| Checksum.SwapDetected | examples/multi_process_image_fanout/src/cuda/kernels.cu:98-100 | exchanging two different bytes of different weights changes the checksum |

## Left out

- The CUDA driver, shared memory, sockets and descriptor passing themselves: each call is an oracle with an effect on the ledger. Stream validation and context stacks are booleans.
- Weak memory orders of the atomics.
- Failure to lock the pool mutex, which makes the calls concerned return early.
- Out-of-memory and exception paths: a queue push or a shared pointer that cannot be allocated, and a DLPack capsule that cannot be created.
- Handles whose resource has no context: they have no completion event, so the read theorem does not speak of them. `Importer.Import` never produces one.
- Subscriber crashes, which leave their references behind by design, and a reused pid whose random uid base collides.
- Several managers in one process: `PublishProgram` has one manager with any number of blocks; block ids come from the process-wide counter.
- The name-length branch of `initialise`: no printed name is that long.
- BufferPool.GpuBufferPool.Initialise: sizes are not part of the pool's ledger. A byte size whose aligned size does not fit 64 bits is excluded by `Importer.SizesAgree`.
- Hosts.Host.AcquireReference: one uninterrupted call; the retry loop and the second uid check under interference are in `BlockProtocol`.
- Subscriber.Process.Interfere: other processes may change the words in any way, which is more than they can do.
- PublishProgram.Program.Execute: subscribers act in whole calls there; their single steps are in `BlockProtocol`.
- Hash functions, logging, JSON status, launch files, ROS nodes, the Python wrappers around the modelled classes, OpenCV compression, the other kernels and the proof-of-concept programs.

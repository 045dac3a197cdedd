# A verified model of atomic-sim

atomic-sim runs LLVM IR under a relaxed memory model. Every simulated thread is decoded into a
queue of thunks (dataflow nodes with operands and, for memory accesses, an address and an
ordering), and a scheduler resolves the thunks out of order. This project models the parts of the
simulator that make its results right, in Dafny, and proves what they promise.

`dafny verify dfyconfig.toml` checks everything.

## What is modelled

* **The out-of-order engine.** `Engine.dfy` has thunks, the pass of one thread over its queue and
  the scheduler's choice as functions on values; a run is any interleaving of decoding, passes and
  resolved operations. `EngineRuns.dfy` turns runs into lists of single resolutions and says what
  the pending set and the barriers enforce for each of them. On these lists rest release safety,
  the acquire barrier, coherence and synchronisation (`EngineOrder.dfy`), refinement of in-order
  execution (`EngineRefine.dfy`), independence of the schedule even when the decoder waits for
  branch values (`EngineSchedule.dfy`), message passing (`EngineMessage.dfy`), atomic updates and
  compare-exchanges of many threads (`EngineSerial.dfy`), critical sections and the data that a lock
  word protects (`EngineMutex.dfy`) and progress (`EngineProgress.dfy`). `EngineHolders.dfy` and
  `EngineExact.dfy` say exactly when some run resolves an operation ahead of an earlier one, and
  `EngineLimits.dfy` has the programs for which stronger statements fail. `EngineReach.dfy` is the
  other side of the barriers, what a pass must not hold back, and `EngineEffects.dfy` says on bytes
  and operands what each resolved thunk does and returns. `DataFlow.dfy` and
  `Process.dfy` are the mutable queue and scheduler with their loops; they are proved against the
  functions, up to running a whole program.
* **Memory.** `RangeMap.dfy` is the interval map keyed by interval ends, `Memory.dfy` the byte store
  with its write history and its allocator.
* **Mutexes, condition variables and the pthread wrapper.** `Mutex.dfy` has the hand-off queues,
  `Pthread.dfy` the protocol with the lock word in simulated memory (POSIX.1-2017,
  `pthread_mutex_lock`, `pthread_cond_wait`), `Calls.dfy` what whole calls leave behind, `Sections.dfy` the order in which tasks take and free
  that word, and `Deadlock.dfy` standstills, with `pthread_join` and returning tasks.
* **The trampoline** of recursive futures, `Recursor.dfy`.
* **Values and layouts.** `Layout.dfy`, `Bits.dfy`, `Class.dfy`, and the reference-counted
  `FreeList.dfy`.

Memory orderings are those of the LLVM Language Reference, section "Atomic Memory Ordering
Constraints".

## Where the code falls short of what one would expect

The model keeps the code as it is. These are lemmas with concrete programs or exact conditions.

* An aliased access is skipped without becoming pending (src/data.rs:301-305). With three
  partially overlapping accesses a load misses an earlier store of its own thread, whatever the
  orderings of the two, as long as neither is a Release (`EngineLimits.PartialOverlap`).
* For the same reason an acquire that an earlier access aliases holds nothing back
  (`EngineLimits.AcquireOvertaken`).
* `AcqRel` and `SeqCst` operations do not wait for earlier operations
  (`EngineLimits.StrongIsNoRelease`).
* `EngineExact.OvertakenExactly` is the condition behind these three: some run resolves an operation
  ahead of an earlier thunk of its thread if and only if there is an atomic access that is no acquire
  and that the operation does not touch: the earlier thunk itself, or an access before it that it
  touches. The operation has constant operands like the rest of the program, is no Release (which
  never gets past anything, `EngineOrder.ReleaseSafety`) and touches no earlier Release, and is
  atomic or stands behind no plain access. The three programs are in this class, except for the one
  of partial overlap when its second store and its load are both plain: there such an access is
  enough, but not the only way. A plain operation also gets past a plain access, in the one pass that
  resolves both (`EngineLimits.PlainPasses`); an atomic one does not (`EngineLimits.PlainStops`).
  Next to earlier Releases the access is still necessary (`EngineHolders.PassedHolder`) but no longer
  enough: an operation that touches a Release waits for everything before that
  (`EngineLimits.ReleaseStops`). Behind atomic accesses without Releases the condition is that the
  earlier access does not block the operation in the sense of `EngineOrder.WaitsInRun`
  (`EngineExact.OvertakenUnlessBlocked`).
* The assertion at src/process.rs:122 can fail, because an offered operation may still wait for an
  operand (`EngineLimits.ChoiceMayFail`). It holds exactly for the operations whose operands are
  Ready, and always for the first (`EngineLimits.ChoiceSteps`); runs choose among these.
* The assertion at src/process.rs:112 fails when the tasks that are left wait for each other, as a
  task does that locks a mutex twice (`Deadlocks.LocksTwice`). No task can take a step if and only if
  each has returned or waits for a mutex, a notification or another task (`Deadlocks.StuckExact`).
  Then the assertion fails if and only if some task waits for a notification, or for a mutex with
  which another one has returned, or tasks wait in a circle (`Deadlocks.DeadlockExact`), and a circle
  lasts in every continuation, whatever the others do (`Deadlocks.CycleForever`).
* `pthread_cond_signal` and `pthread_cond_broadcast` without the mutex wake a waiter that does not
  own it (src/util/mutex.rs:62-69), although POSIX allows such calls. Some continuation fails an
  assertion if and only if the mutex of a woken waiter is not locked (`Pthreads.SignalExact`,
  `Pthreads.BroadcastExact`); `Pthreads.SignalWithoutLock` is a whole run.
* `erase` with a range that ends before it starts leaves two overlapping intervals if and only if
  some interval has the range inside (`RangeMaps.ReversedExact`); only other callers than `insert`
  can do so (src/util/rangemap.rs:20-41).
* Array types are indexed by the unpadded element size although their layout is padded
  (src/compile/class.rs:168-173 makes a vector class). The second of two 24-bit integers is looked
  for at bit 24 of 64 instead of 32 (`Classes.ArrayMisses`); indexing and layout agree past the first
  element if and only if the size of an element is a multiple of its alignment
  (`Classes.ArrayStride`). Elements still neither overlap nor stick out.

## Model

| member | source | states |
|---|---|---|
| RangeMaps.ErasedValid | src/util/rangemap.rs:20-34 | erasing keeps intervals non-empty, disjoint and ordered alike by start and end, with none left in the range |
| RangeMaps.ErasedAt | src/util/rangemap.rs:20-34 | erasing removes exactly the points of the range, for every point |
| RangeMaps.CutOneTurn | src/util/rangemap.rs:21-33 | one turn of the loop keeps validity and the final result, and lowers the number of stored intervals that overlap the range |
| RangeMaps.RangeMap.Erase | src/util/rangemap.rs:20-34 | the loop over the tree computes exactly the erased map, and for a reversed range cuts at most one interval |
| RangeMaps.ReversedExact | src/util/rangemap.rs:20-34 | erasing a reversed range changes nothing unless an interval has it inside, and then leaves overlapping intervals |
| RangeMaps.InsertedAt | src/util/rangemap.rs:35-41 | inserting updates exactly the points of the range |
| RangeMaps.InsertedSeparated | src/util/rangemap.rs:35-41 | inserting an unused value leaves no two touching intervals with the same value |
| RangeMaps.RangeMap.Insert | src/util/rangemap.rs:35-41 | the mutable insert computes the inserted map, and nothing for an empty range |
| RangeMaps.RangeExact | src/util/rangemap.rs:42-70 | a query yields sorted, disjoint, clipped pieces that cover exactly the mapped points of the range, so the early stop drops nothing |
| RangeMaps.WalkSeparated | src/util/rangemap.rs:42-70 | no two touching pieces of a query carry the same value, the property sampled at lines 137-145 |
| RangeMaps.RangeEmpty | src/data.rs:301-304 | the alias test finds nothing exactly when no byte of the range is pending |
| RangeMaps.RangeMap.FromIter | src/util/rangemap.rs:79-87 | collecting inserts one piece after another |
| RangeMaps.CollectedRange | src/memory.rs:61-66 | collecting a query gives exactly the queried part of the map |
| Memories.StoreConsistent | src/memory.rs:57-69 | a store keeps the cells naming the newest store of every byte and every log naming what it replaced |
| Memories.HistoryExact | src/memory.rs:20-25 | following cells and predecessor maps from a byte lists exactly the stores that covered it, newest first, each once |
| Memories.CellInExtent | src/memory.rs:74-77 | every cell lies inside the extent of its log, even after partial overwrites, so no slice is out of bounds |
| Memories.Memory.StoreImpl | src/memory.rs:57-69 | a store writes its bytes into the flat memory and appends its log to the history |
| Memories.Memory.LoadImpl | src/memory.rs:70-81 | a load returns the bytes of the flat memory, which the next two rows tie to the stores |
| Memories.ReadNewest | src/memory.rs:70-81 | each byte so read is the one of the newest store that covers its address, and zero without one |
| Memories.LastWriterExact | src/memory.rs:57-69 | that store covers the address and no later one does |
| Memories.Memory.Alloc | src/memory.rs:49-56 | an allocation is the least aligned address at or above the next free one and leaves the bytes alone |
| Memories.AllocsApart | src/memory.rs:49-56 | any sequence of allocations gives aligned blocks with at least 128 bytes between any two |
| Memories.AllocsInBits | src/memory.rs:49-56 | in bits, every block begins at a multiple of its layout's alignment and ends 1024 bits before the next |
| EngineRuns.PassAllLegal | src/data.rs:284-328 | every pass over all threads is a list of single resolutions, each in an order that the pending set and the barriers allow, and reports progress exactly when it resolved something |
| EngineRuns.PassAllQuiet | src/process.rs:111-116 | a pass without progress changes nothing, offers nothing exactly when every thunk is Ready, and its first offer can step |
| EngineRuns.RunLegal | src/process.rs:95-125 | every run of the process is such a list |
| EngineOrder.WaitsInRun | src/data.rs:294-327 | in every run of any number of threads a thunk becomes Ready only after every access that blocks it |
| EngineOrder.ReleaseSafety | src/data.rs:316-321 | a Release is resolved only after every earlier thunk of its thread |
| EngineOrder.AcquireBarrier | src/data.rs:322-326 | in every run an Acquire, AcqRel or SeqCst operation is resolved before everything after it in its thread, unless an earlier plain, Relaxed or Release access of the thread touches the same bytes |
| EngineOrder.Coherence | src/data.rs:294-305 | two accesses of one thread, the later covering the earlier, are resolved in program order, whatever their orderings and whatever else overlaps |
| EngineOrder.CoherenceDisjointOrEqual | src/data.rs:294-305 | with disjoint or equal ranges every overlapping pair is resolved in program order |
| EngineOrder.Synchronises | src/data.rs:306-327 | what precedes a Release is resolved before what follows an acquire of another thread that is resolved after it |
| EngineRefine.RunRefines | src/data.rs:278-330 | in every run of one thread every Ready value is the one of executing the thunks in program order, and so is the memory once the queue is drained |
| EngineRefine.FireRefines | src/data.rs:127-161 | resolving a thunk out of order keeps values and bytes those of in-order execution up to the first unresolved access of each byte |
| EngineRefine.DisjointOrEqual | src/data.rs:301-305 | pairwise disjoint or equal ranges meet the hypothesis of the refinement |
| EngineSchedule.ScheduleIndependence | src/interp.rs:87-113 | two complete runs of one program, decoded with branches that wait for values, decode the same thunks and end with the same values and memory |
| EngineReach.PassReaches | src/data.rs:284-328 | a pass holds nothing back without reason: a thunk behind no unresolved access with an unknown address, an Acquire, AcqRel or SeqCst ordering or common bytes is resolved if it is plain or pure and its operands are Ready, and offered if it is atomic and no Release |
| EngineReach.ReleaseFirst | src/data.rs:316-321 | an offered Release is the first offer of the pass over all threads |
| EngineEffects.OverlapExact | src/data.rs:294-305 | two accesses are aliases exactly when the ranges from their address operands on, of (bits + 7) / 8 bytes, have a byte in common |
| EngineEffects.FirePure | src/data.rs:237-244 | a thunk without memory access gets what its closure computes from its operands in their order, and leaves memory alone |
| EngineEffects.FireLoad | src/data.rs:260-271 | a load returns the bytes at its address in its width, zero where nothing was stored, and leaves memory alone |
| EngineEffects.FireStore | src/data.rs:247-259 | a store changes exactly the bytes of its value from its address on, and returns the empty value |
| EngineEffects.HistoryCas | src/flow.rs:148-175 | in every run each compare-exchange that finds the expected value stores its replacement and reports success with it, and each one that finds anything else leaves memory as it is and reports failure with what it found |
| EngineEffects.HistoryRmw | src/flow.rs:199-221 | in every run each read-modify-write returns the bytes that its location held just before, and stores the operation's result there and nothing else |
| EngineMessage.LoadSeesStore | src/data.rs:247-271 | a load resolved after a store to its bytes returns what was stored, when nobody else writes there between the two |
| EngineMessage.SeesFlag | src/data.rs:247-271 | a load, compare-exchange or read-modify-write whose value is not the one it computes from the initial bytes came after the only other writer |
| EngineMessage.MessagePassing | tests/src/main.rs:82-91 | a thread that sees the flag of a Release through an acquire load, compare-exchange or read-modify-write then reads the data stored before it, in every run |
| EngineSerial.NoLostUpdates | src/flow.rs:199-221 | a counter changed only by atomic additions, from any threads, holds its initial number plus all resolved additions |
| EngineSerial.AddReturns | src/flow.rs:199-221 | each of these additions returns the initial number plus what the earlier ones of the history have added, modulo the width |
| EngineSerial.OneCasWins | src/flow.rs:148-175 | of compare-exchanges with the same arguments, from any threads, the first that finds the expected bytes succeeds and every later one fails and returns the replacement |
| EngineSerial.SerialOrder | src/process.rs:95-125 | the tool for the two above and for lock words: the order in which thunks became Ready, executed one at a time from the initial memory, gives every value and the memory |
| EngineMutex.WaitsAwaited | src/flow.rs:177-197 | an access is resolved before what it stops also when something could let that pass, if the thread awaits the result of that before it decodes the access |
| EngineMutex.HandOffSucceeds | src/native/pthread.rs:17-33 | when each acquire compare-exchange of a lock word is decoded after the last Release is Ready, all of them succeed, in every run of any threads, so the two assertions hold of what the engine computes |
| EngineMutex.SectionsApart | src/native/pthread.rs:17-33 | when the mutex is handed on in this way, or when the compare-exchanges on the lock word all succeed, of any two critical sections of any threads one has ended before the other begins |
| EngineMutex.SectionsOrdered | src/native/pthread.rs:17-49 | everything up to the Release of a section is resolved before everything after the acquire of a later one |
| EngineMutex.ProtectedLoad | src/native/pthread.rs:17-49 | with a mutex that is handed on, a load by a holder returns what an earlier holder stored, when no holder in between stores there and nobody stores there without the lock, in every run |
| EngineProgress.SweepLeft | src/process.rs:97-110 | a pass with progress leaves fewer unresolved thunks, one without leaves the state as it is |
| EngineProgress.NeverStuck | src/process.rs:97-123 | while a thunk is unresolved, a pass makes progress or the first offer can be resolved |
| EngineProgress.BusyBound | src/process.rs:97-123 | without further decoding there are at most as many turns and resolutions as unresolved thunks |
| EngineProgress.Drains | src/process.rs:97-123 | taking the first offer drains every queue |
| EngineHolders.PassedHolder | src/data.rs:285-328 | in every run of one thread with constant operands an operation is resolved after an earlier thunk, or before some atomic access that lets it pass |
| EngineExact.OvertakenExactly | src/process.rs:95-125 | with constant operands, for an operation that is no Release, touches no earlier Release, and is atomic or stands behind no plain access: some run resolves it ahead of an earlier thunk of its thread if and only if an atomic access lets it pass |
| EngineExact.OvertakenUnlessBlocked | src/process.rs:95-125 | behind atomic accesses none of which is a Release, some run resolves an operation ahead of an earlier access if and only if that does not block it |
| EngineLimits.BarrierExact | src/data.rs:306-327 | a relaxed load of other bytes goes ahead of an atomic or plain store in some run if and only if the store is Relaxed or a Release |
| EngineLimits.AcquireOvertaken | src/data.rs:301-326 | a program in which some run resolves a load ahead of an aliased acquire |
| EngineLimits.PartialOverlap | src/data.rs:301-305 | for every initial memory and all orderings of the last two accesses but Release, a program in which a load returns the initial byte, where a store of its own thread before it stored another |
| EngineLimits.ChoiceMayFail | src/process.rs:122 | a program whose second offer cannot step |
| EngineLimits.ChoiceSteps | src/process.rs:115-122 | an offer steps exactly when its operands are Ready, and the first always does |
| EngineLimits.StrongIsNoRelease | src/data.rs:316-326 | a program in which some run resolves an AcqRel or SeqCst store before an earlier store |
| EngineLimits.PlainPasses | src/data.rs:301-315 | a plain load goes ahead of a store that a plain access hides, in the pass that resolves that access |
| EngineLimits.PlainStops | src/process.rs:97-123 | a relaxed load in its place does not, in any run |
| EngineLimits.ReleaseStops | src/data.rs:301-321 | an operation that touches an earlier Release does not get past a pending access before that, in any run |
| DataFlows.Compute | src/flow.rs:148-221 | on the real store loads, stores, compare-exchanges and read-modify-writes return and change exactly the bytes that they should: a failing compare-exchange stores nothing, a read-modify-write returns what it found |
| DataFlows.DataFlow.constructor | src/data.rs:188-197 | a new queue is empty |
| DataFlows.DataFlow.ThunkImpl | src/data.rs:198-236 | a decoded thunk gets the next sequence number and the end of the queue |
| DataFlows.DataFlow.Step | src/data.rs:127-161 | a thunk steps exactly when it is pending with Ready operands, and then has its value and effect |
| DataFlows.DataFlow.Retain | src/data.rs:284 | exactly the unresolved thunks stay, in program order |
| DataFlows.DataFlow.Visit | src/data.rs:285-327 | the loop body for one thunk, with its alias test on the interval map, is one turn of the pass, and breaks exactly at an unknown address and at an Acquire, AcqRel or SeqCst access that is not aliased |
| DataFlows.DataFlow.StepPure | src/data.rs:278-330 | the loop over the queue is the pass: same values, memory, offers and progress |
| Processes.Process.RunUntilStalled | src/process.rs:101 | decoding is a run; it stops only at the end of the stream, when a thunk is unresolved, or to wait for something else, where that can happen |
| Processes.Process.Sweep | src/process.rs:104-107 | the loop over the threads is a pass over all of them |
| Processes.Process.TurnUntilQuiet | src/process.rs:98-110 | the loop ends, after a run, in a state where a pass makes no progress |
| Processes.Process.Step | src/process.rs:95-125 | a call is a run and otherwise leaves less to do; it returns false only when everything decoded is resolved, and then the assertion at line 112 fails exactly when decoding still waits for something other than a thunk; the other assertions hold |
| Processes.Process.RunToEnd | src/main.rs:95-100 | calling it until it returns false ends, with everything decoded and resolved or in a deadlock, and never in a deadlock when decoding waits for thunks only |
| Processes.RunProgram | src/main.rs:95-100 | a single-threaded program that does not end in a deadlock has the values and the memory of executing it in program order |
| Mutexes.Mutex.TryLock | src/util/mutex.rs:35-43 | takes the mutex exactly when it is free |
| Mutexes.Mutex.LockFor | src/util/mutex.rs:44-54 | takes a free mutex, otherwise queues up at the end |
| Mutexes.Mutex.Unlock | src/util/mutex.rs:55-61 | hands the mutex to the first in the queue without freeing it, or frees it |
| Mutexes.Condvar.Wait | src/util/mutex.rs:78-85 | unlocks, then queues up with the mutex |
| Mutexes.Condvar.Notify | src/util/mutex.rs:86-91 | moves the first waiter to its mutex, or wakes it if that is free, and touches no other mutex |
| Mutexes.Condvar.NotifyAll | src/util/mutex.rs:92-97 | every waiter goes to the end of its locked mutex's queue, in order, and exactly the others wake |
| Pthreads.MutualExclusion | src/util/mutex.rs:35-97 | in every run a mutex is locked exactly while one task owns it, nobody shares it, and every queue holds exactly its blocked tasks, each once |
| Pthreads.WordAgreement | src/native/pthread.rs:17-71 | in every run the lock word is LOCKED exactly while a task is between its compare-exchanges, and no assertion can fail |
| Pthreads.FirstComeFirstServed | src/util/mutex.rs:55-69 | over every run, who was queued and who queued up since is who was granted the mutex and who is queued, in order |
| Pthreads.GrantOwns | src/util/mutex.rs:55-61 | a grant makes the blocked task the owner while the mutex stays locked |
| Pthreads.WaitersConserved | src/util/mutex.rs:78-97 | waiters are notified in the order in which they began to wait, each once, and none is lost |
| Pthreads.SignalExact | src/native/pthread.rs:113-116 | from every state of the protocol, after a signal some continuation fails an assertion if and only if the front waiter's mutex is unlocked, and otherwise the protocol is kept |
| Pthreads.BroadcastExact | src/native/pthread.rs:108-111 | the same after a broadcast, for the mutexes of all waiters |
| PthreadCalls.TryLockFails | src/native/pthread.rs:35-42 | a failing trylock leaves tasks, mutexes, condition variables and lock words as they were, and its caller goes on |
| PthreadCalls.LockTakes | src/native/pthread.rs:35-50 | on a free mutex lock and trylock take the same steps: the caller holds it, its word is 1, nothing else changes |
| PthreadCalls.LockBlocks | src/native/pthread.rs:44-50 | on a locked mutex a lock call queues up at the end and changes nothing else |
| PthreadCalls.GivesUp | src/native/pthread.rs:52-71 | unlock, and wait up to its notification: the word is 0x32AAABA7, the mutex is free or granted to the first in its queue, the caller goes on or waits at the end of the condition variable's queue |
| PthreadCalls.LockUnlock | src/native/pthread.rs:35-56 | lock or trylock on a free mutex, then unlock, leaves everything as it was |
| PthreadCalls.Signals | src/native/pthread.rs:113-116 | a signal moves the first waiter to the end of its locked mutex's queue, or grants it the mutex, and does nothing without waiters |
| PthreadCalls.Broadcasts | src/native/pthread.rs:108-111 | a broadcast does so with every waiter, in order |
| PthreadCalls.WaitSignal | src/util/mutex.rs:177-209 | the waiter gets the mutex back when another task locks, signals and unlocks meanwhile, and everything is as before the wait |
| PthreadCalls.Joins | src/native/pthread.rs:164-171 | a join goes on exactly when the other task has returned, and changes nothing |
| Pthreads.SignalWithoutLock | src/native/pthread.rs:17-24 | a run in which a signal without the lock leads to a failing assertion |
| PthreadSections.SectionsInTurn | src/native/pthread.rs:35-71 | in every run the tasks begin to take, take and free the lock word of a mutex one after another, and none begins before the last one has freed it |
| PthreadSections.BegunExact | src/native/pthread.rs:35-71 | a task is about to take the lock word from exactly the step on that the order counts as its beginning |
| Deadlocks.StuckExact | src/process.rs:98-112 | no task can take a step if and only if every task has returned or waits for a mutex, a notification or a task that has not returned |
| Deadlocks.DeadlockExact | src/process.rs:111-112 | in every run that has come to a standstill, some task is left if and only if one waits for a notification, one waits for a mutex of a task that has returned, or tasks wait in a circle |
| Deadlocks.EntangledForever | src/util/mutex.rs:44-69 | tasks that have returned or wait for mutexes or returns of each other stay as they are in every continuation, guarded or not |
| Deadlocks.CycleForever | src/util/mutex.rs:44-69 | a circle of waiting tasks lasts in every continuation, so that a standstill of the others fails the assertion |
| Deadlocks.LocksTwice | src/native/pthread.rs:44-50 | a run of one task that ends in a deadlock |
| Recursors.EvalsUnique | src/util/recursor.rs:109-121 | direct recursion has one result |
| Recursors.ReturnsOnTop | src/util/recursor.rs:89-94 | a frame that returns is the top of the stack |
| Recursors.Recursor.PollFrame | src/util/recursor.rs:31-39 | polling a frame runs it until it returns its recursive result or has to wait |
| Recursors.Recursor.Poll | src/util/recursor.rs:87-105 | Ready means the result of direct recursion; Pending means the top frame waits for an outside value; the popped frame is the one just polled |
| Recursors.Trampoline | src/util/recursor.rs:59-106 | over any number of polls the result is that of direct recursion, and it is there once nothing is missing |
| Recursors.FibTrampoline | src/util/recursor.rs:109-136 | the recursive Fibonacci test gives the Fibonacci number for every n |
| Layouts.AlignToLeast | src/layout.rs:8-10 | the or-trick gives the least multiple of a power of two at or above ptr exactly when one fits into a word, and 0 otherwise |
| Layouts.ExtendPlaces | src/layout.rs:34-52 | a field goes to the least aligned offset past what is there; the alignment becomes the greater of the two, or a byte when packed |
| Layouts.OfIntOk | src/layout.rs:61-64 | an integer's alignment is the least power of two, at least a byte, that holds it |
| Layouts.StructPlaced | src/compile/class.rs:174-187 | fields are in order, aligned, as low as possible and disjoint, and the total is the least multiple of the alignment that holds them |
| Layouts.StructAlign | src/compile/class.rs:174-187 | the alignment of a struct is the greatest of a byte and its fields' alignments, and a byte when packed; without packing every field's alignment divides it and the size |
| Layouts.StructLayout | src/compile/class.rs:174-187 | the loop over the fields computes that placement and that alignment |
| Bits.ExtractIs | src/value.rs:125-131 | the byte path and the bit path of extraction give the same bits |
| Bits.InsertIs | src/value.rs:132-136 | insertion replaces exactly the bits of the range |
| Bits.InsertExtract | src/value.rs:125-136 | extracting what was inserted gives it back |
| Bits.InsertElsewhere | src/value.rs:125-136 | insertion does not change what is extracted elsewhere |
| Bits.BitAt | src/value.rs:249-255 | bit i of a value is bit i % 8 of byte i / 8, counted from the least significant |
| Bits.AsU128Is | src/value.rs:37-47 | a value of at most 128 bits reads as the number of its bits |
| Bits.AsU128Low | src/value.rs:37-47 | a wider one as the number of its low 128 bits |
| Bits.AsU64Is | src/value.rs:58-60 | an address is the number of the low 64 bits of a value |
| Bits.NewBits | src/value.rs:86-92 | a new value has the requested width, whatever it is; bit k is bit k of the number below 128 and zero above |
| Bits.NewIs | src/value.rs:86-92 | a new value reads back as the number modulo 2 to its width |
| Bits.UcastBits | src/value.rs:142-147 | ucast gives a value of the new width, whatever the two widths are: bits that both have are kept and all others are zero |
| Bits.UcastIs | src/value.rs:142-147 | ucast is reduction modulo 2 to the new width, and has that width |
| Bits.LshrBits | src/compile/operation.rs:418-424 | a logical shift right by at most the width keeps the width and moves every bit down, zero above |
| Bits.LshrIs | src/compile/operation.rs:418-424 | a logical shift right by at most the width is division by a power of two |
| Bits.SextIs | src/compile/operation.rs:404-416 | sign extension keeps the signed value and has the new width |
| Classes.LayoutExact | src/compile/class.rs:125-187 | integers have their bits and the least power of two that holds them, pointers 64 of both, vectors packed bits, arrays padded elements with their alignment, structs the greatest alignment of a field and the least multiple of it that holds them |
| Classes.HasLayout | src/compile/class.rs:125-187 | every type has a layout unless a size does not fit into a word |
| Classes.ElementAt | src/compile/class.rs:278-305 | the type and offset of each element: that many element sizes for vectors and arrays, the least offset past the field before that the alignment allows for structs |
| Classes.PathAppend | src/compile/class.rs:268-277 | an element of an element is at the sum of the offsets |
| Classes.PathAligned | src/compile/class.rs:125-187 | through structs that are not packed, and arrays whose stride keeps the alignment, every nested element is at a multiple of its own alignment |
| Classes.ElementFits | src/compile/class.rs:278-305 | every element of a vector, array or struct lies inside it |
| Classes.ElementsApart | src/compile/class.rs:278-305 | elements do not overlap |
| Classes.ArrayStride | src/compile/class.rs:168-173 | past the first element an array is indexed where its layout puts the elements if and only if the size of an element is a multiple of its alignment |
| Classes.ArrayMisses | src/compile/class.rs:168-173 | two 24-bit integers take 32 bits each, and the second is looked for at bit 24 |
| Classes.PathsApart | src/compile/class.rs:268-277 | elements on diverging paths through nested types do not overlap |
| Classes.InsertValueIs | src/compile/operation.rs:291-296 | inserting along a path and extracting gives the value there and what was there before on every diverging path |
| Classes.Aggregate | src/value.rs:113-120 | an aggregate has each of its elements at its index |
| FreeLists.Safety | src/util/freelist.rs:26-80 | for every sequence of alloc, clone and drop, blocks count their handles or are on the free list, which repeats nothing, values are stable, a block identifies its alloc, and no block in use is allocated |
| FreeLists.AllocFresh | src/util/freelist.rs:30-45 | alloc never returns a block that a handle refers to |
| FreeLists.FreeList.Alloc | src/util/freelist.rs:30-45 | takes the last freed block or a new one |
| FreeLists.FreeList.Clone | src/util/freelist.rs:60-67 | counts one more handle |
| FreeLists.FreeList.Drop | src/util/freelist.rs:69-80 | counts one handle less, or frees the block |

## Left out

- Loading LLVM bitcode, compiling instructions, symbols and constant folding: decoding starts from
  a stream of thunks. In `Process.dfy` the stream is fixed and how much of it is decoded per turn is
  arbitrary; `EngineSchedule.dfy` has a decoder that waits for values.
- Futures, wakers, the executor and task cancellation: a task is a program counter, a dropped sender
  wakes its task, and an outside value is there or not at each poll.
- The limit of 1000 thunks per queue (src/data.rs:206-208) and the liveness of tasks that wait for it.
- Removal of finished threads (src/scheduler.rs:61-63): threads stay, drained; the assertion that none
  is left is the one that nothing is left to decode or resolve.
- Processes.Process.RunUntilStalled: does not say when decoding waits for a mutex, a condition variable
  or the return of a thread; whether it may is a parameter. `Pthread.dfy` and `Deadlock.dfy` say it of
  the pthread calls, without the thunks in between.
- Processes.Process.Step: for the same reason reports a deadlock instead of failing the assertion at
  src/process.rs:112, chooses only among operations that can step, and removes no threads.
- Processes.Process.RunToEnd: for the same reason does not say which programs deadlock.
- Creating threads in `Pthread.dfy`: all tasks are there from the start. Joining a thread that has been
  removed panics in the code; here it returns at once.
- PthreadCalls.Joins: leaves out the returned value and its store to memory.
- EngineExact.OvertakenExactly: leaves out plain operations behind plain accesses, operations that touch
  an earlier Release, and computed operands; the first two by lemmas that show that the condition is
  another one there.
- The scheduler's random generator: the choice is arbitrary among the operations that can step.
- 64-bit overflow of addresses and of sequence numbers; bit and byte counts of layouts are bounded
  explicitly.
- Allocation thunks inside the engine, `memcpy` and other native functions, fences, unwinding,
  tracing and timers; `free` does nothing in the code either.
- Floating point and function types, pointer arithmetic and `Shuffle`.
- The freeing of blocks when a free list is dropped, and raw pointers: blocks are numbers.
- Recursors.Trampoline: supposes that a frame awaits its own children and all of them before it
  returns, as its callers do; the code itself would panic otherwise.
- The thunks behind the compare-exchanges of the pthread wrapper: `Pthread.dfy` takes each as one
  step, at the moment it is resolved, since the wrapper awaits its value before it goes on, and shows
  in which order tasks begin, take and free (`PthreadSections.SectionsInTurn`). `EngineMutex.dfy` has
  the thunks and supposes that order of their decoding; there is no state machine of both.
- Mutexes.Mutex.Unlock: requires a locked mutex, where the code asserts it.

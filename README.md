# Task pool bookkeeping, modelled in Dafny

This project models the task pool of `src/task_pool.cpp`: a fixed set of worker threads that take caller-submitted tasks from a FIFO queue. The model covers the pool's bookkeeping as a sequential state machine. That bookkeeping is:

- an id counter (`max_task_id`), a 32-bit `long` on the pool's platform;
- a registry from task id to `task_state` (`task_id_map`);
- a FIFO of pending (id, task) entries (`task_queue`);
- one availability flag per worker (`thread_available`);
- the exit flag (`exit_signal`).

The threads themselves are not modelled. A worker is resumed or parked only through the change it makes to its flag. One iteration of a worker's loop is one atomic transition.

The project has three modules:

- `TaskTypes` (`task_types.dfy`) holds the two result enums `task_state` and `error_type`, the 32-bit `long` as the subset type `Long`, and the forward order New → InProcess → Finished.
- `PoolSpec` (`pool_spec.dfy`) holds the state as the datatype `PoolState`. Each operation is a function from the old state to the new state and the result code. The lemmas state what the pool promises: allocated ids are consecutive, the admission rules, query, wait and release agree with each other, the worker takes the front of the queue and drains it in FIFO order, and no sequence of operations moves a registered task's state backwards unless that id is released.
- `PoolImpl` (`task_pool.dfy`) holds the class `TaskPool`, with the fields the C++ object updates in place. The flags are a fixed-size array allocated by the constructor, whose thread count defaults to one as the C++ constructor's does. Each method is proved to change the object's abstract value, `Model()`, exactly as the matching `PoolSpec` function does. `FindAvailableWorker` is the submit loop that scans for a worker to resume. `WorkerLoop` is the worker's `for(;;)` loop, from being resumed until it parks, exits or faults. `ExampleDriver` replays the call sequence of `example/test.cpp`.

Behaviour kept as the code has it, including where a caller would expect otherwise:

- The only id check in `submit_task` is `task_id >= max_task_id`. So negative ids are admitted (`NegativeIdIsAdmitted`). An id that was released can be submitted again and reads as new once more (`ReleasedIdCanBeResubmitted`). Ids are therefore not retired on release, and an id can be registered more than once over the pool's lifetime.
- `new_task` is an interlocked increment of a 32-bit counter. After 2^31 allocations it hands out `LongMax` and the counter wraps to `LongMin` (`CounterWrapsAtLongMax`). Every submission is then rejected as an invalid id until the next allocation (`WrappedCounterRejectsEverySubmit`). That allocation hands out `LongMin`, which is then admitted (`WrappedCounterAdmitsAfterNextAllocation`). The ids handed out before the wrap (0 to `LongMax`) stay rejected until the counter climbs past them again (`WrappedCounterRejectsOldIds`). Allocated ids are strictly increasing only up to the wrap (`AllocatedIdsAreConsecutive`).
- `release_task` removes a record in any state. A record released while its entry is still queued, and not submitted again, makes the worker that pops the entry find no record. That lookup throws, and the exception is not caught. The model gives this case its own outcome, `MissingRecord` (`ReleaseBeforeRunFaults`).
- If the id is released and submitted again while its old entry is still queued, the queue holds two entries for it: one with the old task and one with the new task. Each task runs once, and both run against the new record. The first pop runs the old task and already marks the new record finished. So `wait_for_task` returns STATUS_OK for the id while the new task is still queued (`ResubmitWhileQueuedFinishesEarly`). A successful wait therefore means only that the id's record reads finished. It does not mean that the task last submitted under the id has run.
- The code has no queue capacity, no queue-depth counter, no autorelease and no setters for them, so none of these is modelled.
- `submit_task` resumes at most one worker: the lowest-index one whose flag is set. Resuming does not change the flag; the worker clears its own flag when it finds work. The retry loop around the resume call runs once, because it tests an unsigned value for `< 0`.

## Model

| member | source | states |
|---|---|---|
| `PoolSpec.Init` | src/task_pool.cpp:109-123 | A fresh pool has counter 0, an empty registry and queue, the exit flag clear, and every one of its workers marked available |
| `PoolSpec.AllocateId` | src/task_pool.cpp:156-159 | `new_task` returns the old counter and advances it by one, wrapping from LongMax to LongMin; nothing else changes |
| `PoolSpec.AllocatedIdsAreConsecutive` | src/task_pool.cpp:156-159 | While the counter does not wrap, k allocations in a row return the counter's values c, c+1, …, c+k-1 and leave only the counter changed, to c+k |
| `PoolSpec.FreshPoolIdsStartAtZero` | src/task_pool.cpp:156-159 | A fresh pool hands out 0, 1, 2, …; the ids are strictly increasing, hence pairwise distinct |
| `PoolSpec.CounterWrapsAtLongMax` | src/task_pool.cpp:156-159 | At counter LongMax the id handed out is LongMax and the counter becomes LongMin |
| `PoolSpec.FirstAvailable` | src/task_pool.cpp:233-244 | The worker a submission resumes is none exactly when no flag is set; otherwise it is the lowest index whose flag is set |
| `PoolSpec.Submit` | src/task_pool.cpp:221-247 | The result is INVALID_TASK_ID exactly when the id is at or above the counter, TASK_ALREADY_EXIST exactly when it is below and registered, and STATUS_OK exactly when it is below and unregistered; a rejected submission changes nothing and wakes no one |
| `PoolSpec.SubmitRegistersNewAtBack` | src/task_pool.cpp:226-231 | After a successful submission, query reports the id as new, every other id's state is unchanged, the queue is the old queue plus exactly (id, task) at the back, counter, flags and exit flag are unchanged, and a wait on the id would block |
| `PoolSpec.DuplicateSubmitKeepsRecord` | src/task_pool.cpp:227-229 | Submitting a registered id returns TASK_ALREADY_EXIST and leaves that id's state and the queue as they were |
| `PoolSpec.SubmitWakesFirstAvailable` | src/task_pool.cpp:233-244 | A successful submission resumes no worker exactly when none is available, and otherwise the lowest-index available one |
| `PoolSpec.NegativeIdIsAdmitted` | src/task_pool.cpp:223-224 | An unregistered negative id passes the only id check and is admitted |
| `PoolSpec.WrappedCounterRejectsEverySubmit` | src/task_pool.cpp:223-224 | While the counter stands at LongMin after the wrap, that is, until the next allocation, every submission returns INVALID_TASK_ID and changes nothing |
| `PoolSpec.WrappedCounterAdmitsAfterNextAllocation` | src/task_pool.cpp:223-224 | After the wrap, the next allocation hands out LongMin, and submitting that unregistered id is admitted |
| `PoolSpec.WrappedCounterRejectsOldIds` | src/task_pool.cpp:223-224 | While the counter is negative, every non-negative id, including all those handed out before the wrap, is rejected with INVALID_TASK_ID and changes nothing |
| `PoolSpec.Query` | src/task_pool.cpp:161-170 | An unregistered id reads as INVALID_TASK_ID; in a well-formed registry, a registered id never does |
| `PoolSpec.WaitEarly` | src/task_pool.cpp:180-192 | `wait_for_task` returns TASK_NOT_SUBMITTED exactly for an unregistered id and STATUS_OK without blocking exactly for a finished one; otherwise it blocks |
| `PoolSpec.WaitAgreesWithQuery` | src/task_pool.cpp:180-192 | Wait reports not-submitted exactly when query reports invalid, returns at once exactly when query reports finished, and blocks exactly when query reports new or in process |
| `PoolSpec.Release` | src/task_pool.cpp:249-265 | Release succeeds exactly for a registered id, whatever its state, and removes exactly that key; otherwise it returns INVALID_TASK_ID and changes nothing |
| `PoolSpec.ReleaseRemovesOnlyThatId` | src/task_pool.cpp:249-265 | After releasing a registered id, query reports it invalid, other ids read as before, queue, counter, flags and exit flag are unchanged, a second release returns INVALID_TASK_ID and a wait returns TASK_NOT_SUBMITTED |
| `PoolSpec.ReleasedIdCanBeResubmitted` | src/task_pool.cpp:223-229 | A finished, released id below the counter is admitted again and reads as new |
| `PoolSpec.WorkerStep` | src/task_pool.cpp:57-104 | A worker iteration exits exactly when the queue is empty and the exit flag is set, parks exactly when the queue is empty and the flag is clear, and runs a task exactly when the front entry's id is registered; running shortens the queue |
| `PoolSpec.WorkerStepMovesForward` | src/task_pool.cpp:67-86 | On a non-empty queue a worker iteration clears the worker's flag, removes exactly the front entry, finishes that id's record (or faults if it has none), leaves every other record, the counter and the exit flag unchanged, and moves no record backwards |
| `PoolSpec.IdleWorkerParksOrExits` | src/task_pool.cpp:59-65 | On an empty queue a worker leaves the loop with the state unchanged if the exit flag is set, and otherwise sets its own flag and parks with nothing else changed |
| `PoolSpec.WaitReturnsAfterRun` | src/task_pool.cpp:80-86 | Once a worker has run a task, query reports it finished and a wait on it returns STATUS_OK at once |
| `PoolSpec.ReleaseBeforeRunFaults` | src/task_pool.cpp:77-82 | Submitting to an empty queue and releasing, without resubmitting, before a worker runs the entry makes the worker's lookup find no record |
| `PoolSpec.ResubmitWhileQueuedFinishesEarly` | src/task_pool.cpp:77-86 | After submit, release and resubmit of one id on an empty queue, the queue holds the old and the new task's entries; the first worker iteration runs the old entry, marks the id finished and leaves only the new entry queued, and a wait on the id already returns STATUS_OK |
| `PoolSpec.RunUntilIdle` | src/task_pool.cpp:57-105 | The loop of a resumed worker stops only on an iteration that runs no task |
| `PoolSpec.RunUntilIdleDrainsInOrder` | src/task_pool.cpp:57-105 | If every queued id is registered, a resumed worker runs the queued ids in FIFO order, finishes them all, empties the queue, keeps all other records, the set of registered ids, the counter, the exit flag and every other worker's flag, and then exits if the exit flag is set and parks otherwise; a parked worker's own flag is set |
| `PoolSpec.Shutdown` | src/task_pool.cpp:125-127 | Destroying the pool sets the exit flag and changes nothing else |
| `PoolSpec.ApplyPreservesWellFormed` | src/task_pool.cpp:57-265 | Every operation keeps the registry free of INVALID_TASK_ID entries and keeps the number of workers |
| `PoolSpec.RunPreservesWellFormed` | src/task_pool.cpp:57-265 | Any sequence of operations keeps the registry well formed and the number of workers fixed |
| `PoolSpec.ApplyMovesForward` | src/task_pool.cpp:57-265 | Any operation other than releasing an id keeps that id registered and does not move its state backwards |
| `PoolSpec.StateNeverMovesBackwards` | src/task_pool.cpp:57-265 | Along any sequence of operations that does not release an id, that id stays registered and its state only moves forward through New, InProcess, Finished |
| `PoolImpl.TaskPool.constructor` | src/task_pool.cpp:109-123 | The constructed object's state is the fresh pool, with a newly allocated flag array set by the constructor's loop |
| `PoolImpl.TaskPool.NewTask` | src/task_pool.cpp:156-159 | Returns the old counter and leaves the object in the state `new_task` specifies |
| `PoolImpl.TaskPool.QueryTaskState` | src/task_pool.cpp:161-170 | Returns the state query specifies, which is INVALID_TASK_ID exactly for an unregistered id |
| `PoolImpl.TaskPool.WaitForTask` | src/task_pool.cpp:180-209 | Returns the non-blocking decision of wait; when it returns, STATUS_OK means the id's record reads finished |
| `PoolImpl.TaskPool.FindAvailableWorker` | src/task_pool.cpp:233-244 | The scan finds no worker exactly when no flag is set, and otherwise the lowest index whose flag is set |
| `PoolImpl.TaskPool.SubmitTask` | src/task_pool.cpp:221-247 | Returns the result code and resumed worker that submit specifies and leaves the object in the state it specifies |
| `PoolImpl.TaskPool.ReleaseTask` | src/task_pool.cpp:249-265 | Returns the result code of release and leaves the object in the state it specifies |
| `PoolImpl.TaskPool.WorkerIteration` | src/task_pool.cpp:57-104 | One loop iteration returns the outcome and leaves the object in the state the worker step specifies |
| `PoolImpl.TaskPool.WorkerLoop` | src/task_pool.cpp:57-106 | Repeats iterations until one runs no task; the ids run, the final outcome and the final state are those of the resumed worker's loop |
| `PoolImpl.TaskPool.SignalExit` | src/task_pool.cpp:125-127 | Sets the exit flag and nothing else |

## Left out

- Thread creation, `SuspendThread`, `ResumeThread`, `GetCurrentThread`, `DuplicateHandle` and the destructor's resume-and-wait loop are operating-system thread control. Resuming and parking appear only as the flag changes and the `woken` result.
- The interleavings of caller and worker threads and the `volatile` ordering assumptions are not modelled, because the model is sequential. This includes the window in `wait_for_task` between the state check and the waiter registration. It also includes a pop that loses the race and leaves a stale entry behind.
- `PoolImpl.TaskPool.WaitForTask`: models only the decision before the caller would be suspended. The waiter registration in `waiting_map`, the blocking loop, and the worker's resume of the waiter are left out. They exist only to block and wake threads.
- `PoolImpl.TaskPool.WorkerIteration`: runs as one atomic step. So no query in the model ever observes TASK_IN_PROCESS. When an id has two queued entries (released and resubmitted), the code rewrites its record from Finished back to InProcess while the second entry's task runs. The model does not show that intermediate state.
- The retry around `try_pop` is a single pop in a sequential run on a non-empty queue, so it has no loop in the model.
- The caller's task (`run`, `isSuccessful`) is opaque: the pool stores it in the queue and never inspects it.
- The debug macros and printing paths are left out. So is a failed thread or handle creation, which is only reported in debug builds.
- The memory leak of the unused state object on a duplicate submission is left out, because the model has no heap records.
- `example/background_file_reader.hpp` is a concrete task doing file I/O and is not part of this model. `example/test.cpp` appears only as the call sequence of `ExampleDriver`.

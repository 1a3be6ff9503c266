/**
 * The task pool object itself. Its fields are the ones the C++ object
 * updates in place: the id counter, the registry, the pending queue, the
 * per-worker availability flags (a fixed-size array allocated by the
 * constructor) and the exit flag. Every method is proved to move the
 * object's abstract value, Model(), exactly as the matching function of
 * PoolSpec does, so the lemmas proved there hold of the object.
 */
module PoolImpl {
  import opened TaskTypes
  import opened PoolSpec

  class TaskPool<T> {
    const threadNumber: nat
    var maxTaskId: Long
    var taskIdMap: map<Long, TaskState>
    var taskQueue: seq<Entry<T>>
    const threadAvailable: array<bool>
    var exitSignal: bool

    /** The object's state as a value of the specification. */
    ghost function Model(): PoolState<T>
      reads this, threadAvailable
    {
      PoolState(maxTaskId, taskIdMap, taskQueue, threadAvailable[..], exitSignal)
    }

    ghost predicate Valid()
      reads this, threadAvailable
    {
      threadAvailable.Length == threadNumber && WellFormed(Model())
    }

    /** Creates the pool: counter 0, nothing registered or queued, every worker marked available. */
    constructor (threadNumber: nat := 1)
      ensures Valid() && fresh(threadAvailable)
      ensures this.threadNumber == threadNumber
      ensures Model() == Init<T>(threadNumber)
    {
      var flags := new bool[threadNumber];
      var i := 0;
      while i != threadNumber
        invariant 0 <= i <= threadNumber
        invariant forall j :: 0 <= j < i ==> flags[j]
      {
        flags[i] := true;
        i := i + 1;
      }
      this.threadNumber := threadNumber;
      maxTaskId := 0;
      taskIdMap := map[];
      taskQueue := [];
      threadAvailable := flags;
      exitSignal := false;
      new;
      assert threadAvailable[..] == Init<T>(threadNumber).available;
    }

    /** `new_task`: returns the counter and increments it, wrapping at the 32-bit bound. */
    method NewTask() returns (id: Long)
      requires Valid()
      modifies this
      ensures Valid()
      ensures AllocateId(old(Model())) == Allocation(Model(), id)
    {
      id := maxTaskId;
      if maxTaskId == LongMax {
        maxTaskId := LongMin;
      } else {
        maxTaskId := maxTaskId + 1;
      }
    }

    /** `query_task_state` */
    method QueryTaskState(id: Long) returns (s: TaskState)
      requires Valid()
      ensures s == Query(Model(), id)
      ensures s == TaskState.InvalidTaskId <==> id !in taskIdMap
    {
      if id in taskIdMap {
        s := taskIdMap[id];
      } else {
        s := TaskState.InvalidTaskId;
      }
    }

    /**
     * `wait_for_task` up to the point where it would suspend the caller. The
     * second check for a finished task, made after the caller registers as
     * waiter, sees the same state as the first in a sequential run.
     */
    method WaitForTask(id: Long) returns (r: WaitResult)
      requires Valid()
      ensures r == WaitEarly(Model(), id)
      ensures r.Returned? ==> (r.err == ErrorType.StatusOk <==> Query(Model(), id) == TaskState.TaskFinished)
    {
      if id !in taskIdMap {
        return Returned(ErrorType.TaskNotSubmitted);
      }
      if taskIdMap[id] == TaskState.TaskFinished {
        return Returned(ErrorType.StatusOk);
      }
      r := MustBlock;
    }

    /**
     * The scan of `submit_task` for a worker to resume: the lowest-index
     * worker whose flag is set, or none. The resume call inside the scan is
     * issued once, since its retry condition compares an unsigned value
     * with zero.
     */
    method FindAvailableWorker() returns (w: Option<nat>)
      requires Valid()
      ensures w.None? <==> forall j :: 0 <= j < threadNumber ==> !threadAvailable[j]
      ensures w.Some? ==> w.value < threadNumber && threadAvailable[w.value]
      ensures w.Some? ==> forall j :: 0 <= j < w.value ==> !threadAvailable[j]
      ensures w == FirstAvailable(threadAvailable[..])
    {
      var i := 0;
      while i < threadNumber
        invariant 0 <= i <= threadNumber
        invariant forall j :: 0 <= j < i ==> !threadAvailable[j]
      {
        if threadAvailable[i] {
          w := Some(i);
          return;
        }
        i := i + 1;
      }
      w := None;
    }

    /** `submit_task` */
    method SubmitTask(id: Long, task: T) returns (err: ErrorType, woken: Option<nat>)
      requires Valid()
      modifies this
      ensures Valid()
      ensures Submit(old(Model()), id, task) == SubmitResult(Model(), err, woken)
    {
      if id >= maxTaskId {
        return ErrorType.InvalidTaskId, None;
      }
      if id in taskIdMap {
        return ErrorType.TaskAlreadyExist, None;
      }
      taskIdMap := taskIdMap[id := TaskState.NewTask];
      taskQueue := taskQueue + [Entry(id, task)];
      woken := FindAvailableWorker();
      err := ErrorType.StatusOk;
    }

    /** `release_task` */
    method ReleaseTask(id: Long) returns (err: ErrorType)
      requires Valid()
      modifies this
      ensures Valid()
      ensures Release(old(Model()), id) == ReleaseResult(Model(), err)
    {
      if id !in taskIdMap {
        return ErrorType.InvalidTaskId;
      }
      taskIdMap := taskIdMap - {id};
      err := ErrorType.StatusOk;
    }

    /**
     * One iteration of worker `w`'s loop, taken as one atomic step.
     * Suspending the thread and running the caller's task are not modelled.
     */
    method WorkerIteration(w: nat) returns (outcome: WorkerOutcome)
      requires Valid() && w < threadNumber
      modifies this, threadAvailable
      ensures Valid()
      ensures WorkerStep(old(Model()), w) == StepResult(Model(), outcome)
    {
      if |taskQueue| == 0 {
        if exitSignal {
          outcome := Exited;
        } else {
          threadAvailable[w] := true;
          outcome := Parked;
        }
      } else {
        threadAvailable[w] := false;
        var entry := taskQueue[0];
        taskQueue := taskQueue[1..];
        if entry.id !in taskIdMap {
          outcome := MissingRecord(entry.id);
        } else {
          taskIdMap := taskIdMap[entry.id := TaskState.TaskInProcess];
          taskIdMap := taskIdMap[entry.id := TaskState.TaskFinished];
          outcome := Ran(entry.id);
        }
      }
    }

    /**
     * Worker `w`'s loop from the moment it is resumed until an iteration
     * does not run a task: it parks, leaves the loop, or faults on a
     * missing record.
     */
    method WorkerLoop(w: nat) returns (ran: seq<Long>, last: WorkerOutcome)
      requires Valid() && w < threadNumber
      modifies this, threadAvailable
      ensures Valid()
      ensures RunUntilIdle(old(Model()), w) == RunResult(Model(), ran, last)
    {
      ran := [];
      while true
        invariant Valid()
        invariant var r := RunUntilIdle(Model(), w);
          RunUntilIdle(old(Model()), w) == RunResult(r.pool, ran + r.ran, r.last)
        decreases |taskQueue|
      {
        ghost var before := Model();
        RunUntilIdleUnfolds(before, w);
        last := WorkerIteration(w);
        if !last.Ran? {
          return;
        }
        ran := ran + [last.id];
      }
    }

    /** The first thing the destructor does: set the exit flag. */
    method SignalExit()
      requires Valid()
      modifies this
      ensures Valid()
      ensures Model() == Shutdown(old(Model()))
    {
      exitSignal := true;
    }
  }

  /**
   * The call sequence of the example driver: one worker, allocate an id,
   * submit, let the worker run, wait, release and query again.
   */
  method ExampleDriver<T>(task: T)
  {
    var pool := new TaskPool<T>();
    var id := pool.NewTask();
    assert id == 0;
    var err, woken := pool.SubmitTask(id, task);
    assert err == ErrorType.StatusOk && woken == Some(0);
    var outcome := pool.WorkerIteration(0);
    assert outcome == Ran(0);
    var waited := pool.WaitForTask(id);
    assert waited == Returned(ErrorType.StatusOk);
    err := pool.ReleaseTask(id);
    assert err == ErrorType.StatusOk;
    var s := pool.QueryTaskState(id);
    assert s == TaskState.InvalidTaskId;
    outcome := pool.WorkerIteration(0);
    assert outcome == Parked;
  }
}

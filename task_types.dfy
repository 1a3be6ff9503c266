/**
 * The value types the task pool's interface is written in: the two result
 * enums of the public API, the platform's 32-bit `long` that task ids are
 * carried in, and a small Option type.
 */
module TaskTypes {

  /** Bounds of the 32-bit signed `long` of the pool's platform. */
  const LongMin: int := -0x8000_0000
  const LongMax: int := 0x7FFF_FFFF

  /** A task id, as the pool's `long`. */
  type Long = x: int | -0x8000_0000 <= x <= 0x7FFF_FFFF

  datatype Option<T> = None | Some(value: T)

  /** What `query_task_state` reports about an id. */
  datatype TaskState = InvalidTaskId | NewTask | TaskInProcess | TaskFinished

  /** The result codes of `submit_task`, `wait_for_task` and `release_task`. */
  datatype ErrorType = StatusOk | TaskAlreadyExist | InvalidTaskId | TaskNotSubmitted

  /** Position of a state in the life cycle New -> InProcess -> Finished. */
  function Rank(s: TaskState): nat
  {
    match s
    case InvalidTaskId => 0
    case NewTask => 1
    case TaskInProcess => 2
    case TaskFinished => 3
  }

  /** `later` is the same state as `earlier` or one further along the life cycle. */
  predicate NotBefore(later: TaskState, earlier: TaskState)
  {
    Rank(later) >= Rank(earlier)
  }
}

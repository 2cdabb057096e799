/** Outcomes of operations that can throw. */
module Errors {

  datatype Error =
    | NothingToMerge        // a compaction was given a single table
    | CompactionDisabled    // an update arrived although no compaction may run
    | QueueTooShort         // an update arrived for a window that the queue does not hold
    | NoMergedTables        // an update arrived without a single table
    | EndOfFile             // a read passed the end of the stream
    | UnknownTransaction    // a log record starts with a type that is neither SET nor REMOVE
    | NoCounterInName       // a file name holds no counter
    | CounterOutOfRange     // the counter in a file name does not fit an int

  datatype Result<+T> = Success(value: T) | Failure(error: Error) {
    predicate IsFailure() {
      Failure?
    }

    function PropagateFailure<U>(): Result<U>
      requires Failure?
    {
      Failure(error)
    }

    function Extract(): T
      requires Success?
    {
      value
    }
  }
}

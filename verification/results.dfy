/** Failure-compatible wrappers for the exceptions the simulator can raise. */
module Results {

  /** The runtime exceptions the Kotlin code can end in. */
  datatype Error =
    | DivideByZero                  // `frameCount / processes.size` with no processes
    | NoProcessForPage(page: int)   // `first { … }` found no process owning the page
    | EmptyRandomRange              // `.random()` on an empty Kotlin range

  datatype Option<+T> = None | Some(value: T)

  datatype Result<+T> = Success(value: T) | Failure(error: Error) {

    predicate IsFailure() {
      Failure?
    }

    function PropagateFailure<U>(): Result<U>
      requires Failure?
    {
      Failure(error)
    }

    function Extract(): T
      requires Success?
    {
      value
    }
  }
}

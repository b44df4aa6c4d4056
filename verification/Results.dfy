// Fallible results, as the library's `Result<T>` with an error message.
module Results {
  datatype Result<+T> = Success(value: T) | Failure(error: string) {
    predicate IsFailure() {
      Failure?
    }

    function PropagateFailure<U>(): Result<U>
      requires Failure?
    {
      Failure(error)
    }

    function Extract(): T
      requires Success?
    {
      value
    }
  }

  datatype Option<+T> = None | Some(value: T) {
    function UnwrapOr(other: T): T {
      if Some? then value else other
    }
  }
}

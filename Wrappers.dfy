/** Optional values, results and the error taxonomy of the filter engine. */
module Wrappers {

  /** A value that may be missing: the model of a .NET reference that may be null. */
  datatype Option<+T> = None | Some(value: T)

  /** The exceptions the engine throws, one constructor per exception class it uses. */
  datatype Error =
    | ArgumentNull(parameter: string)        // ArgumentNullException, naming the argument
    | InvalidArgument(parameter: string)     // ArgumentException
    | InvalidOperation                       // InvalidOperationException
    | NullReference                          // NullReferenceException, from unboxing null
    | FilterNotMapped(filterType: string, entityType: string)
    | FilterPropertyMissingMapping(filterClass: string, properties: seq<string>)

  /** The outcome of an operation that returns a value or throws. */
  datatype Result<+T> = Success(value: T) | Failure(error: Error) {
    predicate IsFailure() { Failure? }

    function PropagateFailure<U>(): Result<U>
      requires Failure?
    {
      Failure(error)
    }

    function Extract(): T
      requires Success?
    {
      value
    }
  }

  /** The outcome of an operation that returns nothing or throws. */
  datatype Outcome = Pass | Fail(error: Error) {
    predicate IsFailure() { Fail? }

    function PropagateFailure(): Outcome
      requires Fail?
    {
      this
    }
  }
}

/**
 * Failure-carrying results shared by every model in this project.
 *
 * The Java sources report failures by throwing unchecked exceptions; the
 * model returns `Err` with the name of the exception class instead.
 */
module Wrappers {

  /** The Java exception classes the modelled code throws. */
  datatype Error =
    | IllegalArgument      // java.lang.IllegalArgumentException
    | NoSuchElement        // java.util.NoSuchElementException
    | IllegalState         // java.lang.IllegalStateException
    | IndexOutOfBounds     // java.lang.ArrayIndexOutOfBoundsException
    | NullPointer          // java.lang.NullPointerException

  datatype Result<+T> = Ok(value: T) | Err(error: Error) {
    predicate IsFailure() {
      Err?
    }

    function PropagateFailure<U>(): Result<U>
      requires Err?
    {
      Err(error)
    }

    function Extract(): T
      requires Ok?
    {
      value
    }
  }

  /** A Java reference that may be `null` (`None`). */
  datatype Option<+T> = None | Some(value: T)
}

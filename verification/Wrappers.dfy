/** Missing cells and failed integrity checks.
    `Option` stands for a table cell that may be empty (NaT or NaN in the
    admissions and notes tables); `Result` stands for a load step that either
    returns its table or stops on one of the integrity assertions. `Result`
    supports Dafny's `:-` operator, so a failed notes check ends the merge
    early, as the raised assertion does. */
module Wrappers {

  datatype Option<+T> = None | Some(value: T)

  datatype Result<+R, +E> = Success(value: R) | Failure(error: E) {

    /** A failed integrity check stops a `:-` chain. */
    predicate IsFailure() {
      Failure?
    }

    /** The same integrity error, retyped for the enclosing load step. */
    function PropagateFailure<U>(): Result<U, E>
      requires Failure?
    {
      Failure(error)
    }

    /** The table a successful step returns. */
    function Extract(): R
      requires Success?
    {
      value
    }
  }
}

/** Failure-compatible wrappers shared by every module of the model:
    `Option` stands for Ruby's `nil`-or-value, `Result` for a computation that
    may raise. */
module Wrappers {

  datatype Option<+T> = None | Some(value: T) {

    predicate IsFailure() {
      None?
    }

    function PropagateFailure<U>(): Option<U>
      requires None?
    {
      None
    }

    function Extract(): T
      requires Some?
    {
      value
    }
  }

  /** The exceptions the modelled code raises: `generate_diff` aborts when a
      row diff reports a column appearing or disappearing; `max_by` fails when
      it compares a file name without a timestamp with one that has a
      timestamp; `JSON.parse` fails on a manifest file that does not hold a
      manifest. */
  datatype Error = RowShapeChanged | Incomparable | MalformedManifest

  datatype Result<+R> = Success(value: R) | Failure(error: Error) {

    predicate IsFailure() {
      Failure?
    }

    function PropagateFailure<U>(): Result<U>
      requires Failure?
    {
      Failure(error)
    }

    function Extract(): R
      requires Success?
    {
      value
    }
  }
}

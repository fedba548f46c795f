/** Failure-compatible wrappers: the model's stand-in for Rust's `Option`,
    `Result` and the abort-on-`panic!` style of the signer. */
module Wrappers {

  datatype Option<+T> = None | Some(value: T)

  datatype Result<+R, +E> = Success(value: R) | Failure(error: E) {
    predicate IsFailure() {
      Failure?
    }

    function PropagateFailure<U>(): Result<U, E>
      requires Failure?
    {
      Failure(error)
    }

    function Extract(): R
      requires Success?
    {
      value
    }
  }

  /** The result of an operation that either completes or aborts with an error. */
  datatype Outcome<+E> = Pass | Fail(error: E)
}

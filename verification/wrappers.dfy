/** Failure-compatible wrappers shared by the whole model: a JavaScript value
    that may be `null`/`undefined` is an `Option`, and an operation that
    reports an error to the user (an `alert` and an early `return`) yields a
    `Result` whose `Failure` names the check that fired. */
module Wrappers {

  datatype Option<+T> = None | Some(value: T) {

    predicate IsFailure() {
      None?
    }

    function PropagateFailure<U>(): Option<U>
      requires None?
    {
      None
    }

    function Extract(): T
      requires Some?
    {
      value
    }

    /** The value, or `default` when absent (JavaScript's `x || default` on a
        value that is never falsy when present). */
    function GetOr(default: T): T {
      match this
      case Some(v) => v
      case None => default
    }
  }

  datatype Result<+R, +E> = Success(value: R) | Failure(error: E) {

    predicate IsFailure() {
      Failure?
    }

    function PropagateFailure<U>(): Result<U, E>
      requires Failure?
    {
      Failure(error)
    }

    function Extract(): R
      requires Success?
    {
      value
    }
  }

  /** Success exactly when `condition` holds; used to write a chain of
      validation checks in which the first failing one wins. */
  datatype Check<+E> = Pass | Fail(error: E) {

    predicate IsFailure() {
      Fail?
    }

    function PropagateFailure<U>(): Result<U, E>
      requires Fail?
    {
      Failure(error)
    }
  }

  function Need<E>(condition: bool, error: E): (r: Check<E>)
    ensures r.Pass? <==> condition
    ensures r.Fail? ==> r.error == error
  {
    if condition then Pass else Fail(error)
  }
}

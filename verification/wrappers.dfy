/** Failure-compatible result types shared by every module of the model.
    A `Fail` carries the message of the exception the source throws. */
module Wrappers {

  datatype Option<+T> = None | Some(value: T) {
    function GetOr(default: T): T {
      match this
      case Some(v) => v
      case None => default
    }
  }

  datatype Result<+T> = Ok(value: T) | Fail(error: string) {
    predicate IsFailure() {
      Fail?
    }

    function PropagateFailure<U>(): Result<U>
      requires Fail?
    {
      Fail(error)
    }

    function Extract(): T
      requires Ok?
    {
      value
    }
  }

  /** The message the model uses for a JavaScript `TypeError` (a property
      read on `null`/`undefined`, a call of a missing method). */
  const TypeErrorMessage: string := "TypeError"
}

/** Failure-carrying datatypes shared by the whole model.
    `Option` stands for a TypeScript `T | null | undefined` value and
    `Result` for a computation that either returns or throws. */
module Wrappers {

  datatype Option<+T> = None | Some(value: T) {

    /** The value, or `default` when absent (the `??` operator). */
    function GetOr(default: T): T {
      match this
      case Some(v) => v
      case None => default
    }
  }

  /** `Throw` carries the message of the `Error` the source raises. */
  datatype Result<+T> = Ok(value: T) | Throw(message: string) {

    predicate IsFailure() {
      Throw?
    }

    function PropagateFailure<U>(): Result<U>
      requires Throw?
    {
      Throw(message)
    }

    function Extract(): T
      requires Ok?
    {
      value
    }
  }
}

/**
 * Option and Result values used by the model in place of JavaScript's
 * `undefined` and thrown errors and of Rust's `Option` and `panic!`.
 */
module Wrappers {

  datatype Option<+T> = None | Some(value: T)

  /** `Fail` carries the message of the error the source throws. */
  datatype Result<+T> = Ok(value: T) | Fail(message: string) {
    predicate IsFailure() { Fail? }

    function PropagateFailure<U>(): Result<U>
      requires Fail?
    {
      Fail(message)
    }

    function Extract(): T
      requires Ok?
    {
      value
    }
  }
}

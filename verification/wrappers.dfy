/** Failure-carrying datatypes shared by every module of the model:
    `Option` for Rust's `Option<T>` and `Result` for `anyhow::Result<T>`. */
module Wrappers {

  /** Rust's `Option<T>`. */
  datatype Option<+T> = None | Some(value: T) {

    /** The encapsulated value, or `default` for `None` (`unwrap_or`). */
    function GetOr(default: T): T
    {
      match this
      case Some(v) => v
      case None => default
    }
  }

  /** Rust's `Result<T, anyhow::Error>`; the error carries a message. */
  datatype Result<+T> = Ok(value: T) | Err(msg: string) {

    predicate IsFailure() {
      Err?
    }

    function PropagateFailure<U>(): Result<U>
      requires Err?
    {
      Err(msg)
    }

    function Extract(): T
      requires Ok?
    {
      value
    }
  }
}

/** Failure-compatible wrappers shared by every module of the model. */
module Wrappers {

  /** An optional value: Rust's `Option`. */
  datatype Option<+T> = None | Some(value: T) {

    /** Returns the carried value, or `default` when there is none. */
    function GetOr(default: T): T {
      match this
      case Some(v) => v
      case None => default
    }

    /** Rust's `Option::or`: this value if present, otherwise `other`. */
    function Or(other: Option<T>): Option<T> {
      if Some? then this else other
    }
  }

  /** A value or an error: Rust's `Result`. */
  datatype Result<+T, +E> = Ok(value: T) | Err(error: E) {

    predicate IsFailure() {
      Err?
    }

    function PropagateFailure<U>(): Result<U, E>
      requires Err?
    {
      Err(error)
    }

    function Extract(): T
      requires Ok?
    {
      value
    }
  }
}

/** Rust's `Option` and `Result`, as failure-compatible datatypes. */
module Wrappers {

  /** Rust's `Option<T>`: `Some(value)` or `None`. */
  datatype Option<+T> = None | Some(value: T)

  /** Rust's `Result<T, E>`; usable with `:-` like Rust's `?` operator. */
  datatype Result<+T, +E> = Success(value: T) | Failure(error: E) {

    predicate IsFailure() {
      Failure?
    }

    function PropagateFailure<U>(): Result<U, E>
      requires Failure?
    {
      Failure(error)
    }

    function Extract(): T
      requires Success?
    {
      value
    }
  }
}

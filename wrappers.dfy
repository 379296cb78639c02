/** Option, Result and the three-way outcome of a call that may also abort the process. */
module Wrappers {

  datatype Option<+T> = None | Some(value: T)

  /** A Rust `Result`: a value or an error returned to the caller. */
  datatype Result<+T, +E> = Ok(value: T) | Err(error: E)

  /** A call that may return a value, return an error, or abort the whole process
      (a Rust `panic!`, `unwrap` or `expect` on a failure). */
  datatype Exit<+T, +E> = Done(value: T) | Fail(error: E) | Panic(cause: E)
}

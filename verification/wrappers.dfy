/** Failure-carrying datatypes shared by the modules of this model:
    `Option` for a value that may be absent (Python's `None`), `Result` for
    an operation that either returns a value or raises an exception. */
module Wrappers {

  datatype Option<+T> = None | Some(value: T)

  datatype Result<+R, +E> = Success(value: R) | Failure(error: E)
}

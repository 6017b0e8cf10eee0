/** Failure-carrying return types shared by every model in this project.
    `Option` stands for a Java reference that may be null; `Result` stands for
    a call that either returns a value or throws the exception named by `E`. */
module Wrappers {

  datatype Option<+T> = None | Some(value: T)

  datatype Result<+T, +E> = Ok(value: T) | Err(error: E) {
    predicate IsFailure() { Err? }
  }
}

/** Small failure-carrying datatypes shared by the other modules. */
module Wrappers {

  datatype Option<+T> = None | Some(value: T)

  /** Outcome of an operation that either yields a value or names what went wrong. */
  datatype Result<+T, +E> = Ok(value: T) | Err(error: E)

  /** The error taxonomy of the framework's `common::result`. */
  datatype ErrorKind = AccessError | DomainError | QueryError | RangeError
}

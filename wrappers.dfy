/** Failure-carrying datatypes: a Java `null` becomes `None`, a thrown
    exception becomes `Err`/`Fail` carrying the exception's kind. */
module Wrappers {

  datatype Option<+T> = None | Some(value: T)

  datatype Result<+T, +E> = Ok(value: T) | Err(error: E)

  /** The outcome of a `void` operation: it returns normally or throws. */
  datatype Outcome<+E> = Pass | Fail(error: E)
}

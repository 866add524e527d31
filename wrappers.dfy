/** Failure-carrying values used in place of Java's null and exceptions. */
module Wrappers {

  /** A value or its absence (a Java reference that may be null). */
  datatype Option<+T> = None | Some(value: T)

  /** A value, or the error that a Java method would have thrown instead. */
  datatype Result<+T, +E> = Ok(value: T) | Err(error: E)
}

/** Null-or-value and value-or-exception wrappers for the Java model. */
module Wrappers {

  /** A value that may be absent: Java's nullable references to values. */
  datatype Option<+T> = None | Some(value: T)

  /** The unchecked exceptions the modelled Java code can raise. */
  datatype Exception = NullPointerException | IndexOutOfBoundsException

  /** The outcome of a Java call: it returns a value or throws. */
  datatype Result<+T> = Ok(value: T) | Err(error: Exception)
}

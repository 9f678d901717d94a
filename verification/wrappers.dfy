/** Option and Result: the model's stand-ins for a Java `null` reference and for
    a method that either returns normally or throws. */
module Wrappers {

  /** A possibly-null reference: `None` plays the role of Java's `null`. */
  datatype Option<+T> = None | Some(value: T)

  /** The outcome of a call that may throw: `Err` carries the exception. */
  datatype Result<+T, +E> = Ok(value: T) | Err(error: E)
}

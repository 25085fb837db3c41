/** Option and Result, used for Java's `null` reads and for code that returns or throws. */
module Wrappers {

  /** `None` stands for a Java `null` read. */
  datatype Option<+T> = None | Some(value: T)

  /** The outcome of running protected code: it returned `value` or threw `error`. */
  datatype Result<+R, +E> = Ok(value: R) | Err(error: E)
}

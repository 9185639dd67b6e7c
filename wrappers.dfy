/** Option and Outcome, the two failure-compatible wrappers the model needs. */
module Wrappers {

  /** A value that may be absent: stands for a Java reference that may be null. */
  datatype Option<+T> = None | Some(value: T)

  /** The result of a `void` operation that may throw: `Pass` when it returns normally,
      `Fail(e)` when it throws `e`. */
  datatype Outcome<+E> = Pass | Fail(error: E)
}

/** Nullable values and call results: wrappers for Java's nullable references and exceptions. */
module Wrappers {

  /** A nullable value: `None` stands for Java's `null`. */
  datatype Option<+T> = None | Some(value: T)

  /** The result of a call that either returns a value or throws. */
  datatype Result<+R, +E> = Success(value: R) | Failure(error: E)

  /** The result of a call that returns nothing or throws. */
  datatype Outcome<+E> = Pass | Fail(error: E)
}

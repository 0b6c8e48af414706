/** Optional values (Java's nullable references) and results (a value or a thrown exception). */
module Wrappers {

  /** `None` stands for Java's `null`. */
  datatype Option<+T> = None | Some(value: T)

  /** `Failure` stands for an exception thrown instead of returning. */
  datatype Result<+R, +E> = Success(value: R) | Failure(error: E)
}

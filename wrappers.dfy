/** The absence and failure values the scraper's model returns. */
module Wrappers {

  /** Python's `None` or a value. */
  datatype Option<+T> = None | Some(value: T)

  /** An operation that either yields a value or raises. */
  datatype Result<+T, +E> = Success(value: T) | Failure(error: E)
}

/** Failure-carrying result types shared by the ELF model. */
module Wrappers {

  /** Python's `None`-or-value returns (translation misses, unmapped reads). */
  datatype Option<+T> = None | Some(value: T)

  /** A value, or the exception the source would raise instead of returning. */
  datatype Result<+T, +E> = Success(value: T) | Failure(error: E)
}

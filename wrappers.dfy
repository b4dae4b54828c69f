/** The two outcome types the tree's operations return. */
module Wrappers {

  /** A value that may be absent: `search` answers `None` when no node holds the sought value. */
  datatype Option<T> = None | Some(value: T)

  /** A computation that either succeeds or fails with an error. */
  datatype Result<T, E> = Success(value: T) | Failure(error: E)
}

/** Optional values, results and a minimum, shared by the other modules. */
module Wrappers {

  datatype Option<+T> = None | Some(value: T)

  /** A value, or the error the source raises instead. */
  datatype Result<+T, +E> = Success(value: T) | Failure(error: E)

  /** min(n, limit) */
  function AtMost(n: int, limit: int): int {
    if n <= limit then n else limit
  }
}

/** Failure-carrying return types used in place of the source's exceptions, and distinctness of a sequence. */
module Wrappers {

  datatype Option<+T> = None | Some(value: T)

  /** A value or the error the source would have raised. */
  datatype Result<+T, +E> = Ok(value: T) | Err(error: E)

  /** The outcome of an operation that returns nothing on success (a Python `-> None`). */
  datatype Outcome<+E> = Pass | Fail(error: E)

  /** No two positions of `s` hold the same element. */
  predicate Distinct<T(==)>(s: seq<T>)
  {
    forall i, j | 0 <= i < j < |s| :: s[i] != s[j]
  }
}

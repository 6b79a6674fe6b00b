/** Option and Result values standing for the source's `Option` and `Result`. */
module Wrappers {
  datatype Option<+T> = None | Some(value: T)

  datatype Result<+T, +E> = Ok(value: T) | Err(error: E)

  /** How an insertion ended: a new entry, a replaced value, or an unwind out of a rebuild
      (a panicking hasher or an unrepresentable growth) before the key was placed. */
  datatype Inserted<V> = New | Replaced(previous: V) | Unwound
}

/** Wrappers used throughout the model: an optional value and
    a value-or-error result (Go's `(T, error)` return pairs). */
module Wrappers {

  /** A value that may be absent; `None` plays the role of Go's `nil`. */
  datatype Option<+T> = None | Some(value: T)

  /** Either a value or an error message. */
  datatype Result<+R, +E> = Ok(value: R) | Err(error: E)
}

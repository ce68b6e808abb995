/** Failure outcomes of the tree operations, standing in for the two
    exception classes the collections throw. */
module Failures {

  /** The two failure kinds: an operation that needs an element was called on
      an empty collection, or a search or removal target is absent. */
  datatype Error = EmptyCollection | ElementNotFound

  /** Either a value or the failure that stopped the operation. */
  datatype Result<T> = Ok(value: T) | Err(error: Error)

  /** An operation without a value that either finishes or fails. */
  datatype Outcome = Pass | Fail(error: Error)

  /** A value that may be absent (a null reference in the source). */
  datatype Option<T> = None | Some(value: T)
}

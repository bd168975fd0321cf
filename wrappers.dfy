/** Outcomes of the heap's partial operations. */
module Wrappers {

  /** A value that may be missing: `undefined` in the JavaScript heap. */
  datatype Option<+T> = None | Some(value: T)

  /** A value, or the thrown error's argument (the offending key). */
  datatype Result<+R, +E> = Success(value: R) | Failure(error: E)
}

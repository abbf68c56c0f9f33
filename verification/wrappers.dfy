/** Failure-compatible result types shared by every handler of the model. */
module Wrappers {

  /** A value that may be missing, as JavaScript's `find` returning `undefined`. */
  datatype Option<+T> = None | Some(value: T)

  /** The outcome of a form handler: either the collection it writes back to
      the store, or the error it reports instead of writing anything. */
  datatype Result<+T, +E> = Success(value: T) | Failure(error: E)
}

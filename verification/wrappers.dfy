/** Optional values and fallible outcomes shared by the cursor and drain models. */
module Wrappers {

  /** What an iterator step hands back: an item, or nothing once exhausted. */
  datatype Option<+T> = None | Some(value: T)

  /** The outcome of an operation that can fault on a precondition violation. */
  datatype Result<+R, +E> = Success(value: R) | Failure(error: E)
}

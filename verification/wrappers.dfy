/** Optional values and results, used for absent page elements and for the
    errors that end a card or a whole run. */
module Wrappers {

  datatype Option<+T> = None | Some(value: T)

  datatype Result<+R, +E> = Success(value: R) | Failure(error: E)
}

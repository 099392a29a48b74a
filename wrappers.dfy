/** Optional values and success-or-error results, used wherever the modelled
    JavaScript yields `undefined`/`null` or throws an `Error`. */
module Wrappers {

  datatype Option<+T> = None | Some(value: T)

  datatype Result<+R, +E> = Success(value: R) | Failure(error: E)
}

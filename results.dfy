/** Optional values and failure-carrying results, used for JavaScript's
    `undefined` and for exceptions that escape an operation. */
module Results {

  datatype Option<+T> = None | Some(value: T)

  datatype Result<+R, +E> = Success(value: R) | Failure(error: E)
}

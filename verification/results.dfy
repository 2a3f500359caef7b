/** Optional values and fallible results, used in place of Python's `None`
    and of the exceptions the script lets escape. */
module Results {

  datatype Option<+T> = None | Some(value: T)

  datatype Result<+T, +E> = Success(value: T) | Failure(error: E)
}

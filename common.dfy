/** Optional values (Java's null / Optional) and results (a value or the error a caller sees). */
module Common {

  datatype Option<+T> = None | Some(value: T)

  datatype Result<+R, +E> = Success(value: R) | Failure(error: E)
}

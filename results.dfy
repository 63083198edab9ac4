/** Option (a JavaScript value that may be `undefined`) and Result (a value or a thrown error message). */
module Results {

  datatype Option<+T> = None | Some(value: T)

  datatype Result<+T, +E> = Success(value: T) | Failure(error: E)
}

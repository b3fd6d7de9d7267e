/** Option and Result wrappers used for every fallible step of the model. */
module Results {

  datatype Option<+T> = None | Some(value: T)

  /** Either a value or an error; the model's stand-in for a raised exception. */
  datatype Result<+R, +E> = Success(value: R) | Failure(error: E)
}

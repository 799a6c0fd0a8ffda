/**
 * Optional values and success-or-error values. The report scripts signal a
 * missing value by returning nothing and an error by raising an exception;
 * the model returns these instead.
 */
module Results {

  datatype Option<+T> = None | Some(value: T)

  datatype Result<+T, +E> = Success(value: T) | Failure(error: E)
}

/** How the model says "no value" (Python's `None`) and "raised instead of returning". */
module Outcomes {

  datatype Option<+T> = None | Some(value: T)

  datatype Result<+T, +E> = Success(value: T) | Failure(error: E)
}

/// Option and Result, the two failure-carrying datatypes the model uses in
/// place of Python's `None` defaults and raised exceptions.
module Wrappers {

  datatype Option<+T> = None | Some(value: T)

  datatype Result<+T, +E> = Success(value: T) | Failure(error: E)
}

/** Optional values and success-or-error values, used wherever the Python
    code returns `None` or raises an exception. */
module Wrappers {

  datatype Option<+T> = None | Some(value: T)

  /** `Failure` stands for a Python exception; `error` describes it. */
  datatype Result<+T, +E> = Success(value: T) | Failure(error: E)
}

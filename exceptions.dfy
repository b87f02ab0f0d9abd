/** The C++ exceptions the modelled code throws, and the values that stand
    for "returned normally" or "threw" in the model. */
module Exceptions {

  /** std::length_error, std::out_of_range, std::runtime_error and
      std::system_error. */
  datatype Error = LengthError | OutOfRange | RuntimeError | SystemError

  /** Outcome of an operation that returns nothing in C++. */
  datatype Outcome = Pass | Fail(error: Error)

  /** Outcome of an operation that returns a value in C++. */
  datatype Result<T> = Ok(value: T) | Err(error: Error)
}

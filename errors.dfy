/** Failure-carrying result types shared by every module of the model.
    The error kinds are the Python exception classes the reading and
    writing entry points raise. */
module Errors {

  /** Exception classes raised by the modelled code, and by the HDF5 store
      operations it calls (`TypeError` for a write whose shape does not fit,
      `OSError` for a link onto an existing name). */
  datatype Error =
    | NotImplementedError
    | ValueError
    | AssertionError
    | KeyError
    | AttributeError
    | TypeError
    | OSError

  datatype Option<T> = None | Some(value: T)

  /** The value of a call that either returns or raises. */
  datatype Result<T> = Success(value: T) | Failure(error: Error)

  /** The value of a call that returns nothing or raises. */
  datatype Outcome = Pass | Fail(error: Error)
}

/** Failure-carrying wrappers shared by every module of the model.
    The Python code signals "no value" with `None` and failures with exceptions;
    the model turns both into values of these two datatypes. */
module Common {

  /** `None` / a value, as Python's `Optional`. */
  datatype Option<T> = None | Some(value: T)

  /** An operation that either produced a value or raised an exception. */
  datatype Result<T> = Ok(value: T) | Err(msg: string)
}

/** Failure-carrying values used where the Python code returns None or raises. */
module Wrappers {

  datatype Option<+T> = None | Some(value: T)

  /** The exception kinds the modelled code raises. */
  datatype Error =
    | ValueError
    | IntegrityError
    | IndexError
    | ValidationError
    | HttpError(status: int)
    /** The finite supply of random draws ran out before a free identifier came up
        (the source keeps drawing). */
    | DrawsExhausted

  datatype Result<+T> = Success(value: T) | Failure(error: Error)

  /** A check that either passes or raises. */
  datatype Outcome = Pass | Fail(error: Error)
}

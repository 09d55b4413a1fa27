/** Failure-carrying results shared by the two entity modules. A thrown `Error`
    in the source becomes a `Failure` carrying the same message. */
module Common {

  datatype Option<+T> = None | Some(value: T)

  datatype Result<+R, +E> = Success(value: R) | Failure(error: E)

  /** The one error kind of the domain layer: a plain `Error` with a message. */
  datatype ValidationError = ValidationError(message: string)
}

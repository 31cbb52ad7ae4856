/** The error codes of `include/securekit/error.hpp` and the values that carry them. */
module Errors {

  /** `securekit::error_code`. */
  datatype ErrorCode =
    | InvalidInput
    | InvalidEncoding
    | InvalidPacket
    | AuthenticationFailed
    | BackendFailure

  datatype Option<+T> = None | Some(value: T)

  /** A value, or the code of the exception thrown instead of it. */
  datatype Result<+T> = Ok(value: T) | Err(error: ErrorCode)

  /** How a call without a return value ended. */
  datatype Outcome = Done | Thrown(error: ErrorCode)
}

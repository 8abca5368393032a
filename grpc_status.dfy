/**
 * The error vocabulary of the gRPC handlers: a status code with its message,
 * and the runtime panics the Go code can raise. Every operation of the model
 * ends in one of the three shapes of `Outcome`.
 */
module Grpc {

  /** The status codes the service reports (google.golang.org/grpc/codes). */
  datatype Code = InvalidArgument | NotFound | Internal

  /** A gRPC status as built by status.Error / status.Errorf. */
  datatype Status = Status(code: Code, message: string)

  /** A Go runtime panic, which ends the whole process instead of returning. */
  datatype Crash =
    | NotAnObject(key: string)   // failed single-value type assertion to map[string]interface{}
    | NilErrorDereference         // err.Error() called on a nil error

  /** What a Go call does: returns a value, returns an error status, or panics. */
  datatype Outcome<+T> = Ok(value: T) | Err(status: Status) | Panicked(crash: Crash)
}

/** The closed set of semantic error kinds that the package's predicates
    (IsInvalidArgument, IsNotFound, ...) recognise. */
module Kinds {

  datatype Kind =
    | InvalidArgument
    | NotFound
    | AlreadyExists
    | FailedPrecondition
    | Conflict
    | NotModified
    | Unavailable
    | NotImplemented
    | Canceled
    | DeadlineExceeded
    | Unauthorized
    | PermissionDenied
    | Internal
    | DataLoss
    | Aborted
    | OutOfRange
    | ResourceExhausted
    | Unknown
}

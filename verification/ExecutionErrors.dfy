/** The error codes an execution host reports. */
module ExecutionErrors {
  datatype ErrorCode =
    | InvalidPath
    | RootNotFound
    | ReadOnlyRoot
    | PathOutsideRoot
    | NotFound
    | AlreadyExists
    | IsADirectory
    | NotADirectory
    | InvalidRequest
    | RevisionConflict
    | ResourceExhausted
    | ExecutionLost
    | OperationConflict
    | Io
    | Cancelled
    | DeadlineExceeded
}

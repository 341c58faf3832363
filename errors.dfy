/** The store's exceptions: DataException's four subclasses and the bare
    `Exception`s raised for programmer errors. */
module Errors {

  /** What an InvalidInput complains about. */
  datatype Problem =
    | MissingPrimary(field: string)
    | MissingRequired(field: string)
    | UnknownField(field: string)

  /** The conditions that raise a bare `Exception`. */
  datatype Fault =
    | ProtectedSalt    // a caller supplied the protected `_salt` field
    | Rename           // edit was asked to change the primary value
    | NotTestMode      // clear_test_data outside test mode

  datatype Error =
    | InvalidInput(problem: Problem)
    | AlreadyExists
    | DoesNotExist
    | Ambigious          // the source's own spelling
    | Fatal(fault: Fault)

  datatype Result<+T> = Success(value: T) | Failure(error: Error)
}

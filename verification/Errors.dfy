/** The result codes of the modelled operations. */
module Errors {
  datatype Error =
    | Success
    | NullPointer
    | InvalidArgument
    | InvalidState
    | InUse
    | NotOwner
    | OutOfMemory
    | Overflow
    | Underflow
    | Again
    | Shutdown
    | CannotFind
    | CannotParse
    | UniquenessViolation
}

/** Option and Result values used for the tool's failure paths (missing files,
    malformed input, exceptions that end a command). */
module Wrappers {

  datatype Option<+T> = None | Some(value: T)

  datatype Result<+T, +E> = Success(value: T) | Failure(error: E)
}

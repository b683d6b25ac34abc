/** The ways an operation throws `pgen::exception`. */
module Exceptions {
  datatype Exception =
    | BufferTooSmall
    | WrongBlockType
    | LengthsDiffer
    | LengthError
    | EndOfFile
    | FileError
    | UnknownMode
    | NotImplemented
    | BadIndex
    | FormatError

  /** Of an operation without a value. */
  datatype Outcome = Pass | Fail(error: Exception)

  datatype Result<+T> = Ok(value: T) | Err(error: Exception)
}

/**
 Failure-carrying values shared by the model: `Option` for the nullable references
 of the C# code, `Result` for operations that may throw, and `Exception` for the
 exceptions the modelled code raises.
 */
module Wrappers {

  datatype Option<+T> = None | Some(value: T)

  datatype Result<+R, +E> = Success(value: R) | Failure(error: E)

  /**
   The exceptions thrown by the modelled code: the two argument exceptions carry the parameter
   name; `InvalidBase` carries the character that is not a base, standing for the
   `ArgumentException("Invalid base: " + dnaBase)` of the complement switch.
   */
  datatype Exception =
    | ArgumentOutOfRange(paramName: string)
    | ArgumentNull(paramName: string)
    | InvalidBase(base: char)
}

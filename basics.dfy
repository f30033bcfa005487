/** Small value wrappers shared by the other modules. */
module Basics {

  /** PHP's `null` or a value. */
  datatype Option<T> = None | Some(value: T) {
    function GetOr(default: T): T {
      if Some? then value else default
    }
  }

  /** The exceptions that the modelled operations throw. */
  datatype Error =
    | UnknownFormat      // fix_syntax: unsupported (format, from) pair
    | DuplicateString    // add_string without force on an existing id
    | BadArgument        // rebase: $deletemissing is not a boolean

  /** A value, or the exception that was thrown instead. */
  datatype Result<T> = Success(value: T) | Failure(error: Error)

  /** The outcome of an operation that returns nothing: normal return, or the exception thrown. */
  datatype Outcome = Ok | Fail(error: Error)
}

/** Option, the exceptions the client can raise, and a Result type that can
    be used with `:-`.  Every C++ exception of the marshalling layer becomes
    an `Err` carrying one of the `Error` cases below. */
module Wrappers {

  datatype Option<+T> = None | Some(value: T) {

    predicate IsFailure() {
      None?
    }

    function PropagateFailure<U>(): Option<U>
      requires None?
    {
      None
    }

    function Extract(): T
      requires Some?
    {
      value
    }
  }

  /** The exceptions raised by the client, grouped by what a caller can tell apart. */
  datatype Error =
    /** an xmlrpc_c::value converted to the wrong type, or an absent struct
        member read through `operator[]` (an uninstantiated value) */
    | TypeMismatch
    /** std::stoi found no digits */
    | InvalidArgument
    /** std::stoi overflowed `int`, or std::map::at missed its key */
    | OutOfRange
    /** SubtleException raised on a non-OK status, carrying the status message */
    | SubtleException(message: string)

  datatype Result<+T> = Ok(value: T) | Err(error: Error) {

    predicate IsFailure() {
      Err?
    }

    function PropagateFailure<U>(): Result<U>
      requires Err?
    {
      Err(error)
    }

    function Extract(): T
      requires Ok?
    {
      value
    }
  }
}

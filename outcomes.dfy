/** Results and the exception taxonomy of the file manager. */
module Outcomes {

  datatype Option<+T> = None | Some(value: T)

  /** The exception classes the PHP code throws. */
  datatype ErrorKind =
    | StorageFailure    // StorageException
    | InvalidRequest    // InvalidRequestException
    | AccessForbidden   // AccessForbiddenException
    | InvalidArgument   // \InvalidArgumentException
    | RuntimeFailure    // \RuntimeException
    | ValueFailure      // \ValueError, raised by PHP built-ins on bad argument values
    | TypeFailure       // \TypeError, raised by PHP built-ins on arguments of the wrong type

  datatype Error = Error(kind: ErrorKind, message: string)

  /** The value of a call that either returns or throws. */
  datatype Result<+T> = Ok(value: T) | Fail(error: Error)

  /** The value of a `void` call that either returns or throws. */
  datatype Outcome = Pass | Throw(error: Error)

  /** `'"' . $s . '"'` */
  function Quote(s: string): (r: string)
    ensures |r| == |s| + 2 && r[0] == '"' && r[|r| - 1] == '"' && r[1..|r| - 1] == s
  {
    "\"" + s + "\""
  }
}

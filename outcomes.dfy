/** Failure-compatible wrappers and the errors the object model can raise. */
module Outcomes {

  datatype Option<+T> = None | Some(value: T)

  /** The exceptions the Python code raises, one constructor per distinct cause. */
  datatype Error =
    | MissingPath            // ValueError from a constructor given no path
    | FileNotFound           // FileNotFoundError: the path is not a (regular) file / does not exist
    | EmptyFile              // ValueError from validate_file: the file has no bytes
    | NotADirectory          // NotADirectoryError: a directory was expected
    | MalformedHeader        // ValueError: header not two fields, or length not an integer
    | WrongKind(found: string) // AssertionError: the header's tag is not the expected kind
    | LengthMismatch         // AssertionError: declared length differs from the body's
    | NotAscii               // UnicodeError: text or bytes outside ASCII
    | MissingField(key: string) // KeyError: a required commit field is absent
    | MalformedHead          // IndexError: HEAD holds fewer than two fields

  datatype Result<+T> = Success(value: T) | Failure(error: Error) {
    predicate IsFailure() { Failure? }

    function PropagateFailure<U>(): Result<U>
      requires Failure?
    {
      Failure(error)
    }

    function Extract(): T
      requires Success?
    {
      value
    }
  }
}

/** Failure-compatible result types shared by every module of the model. */
module Wrappers {

  /** A value that may be absent: Go's nil pointer or nil interface. */
  datatype Option<+T> = None | Some(value: T) {
    predicate IsFailure() { None? }

    function PropagateFailure<U>(): Option<U>
      requires None?
    {
      None
    }

    function Extract(): T
      requires Some?
    {
      value
    }
  }

  /** The `(value, error)` pair a Go function returns, as a sum. */
  datatype Result<+T, +E> = Ok(value: T) | Err(error: E) {
    predicate IsFailure() { Err? }

    function PropagateFailure<U>(): Result<U, E>
      requires Err?
    {
      Err(error)
    }

    function Extract(): T
      requires Ok?
    {
      value
    }
  }
}

/** The failures the lance packages report, one constructor per kind of cause. */
module Errors {

  datatype Error =
      /** `ValidateMagicNumber` rejected the value. */
    | BadMagic(magic: int)
      /** `ValidateVersion`: below `MinSupportedVersion`. */
    | VersionTooOld(version: int)
      /** `ValidateVersion`: above `CurrentVersion`. */
    | VersionTooNew(version: int)
      /** Any other `fmt.Errorf` validation failure, named by its cause. */
    | Invalid(reason: string)
      /** `io.EOF` / `io.ErrUnexpectedEOF` from a read that ran out of bytes. */
    | ShortRead
      /** A Go runtime panic (negative `make` size, failed type assertion). */
    | Panic(reason: string)
      /** `format.FileError{Op, Err}`. */
    | FileError(op: string, cause: Error)
      /** An error wrapped with `%w` by the column package. */
    | Context(what: string, cause: Error)
}

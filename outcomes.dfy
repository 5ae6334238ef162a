/** Failure-carrying values shared by the whole model.

    The server is written in a language with exceptions; a call that raises is
    modelled as a function or method that returns `Raise(e)` instead of a value.
    Only the exception classes the engine can actually raise are listed. */
module Outcomes {

  datatype Option<+T> = None | Some(value: T)

  /** The Python exception classes the request/response engine can raise. */
  datatype Exception =
    | ValueError          // bad unpacking, `int()` on a non-number, a malformed URL
    | OverflowError       // a `recv` size beyond the platform's `ssize_t`
    | UnicodeDecodeError  // `bytes.decode("utf-8")` or a text-mode read on invalid UTF-8
    | TypeError           // `build()` before `set_status()` (None + str)
    | FileNotFoundError   // `open()` on a path that does not exist
    | IsADirectoryError   // `open()` on a directory

  datatype Result<+T> = Ok(value: T) | Raise(exc: Exception)
}

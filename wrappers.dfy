/** Option and Result values, and the error taxonomy raised by the server adapter. */
module Wrappers {

  /** A Python value that may be `None`. */
  datatype Option<+T> = None | Some(value: T)

  /** The outcome of a call that either returns a value or raises. */
  datatype Result<+R, +E> = Success(value: R) | Failure(error: E)

  /** The outcome of a call that returns nothing useful or raises. */
  datatype Outcome<+E> = Pass | Fail(error: E)

  /** Python truthiness of an optional string: `None` and `""` are both false. */
  predicate Truthy(o: Option<string>)
  {
    o.Some? && o.value != ""
  }

  /** The exceptions the adapter raises (libtmux.exc and the Python builtins it lets escape). */
  datatype Error =
    | ValueError(message: string)              // unsupported colour depth, raised before spawning
    | LibTmuxException(stderr: seq<string>)    // tmux wrote to stderr
    | TmuxSessionExists(message: string)       // new_session on a live name without kill_session
    | BadSessionName(name: Option<string>)     // session_check_name rejected the name
    | KeyError(key: string)                    // a dict lookup of a missing key
    | IndexError                               // `stdout[0]` on an empty listing
}

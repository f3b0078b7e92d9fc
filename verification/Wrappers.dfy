/** The optional value and the "returned or threw" result that every module here shares. */
module Wrappers {
  datatype Option<+T> = None | Some(value: T)

  /** What a C++ call hands back: a value, or the exception that left it. */
  datatype Outcome<+T, +E> = Ok(value: T) | Throw(error: E)
}

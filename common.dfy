/** Failure-carrying values shared by every layer of the bot: a lookup that may
    find nothing, and an operation that either yields a value or raises. */
module Common {

  datatype Option<+T> = None | Some(value: T)

  /** A call that returns `value` or raises `error` (a Python exception). */
  datatype Result<+T, +E> = Ok(value: T) | Err(error: E)

  /** A call that returns nothing useful or raises `error`. */
  datatype Outcome<+E> = Pass | Fail(error: E)
}

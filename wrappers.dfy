/** The two failure-carrying shapes the model uses: `Option` for a value that may be
    missing (a feed field, a classifier reply, a JSON key), `Result` for a step that
    either produces a value or raises. */
module Wrappers {
  datatype Option<+T> = None | Some(value: T)

  datatype Result<+T, +E> = Ok(value: T) | Err(error: E)
}

/** Option and Result, used for the lexer's optional values and its error path. */
module Wrappers {

  datatype Option<+T> = None | Some(value: T)

  /** Mirrors the crate's `Result<T, LexerError>`. */
  datatype Result<+T, +E> = Ok(value: T) | Err(error: E)
}

/** The optional values and results shared by the splitter, the formatter and the parser. */
module Wrappers {

  datatype Option<+T> = None | Some(value: T)

  /** The value of a Rust `Result`: a success value or an error value. */
  datatype Result<+T, +E> = Success(value: T) | Failure(error: E)
}

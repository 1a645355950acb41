/** Option and Result values shared by the record model and the page parser. */
module Wrappers {

  /** A value that may be absent: Python's `Optional[...]`. */
  datatype Option<+T> = None | Some(value: T)

  /** The outcome of a step that may fail. A failure stands for a raised
      exception (a failed `assert` in the parser) and carries its cause. */
  datatype Result<+T, +E> = Ok(value: T) | Err(error: E)
}

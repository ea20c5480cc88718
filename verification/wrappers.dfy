/** Failure-carrying result types used by the operand parsers and the line parser. */
module Wrappers {

  /** A value that may be absent; the assembler's `None` returns. */
  datatype Option<+T> = None | Some(value: T)

  /** Either a parsed value or the error the source would raise. */
  datatype Result<+R, +E> = Success(value: R) | Failure(error: E)
}

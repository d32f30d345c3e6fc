/** Option and Result datatypes shared by the other modules. */
module Wrappers {

  /** An optional value: the source's `Optional[...]` / `None`. */
  datatype Option<+T> = None | Some(value: T)

  /** Either a value or the error that was raised instead. */
  datatype Result<+R, +E> = Success(value: R) | Failure(error: E)
}

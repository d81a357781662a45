/** Small failure-carrying wrapper shared by the other modules. */
module Wrappers {

  /** A value that may be missing (`None`), used for an operation that throws. */
  datatype Option<+T> = None | Some(value: T)
}

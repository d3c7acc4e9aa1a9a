/** Types shared by the modules. */
module Wrappers {
  /** An optional value: a nullable COM pointer, or the outcome of a search. */
  datatype Option<+T> = None | Some(value: T)

  /** UCHAR */
  type Byte = b: int | 0 <= b < 256
}

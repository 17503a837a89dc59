/** Types of every part. */
module Wrappers {
  /** A value or its absence, for the source's null pointers. */
  datatype Option<+T> = None | Some(value: T)

  type Byte = b: nat | b < 256
}

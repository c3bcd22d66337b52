/** What the models share: a C pointer or table index that may be absent, bytes, and the width of a __u32. */
module Prelude {
  datatype Option<+T> = None | Some(value: T)

  type Byte = b: int | 0 <= b < 256

  const U32: nat := 0x1_0000_0000
}

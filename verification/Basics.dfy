/** Value types shared by every module: optional values and the fixed-width
    unsigned integers of the wire formats. */
module Basics {
  datatype Option<+T> = None | Some(value: T)

  type byte = b: int | 0 <= b < 0x100
  type u16 = v: int | 0 <= v < 0x1_0000
  type u32 = v: int | 0 <= v < 0x1_0000_0000
  type u64 = v: int | 0 <= v < 0x1_0000_0000_0000_0000

  type Bytes = seq<byte>

  /** Port numbers start at one. */
  type PortId = p: int | 1 <= p <= 0xFFFF witness 1
}

/** Values shared by the models of the C files. */
module Bytes {

  type Byte = x: int | 0 <= x < 0x100
  type Word = x: int | 0 <= x < 0x1_0000

  /** `htons` on a little-endian host. */
  function Swap(w: Word): Word {
    var low: int, high: int := w % 0x100, w / 0x100;
    low * 0x100 + high
  }

  datatype Option<+T> = None | Some(value: T)
}

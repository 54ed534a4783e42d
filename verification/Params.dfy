/** What several parts of the kernel share: the sizes of param.h, machine words and bytes, and
    the usual option type. */
module Params {
  const MAXOPBLOCKS := 10
  const LOGSIZE := MAXOPBLOCKS * 3
  const NBUF := MAXOPBLOCKS * 3
  const UINT_LIMIT := 0x1_0000_0000

  type Byte = x: int | 0 <= x < 256

  datatype Option<+T> = None | Some(value: T)
}

/** Machine bytes, and the control characters the kernel treats specially. */
module Bytes {
  type byte = x: int | 0 <= x < 256

  const NUL: byte := 0
  const BACKSPACE: byte := 8
  const TAB: byte := 9
  const NEWLINE: byte := 10
  const RETURN: byte := 13
  const SPACE: byte := 32
  const DELETE: byte := 127
}

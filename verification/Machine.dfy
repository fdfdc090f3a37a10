/** Fixed-width integers of the i386 target, shared by all modules. */
module Machine {
  const TWO_32 := 0x1_0000_0000

  type u32 = x: int | 0 <= x < TWO_32

  type byte = x: int | 0 <= x < 256

  /** The little-endian word of four bytes. */
  function Word(b0: byte, b1: byte, b2: byte, b3: byte): u32 {
    b0 + 0x100 * b1 + 0x1_0000 * b2 + 0x100_0000 * b3
  }

  datatype Option<+T> = None | Some(value: T)
}

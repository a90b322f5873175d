/** Bytes and 32-bit words as numbers. */
module Machine {
  const WORD: nat := 0x1_0000_0000

  type Word = x: nat | x < 0x1_0000_0000

  type Byte = x: nat | x < 256

  /** A machine word as its bits, least significant first; its length is its width. */
  type Bits = seq<bool>
}

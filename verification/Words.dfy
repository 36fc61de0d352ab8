/** The integer widths of the sources. */
module Words {
  const WORD: nat := 0x1_0000_0000

  type u32 = x: nat | x < 0x1_0000_0000
  type u64 = x: nat | x < 0x1_0000_0000_0000_0000
  type u96 = x: nat | x < 0x1_0000_0000_0000_0000_0000_0000
}

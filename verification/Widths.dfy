/** The ranges of the machine's unsigned integers. */
module Widths {

  const TWO32: nat := 0x1_0000_0000
  const TWO64: nat := 0x1_0000_0000_0000_0000
}

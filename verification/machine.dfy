/** The page size and the width of addresses and file offsets. */
module Machine {
  const PAGE: nat := 0x1000
  const WORD: nat := 0x1_0000_0000
}

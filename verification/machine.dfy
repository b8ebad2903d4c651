/** The page size and the word size of the machine. */
module Machine {
  const PAGE := 4096
  const WORD := 0x1_0000_0000_0000_0000
}

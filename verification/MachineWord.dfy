/** The width of the machine words that addresses, counters and times are kept in. */
module MachineWord {
  const WORD: nat := 0x1_0000_0000
}

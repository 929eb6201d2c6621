/** Sizes the processor fixes. */
module Architecture {
  const WORD: nat := 0x1_0000_0000_0000_0000
  const PAGE: nat := 4096
}

/** Machine-word arithmetic shared by the analysis passes. */
module Machine {

  /** `duint` and `size_t` on the 64-bit build: arithmetic on them wraps
      modulo 2^64. */
  const Word: nat := 0x1_0000_0000_0000_0000
}

/** Word sizes and fixed addresses that several components share. */
module Machine {

  const WORD: nat := 0x1_0000_0000_0000_0000
  const UINT32: nat := 0x1_0000_0000

  /** The region user code is loaded into and may touch. */
  const USER_START: nat := 0x20_0000
  const USER_END: nat := 0x40_0000

  /** A 64-bit sum that overflows at most once. */
  lemma WrappedSum(x: nat)
    requires x < 2 * WORD
    ensures x % WORD == if x < WORD then x else x - WORD
  {
  }
}

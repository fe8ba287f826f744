/** The machine-integer range the source's counters and codes live in. */
module Words {

  /** One past u32::MAX. */
  const U32_LIMIT: nat := 0x1_0000_0000

  /** A Rust `u32`. */
  type U32 = x: nat | x < U32_LIMIT
}

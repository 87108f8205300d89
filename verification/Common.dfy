/** Machine integers, keys and the usual result types. */
module Common {
  const U32_SIZE: nat := 0x1_0000_0000
  const U64_SIZE: nat := 0x1_0000_0000_0000_0000
  const U64_MAX: nat := U64_SIZE - 1
  const U128_SIZE: nat := U64_SIZE * U64_SIZE

  type u8 = x: nat | x < 256
  type u32 = x: nat | x < U32_SIZE
  type u64 = x: nat | x < U64_SIZE
  type u128 = x: nat | x < U128_SIZE

  /** A 32-byte key. Keys are compared byte by byte from the front, which is the order of
      the big-endian number the bytes spell; nothing else about a key is ever used. */
  type Pubkey = k: nat | k < U128_SIZE * U128_SIZE

  datatype Option<+T> = None | Some(value: T)

  datatype Result<+T, +E> = Ok(value: T) | Err(error: E)

  function Min(a: int, b: int): int {
    if a <= b then a else b
  }
}

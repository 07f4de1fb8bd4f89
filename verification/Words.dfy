/** Fixed-width machine words, as ranges of the unbounded integers, and other small shared definitions. */
module Words {

  datatype Option<+T> = None | Some(value: T)

  type Byte = x: int | 0 <= x < 0x100
  type U16 = x: int | 0 <= x < 0x1_0000
  type U32 = x: int | 0 <= x < 0x1_0000_0000
  type U64 = x: int | 0 <= x < 0x1_0000_0000_0000_0000

  /** Keep the low 16 bits (conversion to uint16_t). */
  function Low16(x: int): U16 {
    x % 0x1_0000
  }

  /** Keep the low 32 bits (conversion to uint32_t). */
  function Low32(x: int): U32 {
    x % 0x1_0000_0000
  }

  /** Keep the low 64 bits (conversion to uint64_t or size_t). */
  function Low64(x: int): U64 {
    x % 0x1_0000_0000_0000_0000
  }

  /** Subtraction of 32-bit unsigned numbers. */
  function Sub32(a: U32, b: U32): U32 {
    if a >= b then a - b else a - b + 0x1_0000_0000
  }

  /** Addition of 64-bit unsigned numbers. */
  function Add64(a: U64, b: U64): U64 {
    if a + b < 0x1_0000_0000_0000_0000 then a + b else a + b - 0x1_0000_0000_0000_0000
  }

  /** Subtraction of 64-bit unsigned numbers. */
  function Sub64(a: U64, b: U64): U64 {
    if a >= b then a - b else a - b + 0x1_0000_0000_0000_0000
  }

  function Pow2(n: nat): nat {
    if n == 0 then 1 else 2 * Pow2(n - 1)
  }

  function Min(a: int, b: int): int {
    if a <= b then a else b
  }

  function Max(a: int, b: int): int {
    if a >= b then a else b
  }
}

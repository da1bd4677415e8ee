/** Machine integer ranges and the optional value used throughout the model. */
module Common {

  /** C's `uint32_t`. */
  type u32 = x: int | 0 <= x < 0x1_0000_0000

  /** C's `uint64_t`. */
  type u64 = x: int | 0 <= x < 0x1_0000_0000_0000_0000

  /** C's `int32_t` (`LogSeverity`, the level fields of the settings). */
  type i32 = x: int | -0x8000_0000 <= x < 0x8000_0000

  const U64_MOD: int := 0x1_0000_0000_0000_0000

  /** A C pointer that may be null. */
  datatype Option<T> = None | Some(value: T)

  function Min(a: int, b: int): int { if a < b then a else b }

  function Max(a: int, b: int): int { if a < b then b else a }
}

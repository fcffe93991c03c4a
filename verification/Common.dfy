/** Small things that several components use. */
module Common {
  datatype Option<T> = None | Some(value: T)

  const TWO32: nat := 0x1_0000_0000
  const TWO64: nat := 0x1_0000_0000_0000_0000
  const UINT64_MAX: nat := TWO64 - 1

  function Max(a: int, b: int): int { if a >= b then a else b }
}

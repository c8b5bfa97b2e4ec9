/** Bytes, and the larger and smaller of two numbers. */
module Numbers {
  newtype byte = x: int | 0 <= x < 256

  function Max(a: real, b: real): real {
    if a < b then b else a
  }

  function Min(a: real, b: real): real {
    if a < b then a else b
  }

  function MinInt(a: int, b: int): int {
    if a < b then a else b
  }
}

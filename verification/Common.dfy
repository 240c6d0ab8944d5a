/** What all modules share: optional values, the smaller and the larger of two numbers, and the word size. */
module Common {
  datatype Option<+T> = None | Some(value: T)

  /** The number of values of size_t. */
  const WORD := 0x1_0000_0000_0000_0000

  function Abs(r: real): real { if r < 0.0 then -r else r }

  function Min(a: int, b: int): int { if a <= b then a else b }

  function Max(a: int, b: int): int { if a <= b then b else a }
}

/** Small notions that several components share. */
module Common {

  datatype Option<+T> = None | Some(value: T)

  type Byte = x: int | 0 <= x < 256

  function Max(a: int, b: int): int { if a < b then b else a }

  function Min(a: int, b: int): int { if a < b then a else b }

  /** One for true, to count with. */
  function B(p: bool): nat { if p then 1 else 0 }
}

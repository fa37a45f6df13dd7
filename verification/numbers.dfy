/** Numbers shared by the models. */
module Numbers {
  type byte = x: int | 0 <= x < 256

  /** The range of a 16-bit counter. */
  const U16 := 65536

  function Abs(v: int): nat { if v < 0 then -v else v }

  function Min(a: int, b: int): int { if a < b then a else b }
}

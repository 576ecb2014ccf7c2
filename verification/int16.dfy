/** Rust's `i16`, the integer width the board uses for its dimensions and cursor
    arithmetic, with the two's-complement truncation that `as i16` performs. */
module Int16 {

  /** The values of an `i16`. */
  type I16 = x: int | -0x8000 <= x < 0x8000

  /** Keeps the low 16 bits of `x` and reads them as a signed number: the result of
      `x as i16` for a wider integer, and of an `i16` sum or difference that overflows
      in a release build. */
  function Wrap(x: int): (r: I16)
    ensures (r - x) % 0x1_0000 == 0
    ensures -0x8000 <= x < 0x8000 ==> r == x
    ensures 0 <= x ==> r <= x
    ensures 0x8000 <= x < 0x1_8000 ==> r == x - 0x1_0000
  {
    (x + 0x8000) % 0x1_0000 - 0x8000
  }
}

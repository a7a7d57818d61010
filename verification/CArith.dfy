/** The parts of C integer arithmetic that the monitored programs rely on. */
module CArith {

  const TWO32 := 0x1_0000_0000

  type Uint32 = x: int | 0 <= x < TWO32

  type Uint16 = x: int | 0 <= x < 0x1_0000

  /** `a / b` as C computes it: the quotient is truncated toward zero. */
  function TruncDiv(a: int, b: int): int
    requires b > 0
  {
    if a >= 0 then a / b else -(-a / b)
  }

  /** `a - b` on two `uint32_t` operands. */
  function Sub32(a: Uint32, b: Uint32): Uint32 {
    (a - b) % TWO32
  }
}

/** C's integers: division that truncates toward zero, with the remainder
    taking the sign of the dividend, and words of 32 bits. */
module CInt {

  function Div(a: int, b: int): int
    requires b > 0
  {
    if a >= 0 then a / b else -((-a) / b)
  }

  function Rem(a: int, b: int): int
    requires b > 0
  {
    if a >= 0 then a % b else -((-a) % b)
  }

  // ----- 32-bit words ------------------------------------------------------------

  predicate IsInt32(n: int) {
    -0x8000_0000 <= n < 0x8000_0000
  }

  /** The word read as unsigned, and an unsigned word read as signed. */
  function Unsigned(n: int): (u: nat)
    requires IsInt32(n)
    ensures u < 0x1_0000_0000
  {
    if n < 0 then n + 0x1_0000_0000 else n
  }

  function Signed(u: nat): (n: int)
    requires u < 0x1_0000_0000
    ensures IsInt32(n)
  {
    if u >= 0x8000_0000 then u - 0x1_0000_0000 else u
  }

  /** Negation of an unsigned word. */
  function Negated(u: nat): (r: nat)
    requires u < 0x1_0000_0000
    ensures r < 0x1_0000_0000
  {
    if u == 0 then 0 else 0x1_0000_0000 - u
  }

  /** The difference of two words, as an unsigned word. */
  function Minus(a: int, b: int): (u: nat)
    requires IsInt32(a) && IsInt32(b)
    ensures u < 0x1_0000_0000
  {
    if a - b < 0 then a - b + 0x1_0000_0000 else a - b
  }
}

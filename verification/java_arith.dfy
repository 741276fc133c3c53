/**
 The two pieces of Java integer semantics the timer arithmetic depends on:
 `long` division, which truncates toward zero, and the narrowing cast
 `(int)` from `long`, which keeps the low 32 bits as a two's-complement value.
 */
module JavaArith {

  const IntModulus: int := 0x1_0000_0000
  const IntMin: int := -0x8000_0000
  const IntMax: int := 0x7FFF_FFFF

  /** Java's `a / d` for a positive divisor: the quotient rounded toward zero. */
  function Div(a: int, d: int): (q: int)
    requires d > 0
    ensures a >= 0 ==> 0 <= q && q * d <= a < q * d + d
    ensures a < 0 ==> q <= 0 && q * d - d < a <= q * d
  {
    if a >= 0 then
      DivBracket(a, d);
      a / d
    else
      DivBracket(-a, d);
      -((-a) / d)
  }

  /** Euclidean division of a non-negative number brackets it between
      consecutive multiples of the divisor. */
  lemma DivBracket(x: int, d: int)
    requires x >= 0 && d > 0
    ensures 0 <= x / d && (x / d) * d <= x < (x / d) * d + d
  {
    assert x == d * (x / d) + x % d;
  }

  /** Java's `(int) x` for a `long` x: reduction into [-2^31, 2^31). */
  function ToInt(x: int): (r: int)
    ensures IntMin <= r <= IntMax
    ensures (x - r) % IntModulus == 0
    ensures IntMin <= x <= IntMax ==> r == x
  {
    (x - IntMin) % IntModulus + IntMin
  }
}

/** What Tiny's 32-bit arithmetic means, in numbers. */
module TinyArithmetic {
  import opened TinyProgram
  import A = IntegerArithmetic
  import L = IntegerLaws

  /** The wrapped number is the one 32-bit number congruent to the exact one. */
  lemma WrapMeans(x: int, r: int)
    ensures r == WrapI32(x) <==> -0x8000_0000 <= r <= 0x7FFF_FFFF && (x - r) % 0x1_0000_0000 == 0
  {
  }

  /** Division is defined exactly where its quotient, truncated toward zero, is a 32-bit number. */
  lemma DivisionMeans(x: int, y: int)
    requires -0x8000_0000 <= x <= 0x7FFF_FFFF
    ensures DivisionDefined(x, y) <==> y != 0 && -0x8000_0000 <= A.Quotient(x, y) <= 0x7FFF_FFFF
  {
    if y != 0 {
      L.QuotientShrinks(x, y);
      L.OneQuotient(x);
      hide A.Quotient;
    }
  }
}

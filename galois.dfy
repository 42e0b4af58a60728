/** Arithmetic in GF(2^4) = GF(2)[x] / (x^4 + x + 1), the field of the S-AES mixing layer.
    A field element is a nibble whose bit i is the coefficient of x^i. */
module GaloisField {

  type Nibble = bv4

  /** x^4 + x + 1, the irreducible polynomial that defines the field (`MODULUS`). */
  const Modulus: bv8 := 0x13

  /** Multiplication by x: shift left, and when the x^3 coefficient falls off the nibble
      fold it back in as x + 1, because x^4 = x + 1 modulo the polynomial. */
  function XTime(a: Nibble): Nibble {
    if a & 8 == 0 then a << 1 else (a << 1) ^ 0x3
  }

  /** The field product: the sum (XOR) of a * x^i over the bits i set in b. */
  function GfMul(a: Nibble, b: Nibble): Nibble {
    var a1 := XTime(a);
    var a2 := XTime(a1);
    var a3 := XTime(a2);
    (if b & 1 != 0 then a else 0) ^ (if b & 2 != 0 then a1 else 0)
      ^ (if b & 4 != 0 then a2 else 0) ^ (if b & 8 != 0 then a3 else 0)
  }

  /** Textbook reference: the carry-less product of the two polynomials (degree <= 6). */
  function CarrylessProduct(a: Nibble, b: Nibble): (p: bv8)
    ensures p < 0x80
  {
    var w := a as bv8;
    (if b & 1 != 0 then w else 0) ^ (if b & 2 != 0 then w << 1 else 0)
      ^ (if b & 4 != 0 then w << 2 else 0) ^ (if b & 8 != 0 then w << 3 else 0)
  }

  /** Textbook reference: the remainder of a polynomial of degree <= 6 divided by
      x^4 + x + 1, clearing the x^6, x^5 and x^4 coefficients in turn. */
  function ReduceModulo(p: bv8): Nibble
    requires p < 0x80
  {
    var p6 := if p & 0x40 != 0 then p ^ (Modulus << 2) else p;
    var p5 := if p6 & 0x20 != 0 then p6 ^ (Modulus << 1) else p6;
    var p4 := if p5 & 0x10 != 0 then p5 ^ Modulus else p5;
    (p4 & 0xF) as Nibble
  }

  /** GfMul is multiplication of polynomials modulo x^4 + x + 1. */
  lemma GfMulIsPolynomialProduct(a: Nibble, b: Nibble)
    ensures GfMul(a, b) == ReduceModulo(CarrylessProduct(a, b))
  {
  }

  /** 1 is the multiplicative identity and 0 annihilates, on either side. */
  lemma GfMulIdentityAndZero(a: Nibble)
    ensures GfMul(a, 1) == a && GfMul(1, a) == a
    ensures GfMul(a, 0) == 0 && GfMul(0, a) == 0
  {
  }

  lemma GfMulCommutes(a: Nibble, b: Nibble)
    ensures GfMul(a, b) == GfMul(b, a)
  {
  }

  /* The loop of `MultiplyGf`, one iteration at a time, on the `char` registers of the code:
     the accumulated result, the shifted multiplicand a and the remaining multiplier bits b. */

  datatype MulState = MulState(result: bv8, a: bv8, b: bv8)
  {
    ghost predicate InRange() {
      result < 16 && a < 16 && b < 16
    }
  }

  ghost function MulStep(s: MulState): MulState {
    MulState(if s.b & 1 == 1 then s.result ^ s.a else s.result,
             if s.a & 0x8 != 0 then (s.a << 1) ^ Modulus else s.a << 1,
             s.b >> 1)
  }

  ghost function MulAfter(a: bv8, b: bv8, i: nat): MulState {
    if i == 0 then MulState(0, a, b) else MulStep(MulAfter(a, b, i - 1))
  }

  /** One iteration keeps every register a nibble (the XOR with the modulus clears the bit
      shifted out) and acts on them as the field operations they stand for. */
  lemma MulStepInRange(s: MulState)
    requires s.InRange()
    ensures MulStep(s).InRange()
    ensures MulStep(s).a as Nibble == XTime(s.a as Nibble)
    ensures MulStep(s).b as Nibble == (s.b as Nibble) >> 1
    ensures MulStep(s).result as Nibble == s.result as Nibble ^ (if s.b & 1 == 1 then s.a as Nibble else 0)
  {
  }

  lemma MulAfterFourIsProduct(a: bv8, b: bv8)
    requires a < 16 && b < 16
    ensures MulAfter(a, b, 4).InRange()
    ensures MulAfter(a, b, 4).result as Nibble == GfMul(a as Nibble, b as Nibble)
  {
    var s0 := MulState(0, a, b);
    var s1 := MulStep(s0);
    var s2 := MulStep(s1);
    var s3 := MulStep(s2);
    assert MulAfter(a, b, 4) == MulStep(s3) by {
      assert MulAfter(a, b, 0) == s0;
      assert MulAfter(a, b, 1) == s1;
      assert MulAfter(a, b, 2) == s2;
    }
    MulStepInRange(s0);
    MulStepInRange(s1);
    MulStepInRange(s2);
    MulStepInRange(s3);
  }

  lemma MulStepIs(s: MulState, result: bv8, a: bv8, b: bv8)
    requires result == if s.b & 1 == 1 then s.result ^ s.a else s.result
    requires a == if s.a & 0x8 != 0 then (s.a << 1) ^ Modulus else s.a << 1
    requires b == s.b >> 1
    ensures MulState(result, a, b) == MulStep(s)
  {
  }

  /** `multiply_GF2_4`: four rounds of add-if-bit-set, multiply a by x, drop a bit of b.
      With nibble operands the result is their field product. */
  method MultiplyGf(a: bv8, b: bv8) returns (result: bv8)
    requires a < 16 && b < 16
    ensures result < 16
    ensures result as Nibble == GfMul(a as Nibble, b as Nibble)
  {
    var x, y := a, b;
    result := 0;
    for i := 0 to 4
      invariant result < 16 && x < 16 && y < 16
      invariant MulState(result, x, y) == MulAfter(a, b, i)
    {
      ghost var before := MulState(result, x, y);
      MulStepInRange(before);
      if y & 1 == 1 {
        result := result ^ x;
      }
      var highBitSet := x & 0x8;
      x := x << 1;
      if highBitSet != 0 {
        x := x ^ Modulus;
      }
      y := y >> 1;
      MulStepIs(before, result, x, y);
    }
    MulAfterFourIsProduct(a, b);
  }
}

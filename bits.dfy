/**
 * 32-bit bit reversal, the meaning assumed for the helper `BitConverterX.SwapBits`
 * that the table generator applies to the polynomial of an LSB-first table.
 * The helper's own code is not part of this model; this module defines the
 * end-to-end reversal it is taken to compute.
 */
module Bits {

  /** Bit `i` of `x`, counting from the least significant bit (a `bv5` names one of the 32 positions). */
  predicate Bit(x: bv32, i: bv5)
  {
    (x >> i) & 1 == 1
  }

  /** Reverses the order of all 32 bits: bit 0 goes to bit 31 and so on. */
  function SwapBits(x: bv32): (r: bv32)
    ensures forall i: bv5 :: Bit(r, i) == Bit(x, 31 - i)
  {
    var a := ((x >> 1) & 0x5555_5555) | ((x & 0x5555_5555) << 1);
    var b := ((a >> 2) & 0x3333_3333) | ((a & 0x3333_3333) << 2);
    var c := ((b >> 4) & 0x0F0F_0F0F) | ((b & 0x0F0F_0F0F) << 4);
    var d := ((c >> 8) & 0x00FF_00FF) | ((c & 0x00FF_00FF) << 8);
    (d >> 16) | (d << 16)
  }

  /** Reversing twice gives back the original word. */
  lemma {:induction false} SwapBitsInvolutive(x: bv32)
    ensures SwapBits(SwapBits(x)) == x
  {
  }

  /** The reversed forms of the two polynomials most used by the catalog. */
  lemma {:induction false} SwapBitsOfStandardPolynomials()
    ensures SwapBits(0x04C1_1DB7) == 0xEDB8_8320
    ensures SwapBits(0x1EDC_6F41) == 0x82F6_3B78
  {
  }
}

/**
 * Known check values for the one-byte message "a" (0x61), for the two directions:
 * the Default variant (LSB-first) gives 0xE8B7BE43 and BZIP2 (MSB-first) gives 0x19939B6B.
 * Each is computed here through the bit-at-a-time reference and then carried
 * over to the table-driven checksum by ChecksumIsBitwise.
 */
module Crc32KnownAnswers {
  import opened Bits
  import opened Crc32Info
  import opened Crc32TableCache
  import opened Crc32Engine

  /** The eight LSB-first division steps for "a" under Default's reversed polynomial. */
  lemma {:induction false} LsbFirstStepsOfLetterA(reversedPolynomial: bv32)
    requires reversedPolynomial == 0xEDB8_8320
    ensures LsbFirstSteps(0xFFFF_FF9E, reversedPolynomial, 8) == 0x1748_41BC
  {
    assert LsbFirstSteps(0xFFFF_FF9E, reversedPolynomial, 1) == 0x7FFF_FFCF;
    assert LsbFirstSteps(0xFFFF_FF9E, reversedPolynomial, 2) == 0xD247_7CC7;
    assert LsbFirstSteps(0xFFFF_FF9E, reversedPolynomial, 3) == 0x849B_3D43;
    assert LsbFirstSteps(0xFFFF_FF9E, reversedPolynomial, 4) == 0xAFF5_1D81;
    assert LsbFirstSteps(0xFFFF_FF9E, reversedPolynomial, 5) == 0xBA42_0DE0;
    assert LsbFirstSteps(0xFFFF_FF9E, reversedPolynomial, 6) == 0x5D21_06F0;
    assert LsbFirstSteps(0xFFFF_FF9E, reversedPolynomial, 7) == 0x2E90_8378;
  }

  /** The eight MSB-first division steps for "a" under the IEEE 802.3 polynomial. */
  lemma {:induction false} MsbFirstStepsOfLetterA(polynomial: bv32)
    requires polynomial == 0x04C1_1DB7
    ensures MsbFirstSteps(0x9EFF_FFFF, polynomial, 8) == 0xE66C_6494
  {
    assert MsbFirstSteps(0x9EFF_FFFF, polynomial, 1) == 0x393E_E249;
    assert MsbFirstSteps(0x9EFF_FFFF, polynomial, 2) == 0x727D_C492;
    assert MsbFirstSteps(0x9EFF_FFFF, polynomial, 3) == 0xE4FB_8924;
    assert MsbFirstSteps(0x9EFF_FFFF, polynomial, 4) == 0xCD36_0FFF;
    assert MsbFirstSteps(0x9EFF_FFFF, polynomial, 5) == 0x9EAD_0249;
    assert MsbFirstSteps(0x9EFF_FFFF, polynomial, 6) == 0x399B_1925;
    assert MsbFirstSteps(0x9EFF_FFFF, polynomial, 7) == 0x7336_324A;
  }

  /** The Default-shaped configuration (LSB-first, all-ones start and XOR-out) maps "a" to 0xE8B7BE43. */
  lemma {:induction false} LsbFirstChecksumOfLetterA(polynomial: bv32, initial: bv32, xorOut: bv32, input: seq<bv8>)
    requires polynomial == 0x04C1_1DB7 && initial == 0xFFFF_FFFF && xorOut == 0xFFFF_FFFF && input == [0x61]
    ensures Checksum(polynomial, false, initial, xorOut, input) == 0xE8B7_BE43
  {
    SwapBitsOfStandardPolynomials();
    LsbFirstStepsOfLetterA(SwapBits(polynomial));
    assert input[..0] == [];
    ChecksumIsBitwise(polynomial, false, initial, xorOut, input);
  }

  /** The BZIP2-shaped configuration (MSB-first, all-ones start and XOR-out) maps "a" to 0x19939B6B. */
  lemma {:induction false} MsbFirstChecksumOfLetterA(polynomial: bv32, initial: bv32, xorOut: bv32, input: seq<bv8>)
    requires polynomial == 0x04C1_1DB7 && initial == 0xFFFF_FFFF && xorOut == 0xFFFF_FFFF && input == [0x61]
    ensures Checksum(polynomial, true, initial, xorOut, input) == 0x1993_9B6B
  {
    MsbFirstStepsOfLetterA(polynomial);
    assert input[..0] == [];
    ChecksumIsBitwise(polynomial, true, initial, xorOut, input);
  }

  /** CRC-32 (Default) of "a". */
  lemma {:induction false} DefaultOfLetterA()
    ensures AlgorithmChecksum(Default, [0x61]) == 0xE8B7_BE43
  {
    LsbFirstChecksumOfLetterA(Polynomial(Default), Initial(Default), XorOut(Default), [0x61]);
  }

  /** CRC-32/BZIP2 of "a". */
  lemma {:induction false} Bzip2OfLetterA()
    ensures AlgorithmChecksum(BZIP2, [0x61]) == 0x1993_9B6B
  {
    MsbFirstChecksumOfLetterA(Polynomial(BZIP2), Initial(BZIP2), XorOut(BZIP2), [0x61]);
  }
}

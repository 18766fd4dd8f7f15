/**
 * The catalog of predefined CRC-32 variants and the four lookups that give
 * each variant its polynomial, `Reverse` flag, initial value and XOR-out mask.
 *
 * `Reverse == true` selects the MSB-first, left-shifting table and update
 * (the convention usually called "non-reflected"); `false` selects the
 * LSB-first, right-shifting one. The names below follow the library.
 */
module Crc32Info {

  /** The ten predefined variants. */
  datatype Crc32Algorithm =
    | Default  // IEEE 802.3 Frame Check Sequence; PNG, ZIP
    | BZIP2
    | JAMCRC   // Default without the final XOR
    | MPEG2
    | POSIX    // the cksum command
    | SATA
    | XFER
    | CRC32C   // Castagnoli, RFC 3720 section 12.1 (iSCSI), RFC 4960 Appendix B (SCTP)
    | CRC32D
    | CRC32Q

  /** The generator polynomial, with its x^32 term implicit. */
  function Polynomial(algorithm: Crc32Algorithm): bv32
  {
    match algorithm
    case Default | BZIP2 | JAMCRC | MPEG2 | POSIX | SATA => 0x04C1_1DB7
    case XFER => 0x0000_00AF
    case CRC32C => 0x1EDC_6F41
    case CRC32D => 0xA833_982B
    case CRC32Q => 0x8141_41AB
  }

  /** True when the variant uses the MSB-first (left-shifting) table. */
  function Reverse(algorithm: Crc32Algorithm): bool
  {
    match algorithm
    case BZIP2 | MPEG2 | POSIX | SATA | XFER | CRC32Q => true
    case Default | JAMCRC | CRC32C | CRC32D => false
  }

  /** The value the accumulator starts from. */
  function Initial(algorithm: Crc32Algorithm): bv32
  {
    match algorithm
    case Default | BZIP2 | JAMCRC | MPEG2 | CRC32C | CRC32D => 0xFFFF_FFFF
    case POSIX | XFER | CRC32Q => 0x0000_0000
    case SATA => 0x5232_5032
  }

  /** The mask XORed onto the accumulator to give the visible checksum. */
  function XorOut(algorithm: Crc32Algorithm): bv32
  {
    match algorithm
    case Default | BZIP2 | POSIX | CRC32C | CRC32D => 0xFFFF_FFFF
    case JAMCRC | MPEG2 | SATA | XFER | CRC32Q => 0x0000_0000
  }

  /** Six variants share the IEEE 802.3 polynomial; the other four each have their own. */
  lemma {:induction false} PolynomialFamilies(algorithm: Crc32Algorithm)
    ensures Polynomial(algorithm) == 0x04C1_1DB7 <==> algorithm in {Default, BZIP2, JAMCRC, MPEG2, POSIX, SATA}
    ensures Polynomial(algorithm) == 0x0000_00AF <==> algorithm == XFER
    ensures Polynomial(algorithm) == 0x1EDC_6F41 <==> algorithm == CRC32C
    ensures Polynomial(algorithm) == 0xA833_982B <==> algorithm == CRC32D
    ensures Polynomial(algorithm) == 0x8141_41AB <==> algorithm == CRC32Q
  {
  }

  /** Exactly six variants select the MSB-first table. */
  lemma {:induction false} ReverseVariants(algorithm: Crc32Algorithm)
    ensures Reverse(algorithm) <==> algorithm in {BZIP2, MPEG2, POSIX, SATA, XFER, CRC32Q}
  {
  }

  /** The three initial values in use and which variants start from each. */
  lemma {:induction false} InitialValues(algorithm: Crc32Algorithm)
    ensures Initial(algorithm) == 0xFFFF_FFFF <==> algorithm in {Default, BZIP2, JAMCRC, MPEG2, CRC32C, CRC32D}
    ensures Initial(algorithm) == 0 <==> algorithm in {POSIX, XFER, CRC32Q}
    ensures Initial(algorithm) == 0x5232_5032 <==> algorithm == SATA
  {
  }

  /** Every variant either inverts the result or leaves it as it is. */
  lemma {:induction false} XorOutValues(algorithm: Crc32Algorithm)
    ensures XorOut(algorithm) == 0xFFFF_FFFF <==> algorithm in {Default, BZIP2, POSIX, CRC32C, CRC32D}
    ensures XorOut(algorithm) == 0 <==> algorithm in {JAMCRC, MPEG2, SATA, XFER, CRC32Q}
  {
  }

  /** JAMCRC is Default without the final XOR: it differs from Default in XorOut alone. */
  lemma {:induction false} JamCrcIsDefaultWithoutXorOut()
    ensures Polynomial(JAMCRC) == Polynomial(Default)
    ensures Reverse(JAMCRC) == Reverse(Default)
    ensures Initial(JAMCRC) == Initial(Default)
    ensures XorOut(JAMCRC) == 0 && XorOut(Default) == 0xFFFF_FFFF
  {
  }

  /** No two names denote the same configuration: the four lookups together identify the variant. */
  lemma {:induction false} ConfigurationsDistinct(a: Crc32Algorithm, b: Crc32Algorithm)
    requires a != b
    ensures (Polynomial(a), Reverse(a), Initial(a), XorOut(a)) != (Polynomial(b), Reverse(b), Initial(b), XorOut(b))
  {
  }
}

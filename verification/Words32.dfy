/** Arithmetic modulo 2^32, shared by the checksum and the generator. */
module Words32 {
  const MODULUS: nat := 0x1_0000_0000

  /** A 32-bit word, as its unsigned value. */
  type Word = n: nat | n < MODULUS
}

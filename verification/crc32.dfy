/**
 * The 32-bit cyclic redundancy check of IEEE 802.3 (section 3.2.9), in the
 * bit-reflected, least-significant-bit-first form that Go's
 * `crc32.ChecksumIEEE` computes: the register starts at all ones, each input
 * byte is XORed into its low byte and shifted out one bit at a time against
 * the reflected generator polynomial, and the result is complemented.
 */
module Crc32 {

  /** The generator polynomial x^32 + x^26 + ... + 1, most significant bit first. */
  const Polynomial: bv32 := 0x04C1_1DB7

  /** The same polynomial with its bits reversed, as the LSB-first register uses it. */
  const Reflected: bv32 := 0xEDB8_8320

  /** Bit `i` of `x`, as 0 or 1. */
  function Bit(x: bv32, i: nat): bv32
    requires i < 32
  {
    (x >> i) & 1
  }

  /** Reflected really is the bit reversal of Polynomial. */
  lemma ReflectedIsReversal()
    ensures forall i: nat :: i < 32 ==> Bit(Reflected, i) == Bit(Polynomial, 31 - i)
  {
  }

  /** One register shift: divide by x, reducing by the polynomial when a one falls out. */
  function Shift(crc: bv32): bv32
  {
    if crc & 1 == 1 then (crc >> 1) ^ Reflected else crc >> 1
  }

  /** Eight register shifts, one per bit of a byte. */
  function Shift8(crc: bv32): bv32
  {
    Shift(Shift(Shift(Shift(Shift(Shift(Shift(Shift(crc))))))))
  }

  /** Feeds one byte into the register. */
  function UpdateByte(crc: bv32, b: bv8): bv32
  {
    Shift8(crc ^ (b as bv32))
  }

  /** Feeds the bytes of `p`, first to last, into the register. */
  function Update(crc: bv32, p: seq<bv8>): bv32
    decreases |p|
  {
    if |p| == 0 then crc else UpdateByte(Update(crc, p[..|p| - 1]), p[|p| - 1])
  }

  /** `crc32.ChecksumIEEE(p)`: preset to all ones, feed `p`, complement. */
  function ChecksumIEEE(p: seq<bv8>): bv32
  {
    Update(0xFFFF_FFFF, p) ^ 0xFFFF_FFFF
  }

  /** The ASCII digits "123456789". */
  const CheckInput: seq<bv8> := [0x31, 0x32, 0x33, 0x34, 0x35, 0x36, 0x37, 0x38, 0x39]

  /** The published check value of this CRC variant, which confirms the definition above. */
  lemma CheckValue()
    ensures ChecksumIEEE(CheckInput) == 0xCBF4_3926
  {
    var p := CheckInput;
    assert Update(0xFFFF_FFFF, p[..0]) == 0xFFFF_FFFF;
    assert p[..1][..0] == p[..0];
    assert Update(0xFFFF_FFFF, p[..1]) == 0x7C23_1048;
    assert p[..2][..1] == p[..1];
    assert Update(0xFFFF_FFFF, p[..2]) == 0xB0AC_BB32;
    assert p[..3][..2] == p[..2];
    assert Update(0xFFFF_FFFF, p[..3]) == 0x77B7_9C2D;
    assert p[..4][..3] == p[..3];
    assert Update(0xFFFF_FFFF, p[..4]) == 0x641C_1F5C;
    assert p[..5][..4] == p[..4];
    assert Update(0xFFFF_FFFF, p[..5]) == 0x340A_C5E3;
    assert p[..6][..5] == p[..5];
    assert Update(0xFFFF_FFFF, p[..6]) == 0xF68D_2C9E;
    assert p[..7][..6] == p[..6];
    assert Update(0xFFFF_FFFF, p[..7]) == 0xAFFC_9660;
    assert p[..8][..7] == p[..7];
    assert Update(0xFFFF_FFFF, p[..8]) == 0x651F_2550;
    assert p[..9][..8] == p[..8];
    assert p[..9] == p;
    assert Update(0xFFFF_FFFF, p) == 0x340B_C6D9;
  }
}

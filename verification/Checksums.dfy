/** Stored checksums are masked (util/crc32c.h). The checksum is any function of the bytes it covers. */
module Checksums {
  import opened Basics
  import opened Coding

  type Checksum = seq<Byte> -> Word

  const MASK_DELTA: Word := 0xa282ead8

  /** Rotates right by 15 bits and adds a constant, modulo 2^32. */
  function Mask(crc: Word): Word {
    (crc / 0x8000 + crc % 0x8000 * 0x2_0000 + MASK_DELTA) % 0x1_0000_0000
  }

  function Unmask(masked: Word): Word {
    var rot := (masked + 0x1_0000_0000 - MASK_DELTA) % 0x1_0000_0000;
    rot / 0x2_0000 + rot % 0x2_0000 * 0x8000
  }

  lemma UnmaskMask(crc: Word)
    ensures Unmask(Mask(crc)) == crc
  {
    var high, low := crc / 0x8000, crc % 0x8000;
    var rot := high + low * 0x2_0000;
    MaskedRotation(rot);
    assert rot / 0x2_0000 == low && rot % 0x2_0000 == high;
  }

  lemma MaskUnmask(masked: Word)
    ensures Mask(Unmask(masked)) == masked
  {
    var rot := (masked + 0x1_0000_0000 - MASK_DELTA) % 0x1_0000_0000;
    var high, low := rot / 0x2_0000, rot % 0x2_0000;
    var crc := high + low * 0x8000;
    assert crc / 0x8000 == low && crc % 0x8000 == high;
  }

  /** Bit by bit a stored checksum is, but for the constant added, the checksum turned right by 15. */
  lemma MaskRotates(crc: Word, i: nat)
    requires i < 32
    ensures Bit((Mask(crc) + 0x1_0000_0000 - MASK_DELTA) % 0x1_0000_0000, i) <==> Bit(crc, (i + 15) % 32)
  {
    ShiftPowers();
    MaskedRotation(crc / 0x8000 + crc % 0x8000 * 0x2_0000);
    JoinedBits(crc / 0x8000, crc % 0x8000, 17, i);
    JoinedBits(crc % 0x8000, crc / 0x8000, 15, (i + 15) % 32);
  }

  lemma MaskedRotation(rot: nat)
    requires rot < 0x1_0000_0000
    ensures ((rot + MASK_DELTA) % 0x1_0000_0000 + 0x1_0000_0000 - MASK_DELTA) % 0x1_0000_0000 == rot
  {
  }
}

/** Shifts and masks of a byte, as quotients and remainders. */
module Bits {

  lemma Shift2(b: bv8)
    ensures (b >> 2) as int == b as int / 4
  {
  }

  lemma Shift3(b: bv8)
    ensures (b >> 3) as int == b as int / 8
  {
  }

  lemma Shift4(b: bv8)
    ensures (b >> 4) as int == b as int / 16
  {
  }

  lemma Shift6(b: bv8)
    ensures (b >> 6) as int == b as int / 64
  {
  }

  lemma Mask2(b: bv8)
    ensures (b & 0x03) as int == b as int % 4
  {
  }

  lemma Mask3(b: bv8)
    ensures (b & 0x07) as int == b as int % 8
  {
  }

  lemma Mask4(b: bv8)
    ensures (b & 0x0F) as int == b as int % 16
  {
  }

  lemma Mask5(b: bv8)
    ensures (b & 0x1F) as int == b as int % 32
  {
  }

  lemma Bit3(b: bv8)
    requires b < 16
    ensures b & 0x08 != 0 <==> b as int / 8 == 1
  {
  }

  lemma Bit7(b: bv8)
    ensures b & 0x80 != 0 <==> b as int >= 0x80
  {
  }
}

/** Bit order on the SPI bus: omap3_spi_reverse_bits and omap3_spi_lsb_first of
    spi_driver.c. */
module SpiBits {

  /** One byte of a buffer. */
  datatype Byte = Byte(bits: bv8)

  type Bytes = seq<Byte>

  /** The byte with its bits in the opposite order. */
  function Reverse(b: Byte): Byte {
    Byte(ReverseOf(b.bits))
  }

  function ReverseOf(b: bv8): bv8 {
    ((b & 0x80) >> 7) | ((b & 0x40) >> 5) | ((b & 0x20) >> 3) | ((b & 0x10) >> 1)
    | ((b & 0x08) << 1) | ((b & 0x04) << 3) | ((b & 0x02) << 5) | ((b & 0x01) << 7)
  }

  function Bit(b: bv8, i: bv8): bv8
    requires i < 8
  {
    (b >> i) & 1
  }

  /** Two bytes read as one big-endian word. */
  function Word(hi: Byte, lo: Byte): bv16 {
    ((hi.bits as bv16) << 8) | (lo.bits as bv16)
  }

  function Bit16(w: bv16, i: bv16): bv16
    requires i < 16
  {
    (w >> i) & 1
  }

  lemma ReverseMirrors(b: Byte, i: bv8)
    requires i < 8
    ensures Bit(Reverse(b).bits, 7 - i) == Bit(b.bits, i)
  {
  }

  lemma ReverseTwice(b: Byte)
    ensures Reverse(Reverse(b)) == b
  {
  }

  /** Each has the bits of the other in the opposite order. */
  ghost predicate MirrorImages(x: bv16, y: bv16) {
    forall i: bv16 :: i < 16 ==> Bit16(y, 15 - i) == Bit16(x, i)
  }

  /** Swapping the two bytes and reversing each reverses the whole word. */
  lemma WordMirrors(hi: Byte, lo: Byte)
    ensures MirrorImages(Word(hi, lo), Word(Reverse(lo), Reverse(hi)))
  {
  }

  /** The loop: bit after bit goes to the mirror position. */
  method ReverseBits(word: bv8) returns (newWord: bv8)
    ensures newWord == ReverseOf(word)
  {
    newWord := 0;
    var i: bv8 := 0;
    while i < 8
      invariant i <= 8
      invariant newWord == ReverseOf(word) & (0xFF << (8 - i))
      decreases 8 - i
    {
      newWord := newWord | (((word & (1 << i)) >> i) * (1 << (7 - i)));
      i := i + 1;
    }
  }
}

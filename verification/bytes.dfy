/**
 Bytes and 16-bit words as the frame and the packer see them: an octet is a `bv8`, a
 16-bit word its big-endian pair of octets.
 */
module Bytes {

  type Byte = bv8

  /** `bytearray` item conversion of an integer known to lie in 0..255. */
  function ByteOf(x: int): (b: Byte)
    requires 0 <= x < 256
    ensures b as int == x
  {
    assert x % 256 == x;
    x as Byte
  }

  /** The high octet of a word. */
  function Hi(w: bv16): Byte {
    (w >> 8) as Byte
  }

  /** The low octet of a word. */
  function Lo(w: bv16): Byte {
    (w & 0xFF) as Byte
  }

  /** The word whose big-endian octets are `hi`, `lo`. */
  function Word(hi: Byte, lo: Byte): (w: bv16)
    ensures Hi(w) == hi && Lo(w) == lo
  {
    ((hi as bv16) << 8) | (lo as bv16)
  }

  lemma WordOfOctets(w: bv16)
    ensures Word(Hi(w), Lo(w)) == w
  {
  }

  lemma WordInjective(x1: Byte, x2: Byte, y1: Byte, y2: Byte)
    requires Word(x1, x2) == Word(y1, y2)
    ensures x1 == y1 && x2 == y2
  {
  }

  /** `int.to_bytes(2, 'big')` of a word. */
  function BigEndian(w: bv16): (b: seq<Byte>)
    ensures |b| == 2 && Word(b[0], b[1]) == w
  {
    WordOfOctets(w);
    [Hi(w), Lo(w)]
  }
}

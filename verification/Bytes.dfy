/** Unsigned bytes and big-endian 16-bit reads. */
module Bytes {

  type byte = x: int | 0 <= x < 256

  /** rd16be / rd_be16 */
  function Be16(hi: byte, lo: byte): (v: nat)
    ensures v < 0x1_0000
  {
    256 * hi + lo
  }

  /** A 16-bit number in big-endian order: wr16be. */
  function Big16(v: nat): (b: seq<byte>)
    requires v < 0x1_0000
    ensures |b| == 2 && Be16(b[0], b[1]) == v
  {
    [v / 256, v % 256]
  }
}

/**
 * The CRC-16 of the bundled checksum library: the reflected polynomial 0xA001
 * with initial value 0 (the CRC-16/ARC variant), one byte at a time, low bit first.
 * The codec relies only on it being one fixed function of the bytes.
 */
module Checksum {
  import opened Constants

  /** Checksum of a whole byte range; over no bytes it is the initial value 0. */
  function Crc16(bytes: seq<byte>): (c: uint16)
    ensures bytes == [] ==> c == 0
  {
    CrcFrom(0x0000, bytes, 0) as int
  }

  /**
   * Feeds `bytes` into a running checksum, `bits` shift steps of the current
   * byte still to go: each byte is XOR-ed into the checksum, then eight times
   * the checksum is shifted right by one, XOR-ed with 0xA001 when the bit
   * shifted out was set.
   */
  function CrcFrom(crc: bv16, bytes: seq<byte>, bits: nat): bv16
    decreases |bytes|, bits
  {
    if bits > 0 then CrcFrom(if crc & 1 == 1 then (crc >> 1) ^ 0xA001 else crc >> 1, bytes, bits - 1)
    else if bytes == [] then crc
    else CrcFrom(crc ^ (bytes[0] as bv16), bytes[1..], 8)
  }

  /** Low byte of a checksum (`crc & 0x00FF`), written first on the wire. */
  function CrcLow(crc: uint16): byte
  {
    crc % 256
  }

  /** High byte of a checksum (`(crc & 0xFF00) >> 8`), written second on the wire. */
  function CrcHigh(crc: uint16): byte
  {
    crc / 256
  }
}

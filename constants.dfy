/**
 * Protocol constants. Their values live in headers that are not part of this
 * model, so each one is declared without a value: the verifier knows only the
 * bounds stated by its type, and every proof holds for every choice.
 */
module Constants {

  /** One byte of a buffer, and the type of a set of flag bits. */
  type byte = x: int | 0 <= x < 256

  /** A per-frame payload bound: positive, and small enough for the one-byte length field. */
  type PayloadBound = n: nat | 0 < n <= 255 witness 1

  /** A flag value: a non-zero pattern inside the low seven bits of byte 0 of a frame. */
  type FlagValue = f: byte | 0 < f < 0x80 witness 1

  /** HEAD_MAX_PAYLOAD_SIZE: largest payload one frame carries. */
  const HeadMaxPayloadSize: PayloadBound

  /** HEAD_MAX_PARTIAL: how many frames may already exist when another full-size chunk is cut. */
  const HeadMaxPartial: nat

  /** NOT_SET: the empty flag set. */
  const NOT_SET: byte := 0

  // Type tags.
  const AGG: FlagValue
  const DAT: FlagValue
  const FIN: FlagValue
  const STA: FlagValue
  const ERR: FlagValue
  const SYN: FlagValue

  // Modifiers.
  const ACK: FlagValue
  const PRT: FlagValue

  /** A `uint16_t`: a checksum, or the serialized length kept in DataTransport. */
  type uint16 = x: int | 0 <= x < 0x1_0000

  /** The number of `uint16_t` values. */
  const Uint16Range: nat := 0x1_0000
}

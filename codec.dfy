/**
 * One frame ("Head") and its wire form: the five-plus-payload byte layout
 * written by `encode`, the checks of `decode`, and the in-place rewrite of an
 * encoded buffer done by `updateIdToBufferEncoded`.
 *
 * Wire layout of a frame whose payload has n bytes:
 *   [ (version << 7) | flags, id, n, payload[0] .. payload[n-1], crcLow, crcHigh ]
 * where the checksum covers the first 3 + n bytes.
 */
module Codec {
  import opened Wrappers
  import opened Constants
  import opened Checksum
  import opened Bits

  /**
   * A frame as held in memory. `version` and `flags` are bit fields of byte 0;
   * `length` is the one-byte length field.
   */
  datatype Head = Head(version: byte, flags: byte, id: byte, length: byte, payload: seq<byte>)
  {
    /** The length field counts exactly the payload bytes. */
    predicate WellFormed()
    {
      length == |payload|
    }
  }

  /** Reasons `decode` rejects a buffer. */
  datatype DecodeError = VersionOutOfRange | FlagsOutOfRange | CrcMismatch

  /**
   * First wire byte: the version in the top bit, the flags below it. For a
   * one-bit version and seven-bit flags the two do not overlap.
   */
  function HeaderByte(h: Head): (b: byte)
    ensures h.version <= 1 && h.flags < 0x80 ==> b == h.version * 128 + h.flags
  {
    if h.version <= 1 && h.flags < 0x80 then VersionOrFlags(h.version, h.flags); Or(h.version * 128 % 256, h.flags)
    else Or(h.version * 128 % 256, h.flags)
  }

  /** The bytes the checksum covers: header, id, length and payload. */
  function Covered(h: Head): seq<byte>
  {
    [HeaderByte(h), h.id, h.length] + h.payload
  }

  /** The wire form of a frame. */
  function WireBytes(h: Head): (w: seq<byte>)
    requires h.WellFormed()
    ensures |w| == 5 + |h.payload|
    ensures w[0] == HeaderByte(h) && w[1] == h.id && w[2] == h.length
    ensures w[3..3 + |h.payload|] == h.payload
    ensures w[3 + |h.payload|] == CrcLow(Crc16(w[..3 + |h.payload|]))
    ensures w[4 + |h.payload|] == CrcHigh(Crc16(w[..3 + |h.payload|]))
  {
    var covered := Covered(h);
    var crc := Crc16(covered);
    assert covered == (covered + [CrcLow(crc), CrcHigh(crc)])[..3 + |h.payload|];
    covered + [CrcLow(crc), CrcHigh(crc)]
  }

  /**
   * The byte-copy loop of `encode` for one frame: a zero-filled buffer of
   * 5 + length bytes, the three header bytes, the payload copied byte by byte,
   * then the checksum of the first 3 + length bytes, low byte first.
   */
  method EncodeHead(head: Head) returns (wire: seq<byte>)
    requires head.WellFormed()
    ensures wire == WireBytes(head)
  {
    var n := head.length;
    var buf := new byte[5 + n](_ => 0);
    WriteCovered(buf, head);
    var crc := Crc16(buf[..3 + n]);
    var low, high := CrcLow(crc), CrcHigh(crc);
    buf[3 + n] := low;
    buf[4 + n] := high;
    wire := buf[..];
    assert wire[..3 + n] == Covered(head);
    assert wire == Covered(head) + [low, high];
  }

  /** The header bytes and the payload copy loop of `encode`, into the first 3 + length bytes of `buf`. */
  method WriteCovered(buf: array<byte>, head: Head)
    requires head.WellFormed() && buf.Length == 5 + head.length
    modifies buf
    ensures buf[..3 + head.length] == Covered(head)
  {
    var n := head.length;
    buf[0] := HeaderByte(head);
    buf[1] := head.id;
    buf[2] := head.length;
    ghost var covered := Covered(head);
    var i := 0;
    while i < n
      invariant 0 <= i <= n
      invariant buf[..3 + i] == covered[..3 + i]
    {
      buf[3 + i] := head.payload[i];
      i := i + 1;
    }
  }

  /** The checksum a received buffer carries after its payload: `(data[n+4] << 8) | data[n+3]`. */
  function ReceivedCrc(data: seq<byte>): uint16
    requires 3 <= |data| && data[2] + 5 <= |data|
  {
    var n := data[2];
    (data[n + 4] as int) * 256 + data[n + 3]
  }

  /**
   * The received checksum equals `crc` exactly when the two bytes after the
   * payload are `crc`'s low byte and then its high byte.
   */
  lemma ReceivedCrcBytes(data: seq<byte>, crc: uint16)
    requires 3 <= |data| && data[2] + 5 <= |data|
    ensures ReceivedCrc(data) == crc <==> CrcLow(crc) == data[data[2] + 3] && CrcHigh(crc) == data[data[2] + 4]
  {
    var lo: int, hi: int := data[data[2] + 3], data[data[2] + 4];
    assert ReceivedCrc(data) == hi * 256 + lo;
    assert crc == CrcHigh(crc) * 256 + CrcLow(crc);
  }

  /**
   * `decode`: splits byte 0 into a one-bit version and seven flag bits, reads
   * id and length, copies the payload and compares the trailing checksum with
   * the checksum of the first 3 + length bytes. The input is a raw pointer in
   * the source, so it must hold the length byte's count plus five bytes.
   * The version and flags range checks are kept in the order the source makes
   * them; the masks make both unreachable, which the first ensures states.
   */
  function Decode(data: seq<byte>): (r: Result<Head, DecodeError>)
    requires 3 <= |data| && data[2] + 5 <= |data|
    ensures r.Err? ==> r.error == CrcMismatch
    ensures r.Ok? <==> Crc16(data[..data[2] + 3]) == ReceivedCrc(data)
    ensures r.Ok? ==>
              && r.value.WellFormed()
              && r.value.version == And(data[0], 0x80) / 128
              && r.value.flags == And(data[0], 0x7F)
              && r.value.id == data[1]
              && r.value.length == data[2]
              && r.value.payload == data[3..3 + data[2]]
  {
    var version := And(data[0], 0x80) / 128;
    var flags := And(data[0], 0x7F);
    var n := data[2];
    if version > 1 then Err(VersionOutOfRange)
    else if flags > 0xE0 then Err(FlagsOutOfRange)
    else if Crc16(data[..n + 3]) != ReceivedCrc(data) then Err(CrcMismatch)
    else Ok(Head(version, flags, data[1], data[2], data[3..3 + n]))
  }

  /** Decoding the wire form of a frame gives that frame back, field for field. */
  lemma DecodeWireBytes(h: Head)
    requires h.WellFormed() && h.version <= 1 && h.flags < 0x80
    ensures Decode(WireBytes(h)) == Ok(h)
  {
    WireHeader(h);
    WireCrc(h);
    DecodeAccepts(WireBytes(h), h);
  }

  /** The first three wire bytes of a frame: version above flags, id, length. */
  lemma WireHeader(h: Head)
    requires h.WellFormed() && h.version <= 1 && h.flags < 0x80
    ensures var w := WireBytes(h);
            w[0] == h.version * 128 + h.flags && w[1] == h.id && w[2] == h.length
  {
    VersionAndFlags(h.version, h.flags);
  }

  /** The checksum a receiver reads from the wire form is the one computed over its first bytes. */
  lemma WireCrc(h: Head)
    requires h.WellFormed()
    ensures var w := WireBytes(h);
            ReceivedCrc(w) == Crc16(w[..w[2] + 3])
  {
    var w := WireBytes(h);
    var n := |h.payload|;
    assert w[2] == n;
    var crc := Crc16(w[..3 + n]);
    assert w[3 + n] == CrcLow(crc) && w[4 + n] == CrcHigh(crc);
  }

  /** A buffer whose fields spell out `h` and whose checksum matches decodes to `h`. */
  lemma DecodeAccepts(data: seq<byte>, h: Head)
    requires 3 <= |data| && data[2] + 5 <= |data|
    requires h.WellFormed() && h.version <= 1 && h.flags < 0x80
    requires data[0] == h.version * 128 + h.flags && data[1] == h.id && data[2] == h.length
    requires data[3..3 + data[2]] == h.payload
    requires Crc16(data[..data[2] + 3]) == ReceivedCrc(data)
    ensures Decode(data) == Ok(h)
  {
    VersionAndFlags(h.version, h.flags);
  }

  /** A buffer whose last two bytes are replaced by the checksum of the others. */
  function Restamped(buf: seq<byte>): (r: seq<byte>)
    requires |buf| >= 2
    ensures |r| == |buf| && r[..|buf| - 2] == buf[..|buf| - 2]
    ensures r[|buf| - 2] == CrcLow(Crc16(buf[..|buf| - 2]))
    ensures r[|buf| - 1] == CrcHigh(Crc16(buf[..|buf| - 2]))
  {
    var crc := Crc16(buf[..|buf| - 2]);
    buf[..|buf| - 2] + [CrcLow(crc), CrcHigh(crc)]
  }

  /** `buf` with byte `index` set to `id`, then re-stamped. */
  function WithByte(buf: seq<byte>, index: nat, id: byte): seq<byte>
    requires index < |buf| - 2
  {
    Restamped(buf[index := id])
  }

  /**
   * `updateIdToBufferEncoded` as written: stores the new id at index 2, where
   * `encode` put the length byte, then re-stamps the checksum over every byte
   * but the last two. Buffers produced by `encode` hold at least five bytes.
   */
  method UpdateIdToBufferEncoded(buffer: array<byte>, id: byte)
    requires buffer.Length >= 5
    modifies buffer
    ensures buffer[2] == id
    ensures buffer[buffer.Length - 2] == CrcLow(Crc16(buffer[..buffer.Length - 2]))
    ensures buffer[buffer.Length - 1] == CrcHigh(Crc16(buffer[..buffer.Length - 2]))
    ensures forall i :: 0 <= i < buffer.Length - 2 && i != 2 ==> buffer[i] == old(buffer[i])
    ensures buffer[..] == WithByte(old(buffer[..]), 2, id)
  {
    StampByte(buffer, 2, id);
    WithByteEffects(old(buffer[..]), 2, id);
  }

  /**
   * The rewrite the protocol describes: the id byte (index 1) gets the new id
   * and the checksum is re-stamped.
   */
  method RewriteId(buffer: array<byte>, id: byte)
    requires buffer.Length >= 5
    modifies buffer
    ensures buffer[1] == id
    ensures forall i :: 0 <= i < buffer.Length - 2 && i != 1 ==> buffer[i] == old(buffer[i])
    ensures buffer[..] == WithByte(old(buffer[..]), 1, id)
  {
    StampByte(buffer, 1, id);
    WithByteEffects(old(buffer[..]), 1, id);
  }

  /** Sets one byte before the checksum, then writes the new checksum low byte first. */
  method StampByte(buffer: array<byte>, index: nat, value: byte)
    requires index < buffer.Length - 2
    modifies buffer
    ensures buffer[..] == WithByte(old(buffer[..]), index, value)
  {
    ghost var patched := old(buffer[..])[index := value];
    buffer[index] := value;
    var n := buffer.Length;
    assert buffer[..n - 2] == patched[..n - 2];
    var crc := Crc16(buffer[..n - 2]);
    buffer[n - 2] := CrcLow(crc);
    buffer[n - 1] := CrcHigh(crc);
    assert buffer[..] == buffer[..n - 2] + [CrcLow(crc), CrcHigh(crc)];
  }

  /**
   * What setting one byte and re-stamping does: that byte holds the new
   * value, every other byte before the checksum is unchanged, and the last
   * two bytes are the checksum of the rest, low byte first.
   */
  lemma WithByteEffects(buf: seq<byte>, index: nat, value: byte)
    requires index < |buf| - 2
    ensures var r := WithByte(buf, index, value);
            && |r| == |buf| && r[index] == value
            && (forall i :: 0 <= i < |buf| - 2 && i != index ==> r[i] == buf[i])
            && r[|buf| - 2] == CrcLow(Crc16(r[..|buf| - 2]))
            && r[|buf| - 1] == CrcHigh(Crc16(r[..|buf| - 2]))
  {
    var patched := buf[index := value];
    var r := WithByte(buf, index, value);
    assert r[..|buf| - 2] == patched[..|buf| - 2];
    assert r[index] == patched[..|buf| - 2][index];
  }

  /**
   * The id rewrite as written never changes the id a receiver decodes: byte 1
   * keeps the old id and byte 2, the length field, takes the new id. When the
   * new id exceeds the payload length the decoder's length field points past
   * the end of the buffer; otherwise any successful decode still reports the
   * old id, with the new id as its length.
   */
  lemma UpdateIdHitsLengthByte(h: Head, x: byte)
    requires h.WellFormed()
    ensures var w := WithByte(WireBytes(h), 2, x);
            && |w| == |WireBytes(h)|
            && w[1] == h.id && w[2] == x
            && (x > |h.payload| ==> w[2] + 5 > |w|)
            && (x <= |h.payload| && Decode(w).Ok? ==>
                  Decode(w).value.id == h.id && Decode(w).value.length == x)
  {
    var w := WithByte(WireBytes(h), 2, x);
    var n := |WireBytes(h)|;
    assert w[..n - 2] == WireBytes(h)[2 := x][..n - 2];
    assert w[1] == WireBytes(h)[2 := x][1];
    assert w[2] == WireBytes(h)[2 := x][2];
  }

  /**
   * A concrete instance: a frame with id 0 and a 128-byte payload, rewritten to
   * id 37, never decodes with id 37; a decode that passes reads a 37-byte payload.
   */
  lemma UpdateIdExample(flags: byte, payload: seq<byte>)
    requires |payload| == 128
    ensures var w := WithByte(WireBytes(Head(0, flags, 0, 128, payload)), 2, 37);
            Decode(w).Ok? ==> Decode(w).value.id != 37 && |Decode(w).value.payload| == 37
  {
    UpdateIdHitsLengthByte(Head(0, flags, 0, 128, payload), 37);
  }

  /**
   * Rewriting byte 1 of a buffer that spells out a frame gives exactly the
   * wire form of the same frame with the new id, whatever the old id and
   * whatever its last two bytes held.
   */
  lemma RewriteIdReencodes(h: Head, buf: seq<byte>, x: byte)
    requires h.WellFormed() && |buf| == 5 + |h.payload| && buf[..|buf| - 2] == Covered(h)
    ensures WithByte(buf, 1, x) == WireBytes(h.(id := x))
  {
    var h' := h.(id := x);
    var n := |buf|;
    var patched := buf[1 := x];
    assert patched[..n - 2] == Covered(h');
  }

  /** So the rewritten buffer decodes to the frame with the new id. */
  lemma RewriteIdDecodes(h: Head, x: byte)
    requires h.WellFormed() && h.version <= 1 && h.flags < 0x80
    ensures Decode(WithByte(WireBytes(h), 1, x)) == Ok(h.(id := x))
  {
    var w := WireBytes(h);
    assert w[..|w| - 2] == Covered(h);
    RewriteIdReencodes(h, w, x);
    DecodeWireBytes(h.(id := x));
  }
}

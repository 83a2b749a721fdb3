/**
 * What the encoder produces, as functions: the type tag of a package, the
 * frames its serialized bytes are cut into (at most HEAD_MAX_PAYLOAD_SIZE
 * bytes each), and the FIN sentinel frame that closes a multi-frame message.
 *
 * `Level` and `Close` follow the recursion of `encodeDataToHeads` call for
 * call, including its end-of-message check at every level and the nested
 * encoding of a Finish package for the sentinel. `Chunks` is the same cut
 * without the checks; `LevelIsChunks` shows that a whole encoding is its
 * chunks followed by one check, and the properties of an encoding are
 * proved through it.
 *
 * Everything here follows the code as written, including its chunk offsets:
 * every full-size chunk is copied from the start of the serialized buffer,
 * and the last, shorter chunk from offset HEAD_MAX_PAYLOAD_SIZE.
 */
module Fragments {
  import opened Wrappers
  import opened Constants
  import opened Bits
  import opened Codec
  import AP = AggregationPackage

  /** Reasons the encoder gives up without producing any frame. */
  datatype EncodeError = NullPackage | PayloadLengthExceed | PartialLimitExceeded

  /**
   * The package kinds a frame can carry. Only the Aggregation serializer is
   * part of this model; every other kind is represented by the bytes its own
   * `serialize()` returns.
   */
  datatype Package =
    | Aggregation(agg: AP.Aggregation)
    | Data(bytes: seq<byte>)
    | Finish(bytes: seq<byte>)
    | Station(bytes: seq<byte>)
    | Error(bytes: seq<byte>)
    | Synchro(bytes: seq<byte>)
  {
    predicate Valid()
    {
      Aggregation? ==> agg.Valid()
    }
  }

  /** The type tag `encodeStart` picks for a package; a Finish package's tag has the FIN bit. */
  function Tag(p: Package): (t: FlagValue)
    ensures p.Finish? ==> And(t, FIN) == FIN
  {
    AndSelf(FIN);
    match p
    case Aggregation(_) => AGG
    case Data(_) => DAT
    case Finish(_) => FIN
    case Station(_) => STA
    case Error(_) => ERR
    case Synchro(_) => SYN
  }

  /** The bytes of a default-constructed Finish package, as its `serialize()` returns them. */
  const DefaultFinishBytes: seq<byte>

  /** Their length as the encoder stores it, a `uint16_t`. */
  const FinishLength: nat := |DefaultFinishBytes| % Uint16Range

  /**
   * What `package->serialize()` returns: the buffer and the length the
   * encoder is told to send. For an Aggregation the length stops before the
   * status block.
   */
  function Serialized(p: Package): (s: (seq<byte>, nat))
    requires p.Valid()
    ensures s.1 <= |s.0|
  {
    match p
    case Aggregation(a) => (AP.Layout(a), a.AllocSize() - AP.StatusWidth)
    case _ => (p.bytes, |p.bytes|)
  }

  /** The serialized length as `DataTransport::length` holds it: a `uint16_t`. */
  function TransportLength(p: Package): (n: nat)
    requires p.Valid()
    ensures n < Uint16Range && n <= |Serialized(p).0|
  {
    Serialized(p).1 % Uint16Range
  }

  /** The base flags of an encoding: the package's type tag with the extra flags ORed in. */
  function BaseFlags(p: Package, add: byte): (b: byte)
    ensures And(b, Tag(p)) == Tag(p) && And(b, add) == add
  {
    AndOfOr(Tag(p), add);
    AndOfOr(add, Tag(p));
    Or(Tag(p), add)
  }

  /** What every frame the encoder emits looks like. */
  predicate Emitted(h: Head)
  {
    h.WellFormed() && h.version == 0 && h.id == 0 && |h.payload| <= HeadMaxPayloadSize
  }

  /** The frame `newHead` builds: version 0, id 0, the given flags and payload. */
  function Frame(flags: byte, payload: seq<byte>): (h: Head)
    requires |payload| <= HeadMaxPayloadSize
    ensures Emitted(h) && h.flags == flags && h.payload == payload
  {
    Head(0, flags, 0, |payload|, payload)
  }

  /**
   * Where the last, shorter chunk is read from: the start of the buffer at
   * the top level (`payloadPtr = payload` when no frame exists yet), the
   * transport's own pointer below it.
   */
  function ReadOffset(ptr: nat, depth: nat): nat
  {
    if depth == 0 then 0 else ptr
  }

  /**
   * The frames one `encodeDataToHeads` call and its recursive calls push, for
   * `len` bytes still to send when `depth` frames already exist. A length
   * below the maximum becomes one frame; otherwise a full-size chunk, copied
   * from the start of the buffer and flagged PRT, is cut, unless
   * HEAD_MAX_PARTIAL frames already exist, and the rest is handled one level
   * deeper with the pointer advanced to HEAD_MAX_PAYLOAD_SIZE.
   */
  function Chunks(buf: seq<byte>, ptr: nat, len: nat, flags: byte, depth: nat): (r: Result<seq<Head>, EncodeError>)
    requires ReadOffset(ptr, depth) + len <= |buf|
    ensures r.Err? ==> r.error == PartialLimitExceeded
    ensures r.Ok? ==> |r.value| >= 1 && r.value[|r.value| - 1].flags == ClosingFlags(len, flags)
    decreases len
  {
    if len < HeadMaxPayloadSize then
      var offset := ReadOffset(ptr, depth);
      Ok([Frame(flags, buf[offset..offset + len])])
    else if depth >= HeadMaxPartial then
      Err(PartialLimitExceeded)
    else
      match Chunks(buf, HeadMaxPayloadSize, len - HeadMaxPayloadSize, Or(flags, PRT), depth + 1)
      case Err(e) => Err(e)
      case Ok(rest) =>
        PrtIdempotent(flags);
        Ok([Frame(Or(flags, PRT), buf[..HeadMaxPayloadSize])] + rest)
  }

  /**
   * The flags of the last chunk, and of the level whose end-of-message check
   * can add the sentinel: the deepest level, which has PRT added once a
   * full-size chunk was cut.
   */
  function ClosingFlags(len: nat, flags: byte): byte
  {
    if len < HeadMaxPayloadSize then flags else Or(flags, PRT)
  }

  /** A frame cut for a level with the given flags carries them, with PRT added or not. */
  predicate CarriesFlags(h: Head, flags: byte)
  {
    h.flags == flags || h.flags == Or(flags, PRT)
  }

  /** Whether the end-of-message check adds a sentinel: two or more frames, the last without FIN. */
  predicate NeedsSentinel(heads: seq<Head>)
  {
    |heads| > 1 && And(heads[|heads| - 1].flags, FIN) == NOT_SET
  }

  /**
   * The modifiers the FIN sentinel inherits from the flags of the level that
   * adds it: ACK when that level has ACK, PRT when it has PRT, nothing else.
   */
  function SentinelFlags(flags: byte): (fl: byte)
    ensures And(flags, ACK) == ACK ==> And(fl, ACK) == ACK
    ensures And(flags, PRT) == PRT ==> And(fl, PRT) == PRT
    ensures And(flags, ACK) != ACK && And(flags, PRT) != PRT ==> fl == NOT_SET
    ensures fl < 0x80
  {
    AndSelf(ACK);
    AndOfOr(ACK, PRT);
    var withAck := if And(flags, ACK) == ACK then ACK else NOT_SET;
    AndOfOr(PRT, withAck);
    OrBelow80(withAck, PRT);
    if And(flags, PRT) == PRT then Or(withAck, PRT) else withAck
  }

  /**
   * The end-of-message check of a level with the given flags: a vector that
   * needs a sentinel gets one more frame, the first frame of the encoding of
   * a default Finish package whose extra flags are the ACK and PRT bits of
   * `flags`. That encoding fails when its own chunks run into the
   * HEAD_MAX_PARTIAL limit, and then so does this check. Only a level whose
   * flags lack FIN can need the sentinel, which is what ends the recursion:
   * the Finish encoding has FIN in its flags.
   */
  function Close(heads: seq<Head>, flags: byte): (r: Result<seq<Head>, EncodeError>)
    requires NeedsSentinel(heads) ==> And(flags, FIN) == NOT_SET
    ensures r.Ok? ==> |heads| <= |r.value| && !NeedsSentinel(r.value)
    ensures r.Ok? && |heads| >= 1 ==> r.value[0] == heads[0]
    decreases Rank(flags), 0
  {
    if NeedsSentinel(heads) then
      var fl := SentinelFlags(flags);
      RankFacts(flags, fl);
      FinBitKept(fl);
      match Level([], DefaultFinishBytes, 0, FinishLength, Or(FIN, fl))
      case Err(e) => Err(e)
      case Ok(enc) => Ok(heads + [enc[0]])
    else
      Ok(heads)
  }

  /**
   * What one call of `encodeDataToHeads` leaves in the frame vector, given
   * the frames already in it. A length below the maximum becomes one frame
   * read at the level's offset; otherwise, unless HEAD_MAX_PARTIAL frames
   * already exist, a full-size chunk read from the start of the buffer and
   * flagged PRT is pushed and the rest is handled one level deeper, from
   * offset HEAD_MAX_PAYLOAD_SIZE with PRT added to the flags. Either way the
   * level then makes its own end-of-message check with its own flags.
   */
  function Level(prefix: seq<Head>, buf: seq<byte>, ptr: nat, len: nat, flags: byte): (r: Result<seq<Head>, EncodeError>)
    requires ReadOffset(ptr, |prefix|) + len <= |buf|
    ensures r.Ok? ==> |prefix| < |r.value| && !NeedsSentinel(r.value)
    ensures r.Ok? && |prefix| >= 1 ==> r.value[0] == prefix[0]
    ensures r.Ok? && |prefix| == 0 ==> CarriesFlags(r.value[0], flags)
    decreases Rank(flags), len + 1
  {
    if len < HeadMaxPayloadSize then
      var offset := ReadOffset(ptr, |prefix|);
      Close(prefix + [Frame(flags, buf[offset..offset + len])], flags)
    else if |prefix| >= HeadMaxPartial then
      Err(PartialLimitExceeded)
    else
      RankFacts(flags, NOT_SET);
      match Level(prefix + [Frame(Or(flags, PRT), buf[..HeadMaxPayloadSize])], buf, HeadMaxPayloadSize,
                  len - HeadMaxPayloadSize, Or(flags, PRT))
      case Err(e) => Err(e)
      case Ok(hs) => Close(hs, flags)
  }

  /** The frames `encodeRecursive` returns for `len` bytes of `buf` sent with the given flags. */
  function Message(buf: seq<byte>, len: nat, flags: byte): (r: Result<seq<Head>, EncodeError>)
    requires len <= |buf|
    ensures r.Ok? ==> |r.value| >= 1 && !NeedsSentinel(r.value)
  {
    Level([], buf, 0, len, flags)
  }

  /**
   * The frames `encodeStart` returns for a package and extra flags. The first
   * frame carries the package's type tag, so a receiver learns the type from
   * it, and every frame is one the encoder emits.
   */
  function Encoded(p: Package, add: byte): (r: Result<seq<Head>, EncodeError>)
    requires p.Valid()
    ensures r.Ok? ==> |r.value| >= 1 && And(r.value[0].flags, Tag(p)) == Tag(p)
    ensures r.Ok? ==> forall i :: 0 <= i < |r.value| ==> Emitted(r.value[i])
  {
    var buf := Serialized(p).0;
    var len := TransportLength(p);
    var flags := BaseFlags(p, add);
    var m := Message(buf, len, flags);
    if m.Ok? then
      OrKeeps(flags, PRT, Tag(p));
      MessageEmitted(buf, len, flags);
      m
    else
      m
  }

  /** Ranks an encoding by whether its flags still lack FIN: only such an encoding may add a sentinel. */
  function Rank(flags: byte): nat
  {
    if And(flags, FIN) == NOT_SET then 1 else 0
  }

  /** Adding PRT twice is adding it once. */
  lemma PrtIdempotent(flags: byte)
    ensures Or(Or(flags, PRT), PRT) == Or(flags, PRT)
  {
    OrAgain(flags, PRT);
  }

  /** Flags built on FIN keep the FIN bit, with or without PRT added. */
  lemma FinBitKept(x: byte)
    ensures And(Or(FIN, x), FIN) != NOT_SET && And(Or(Or(FIN, x), PRT), FIN) != NOT_SET
  {
    AndOfOr(FIN, x);
    if And(Or(Or(FIN, x), PRT), FIN) == NOT_SET {
      AndGrows(Or(FIN, x), PRT, FIN);
    }
  }

  /** Adding PRT never turns a FIN-less rank back on, and flags built on FIN rank lowest. */
  lemma RankFacts(flags: byte, x: byte)
    ensures Rank(Or(flags, PRT)) <= Rank(flags)
    ensures Rank(Or(FIN, x)) == 0
  {
    if And(Or(flags, PRT), FIN) == NOT_SET {
      AndGrows(flags, PRT, FIN);
    }
    AndOfOr(FIN, x);
  }

  /*
   * From the recursion as written to chunks and one check.
   */

  /** A vector that needs no sentinel is left as it is. */
  lemma CloseKeepsClosed(heads: seq<Head>, flags: byte)
    requires !NeedsSentinel(heads)
    ensures Close(heads, flags) == Ok(heads)
  {
  }

  /**
   * The encoding described without the recursion's bookkeeping: the chunks of
   * the bytes, appended to the frames already there, then one end-of-message
   * check with the flags of the deepest level.
   */
  function CutThenClose(prefix: seq<Head>, buf: seq<byte>, ptr: nat, len: nat, flags: byte): Result<seq<Head>, EncodeError>
    requires ReadOffset(ptr, |prefix|) + len <= |buf|
  {
    match Chunks(buf, ptr, len, flags, |prefix|)
    case Err(e) => Err(e)
    case Ok(hs) => Close(prefix + hs, ClosingFlags(len, flags))
  }

  /**
   * A level is its chunks followed by one end-of-message check, made with the
   * flags of the deepest level: every level above it finds the vector already
   * closed, so its own check adds nothing.
   */
  lemma {:induction false} LevelIsChunks(prefix: seq<Head>, buf: seq<byte>, ptr: nat, len: nat, flags: byte)
    requires ReadOffset(ptr, |prefix|) + len <= |buf|
    ensures Level(prefix, buf, ptr, len, flags) == CutThenClose(prefix, buf, ptr, len, flags)
    decreases len
  {
    if len >= HeadMaxPayloadSize && |prefix| < HeadMaxPartial {
      var next := prefix + [Frame(Or(flags, PRT), buf[..HeadMaxPayloadSize])];
      LevelIsChunks(next, buf, HeadMaxPayloadSize, len - HeadMaxPayloadSize, Or(flags, PRT));
      LevelPassesThrough(prefix, buf, ptr, len, flags);
      CutStep(prefix, buf, ptr, len, flags);
    }
  }

  /**
   * A level that cuts a full-size chunk returns what the level below it
   * returns: the vector that comes back needs no sentinel, so this level's
   * own check adds nothing.
   */
  lemma LevelPassesThrough(prefix: seq<Head>, buf: seq<byte>, ptr: nat, len: nat, flags: byte)
    requires ReadOffset(ptr, |prefix|) + len <= |buf|
    requires HeadMaxPayloadSize <= len && |prefix| < HeadMaxPartial
    ensures Level(prefix, buf, ptr, len, flags)
         == Level(prefix + [Frame(Or(flags, PRT), buf[..HeadMaxPayloadSize])], buf, HeadMaxPayloadSize,
                  len - HeadMaxPayloadSize, Or(flags, PRT))
  {
    var inner := Level(prefix + [Frame(Or(flags, PRT), buf[..HeadMaxPayloadSize])], buf, HeadMaxPayloadSize,
                       len - HeadMaxPayloadSize, Or(flags, PRT));
    if inner.Ok? {
      CloseKeepsClosed(inner.value, flags);
    }
  }

  /** Cutting one full-size chunk off moves it from the chunks to the frames already there. */
  lemma CutStep(prefix: seq<Head>, buf: seq<byte>, ptr: nat, len: nat, flags: byte)
    requires ReadOffset(ptr, |prefix|) + len <= |buf|
    requires HeadMaxPayloadSize <= len && |prefix| < HeadMaxPartial
    ensures CutThenClose(prefix, buf, ptr, len, flags)
         == CutThenClose(prefix + [Frame(Or(flags, PRT), buf[..HeadMaxPayloadSize])], buf, HeadMaxPayloadSize,
                         len - HeadMaxPayloadSize, Or(flags, PRT))
  {
    var first := Frame(Or(flags, PRT), buf[..HeadMaxPayloadSize]);
    var next := prefix + [first];
    var inner := Chunks(buf, HeadMaxPayloadSize, len - HeadMaxPayloadSize, Or(flags, PRT), |next|);
    if inner.Ok? {
      var rest := inner.value;
      assert Chunks(buf, ptr, len, flags, |prefix|) == Ok([first] + rest);
      PrtIdempotent(flags);
      assert ClosingFlags(len - HeadMaxPayloadSize, Or(flags, PRT)) == ClosingFlags(len, flags);
      assert prefix + ([first] + rest) == next + rest;
    }
  }

  /*
   * The shape of the chunks.
   */

  /** How many full-size chunks are cut from `len` bytes. */
  function Cuts(len: nat): nat
    decreases len
  {
    if len < HeadMaxPayloadSize then 0 else 1 + Cuts(len - HeadMaxPayloadSize)
  }

  /** The length of the last, shorter chunk cut from `len` bytes. */
  function Remainder(len: nat): (n: nat)
    ensures n < HeadMaxPayloadSize && n <= len
    ensures len >= HeadMaxPayloadSize ==> n + HeadMaxPayloadSize <= len
    decreases len
  {
    if len < HeadMaxPayloadSize then len else Remainder(len - HeadMaxPayloadSize)
  }

  /** `Cuts` and `Remainder` are the quotient and remainder of `len` by HEAD_MAX_PAYLOAD_SIZE. */
  lemma {:induction false} CutsDivide(len: nat)
    ensures Cuts(len) * HeadMaxPayloadSize + Remainder(len) == len
    decreases len
  {
    if len >= HeadMaxPayloadSize {
      CutsDivide(len - HeadMaxPayloadSize);
      assert (1 + Cuts(len - HeadMaxPayloadSize)) * HeadMaxPayloadSize
          == Cuts(len - HeadMaxPayloadSize) * HeadMaxPayloadSize + HeadMaxPayloadSize;
    }
  }

  /**
   * The last chunk: the remainder, read at the level's offset when nothing
   * was cut and at offset HEAD_MAX_PAYLOAD_SIZE otherwise, with PRT added
   * once a full-size chunk was cut.
   */
  function LastChunk(buf: seq<byte>, ptr: nat, len: nat, flags: byte, depth: nat): Head
    requires ReadOffset(ptr, depth) + len <= |buf|
  {
    var offset := if len < HeadMaxPayloadSize then ReadOffset(ptr, depth) else HeadMaxPayloadSize;
    Frame(ClosingFlags(len, flags), buf[offset..offset + Remainder(len)])
  }

  /** `Chunks` gives one frame per full-size chunk and one for the remainder. */
  lemma {:induction false} ChunksCount(buf: seq<byte>, ptr: nat, len: nat, flags: byte, depth: nat)
    requires ReadOffset(ptr, depth) + len <= |buf|
    ensures var r := Chunks(buf, ptr, len, flags, depth);
            r.Ok? ==> |r.value| == Cuts(len) + 1
    decreases len
  {
    if len >= HeadMaxPayloadSize && depth < HeadMaxPartial {
      ChunksCount(buf, HeadMaxPayloadSize, len - HeadMaxPayloadSize, Or(flags, PRT), depth + 1);
    }
  }

  /** Every frame but the last is a full-size chunk copied from the start of the buffer, flagged PRT. */
  lemma {:induction false} ChunksFull(buf: seq<byte>, ptr: nat, len: nat, flags: byte, depth: nat)
    requires ReadOffset(ptr, depth) + len <= |buf|
    ensures var r := Chunks(buf, ptr, len, flags, depth);
            r.Ok? ==> forall i :: 0 <= i < |r.value| - 1 ==> r.value[i] == Frame(Or(flags, PRT), buf[..HeadMaxPayloadSize])
    decreases len
  {
    if len >= HeadMaxPayloadSize && depth < HeadMaxPartial {
      ChunksFull(buf, HeadMaxPayloadSize, len - HeadMaxPayloadSize, Or(flags, PRT), depth + 1);
      PrtIdempotent(flags);
    }
  }

  /** The last frame of `Chunks` is `LastChunk`. */
  lemma {:induction false} ChunksLast(buf: seq<byte>, ptr: nat, len: nat, flags: byte, depth: nat)
    requires ReadOffset(ptr, depth) + len <= |buf|
    ensures var r := Chunks(buf, ptr, len, flags, depth);
            r.Ok? ==> r.value[|r.value| - 1] == LastChunk(buf, ptr, len, flags, depth)
    decreases len
  {
    if len >= HeadMaxPayloadSize && depth < HeadMaxPartial {
      ChunksLast(buf, HeadMaxPayloadSize, len - HeadMaxPayloadSize, Or(flags, PRT), depth + 1);
      PrtIdempotent(flags);
    }
  }

  /** Every frame `Chunks` produces is an emitted frame carrying the level's flags. */
  lemma {:induction false} ChunksEmitted(buf: seq<byte>, ptr: nat, len: nat, flags: byte, depth: nat)
    requires ReadOffset(ptr, depth) + len <= |buf|
    ensures var r := Chunks(buf, ptr, len, flags, depth);
            r.Ok? ==> forall i :: 0 <= i < |r.value| ==> Emitted(r.value[i]) && CarriesFlags(r.value[i], flags)
    decreases len
  {
    if len >= HeadMaxPayloadSize && depth < HeadMaxPartial {
      ChunksEmitted(buf, HeadMaxPayloadSize, len - HeadMaxPayloadSize, Or(flags, PRT), depth + 1);
      PrtIdempotent(flags);
    }
  }

  /**
   * Whether cutting `len` bytes, with `depth` frames already pushed, reaches
   * a level that must cut a full-size chunk while HEAD_MAX_PARTIAL frames
   * already exist.
   */
  predicate TooManyPartials(len: nat, depth: nat)
    decreases len
  {
    len >= HeadMaxPayloadSize && (depth >= HeadMaxPartial || TooManyPartials(len - HeadMaxPayloadSize, depth + 1))
  }

  /** `Chunks` fails exactly when some level runs into the HEAD_MAX_PARTIAL limit. */
  lemma {:induction false} ChunksFailure(buf: seq<byte>, ptr: nat, len: nat, flags: byte, depth: nat)
    requires ReadOffset(ptr, depth) + len <= |buf|
    ensures Chunks(buf, ptr, len, flags, depth).Err? <==> TooManyPartials(len, depth)
    decreases len
  {
    if len >= HeadMaxPayloadSize && depth < HeadMaxPartial {
      ChunksFailure(buf, HeadMaxPayloadSize, len - HeadMaxPayloadSize, Or(flags, PRT), depth + 1);
    }
  }

  /**
   * The HEAD_MAX_PARTIAL limit in closed form: starting with `depth` frames,
   * the cut fails exactly when `len` holds more than HEAD_MAX_PARTIAL - depth
   * full-size chunks.
   */
  lemma {:induction false} TooManyPartialsBound(len: nat, depth: nat)
    requires depth <= HeadMaxPartial
    ensures TooManyPartials(len, depth) <==> Cuts(len) + depth > HeadMaxPartial
    decreases len
  {
    if depth < HeadMaxPartial && len >= HeadMaxPayloadSize {
      TooManyPartialsBound(len - HeadMaxPayloadSize, depth + 1);
    }
  }

  /*
   * The sentinel.
   */

  /**
   * The sentinel frame for the modifiers `fl`: the first frame of the
   * encoding of the default Finish bytes, flagged FIN with the modifiers, and
   * PRT as well when those bytes fill a whole frame.
   */
  function FinishFrame(fl: byte): (h: Head)
    ensures Emitted(h)
  {
    if FinishLength < HeadMaxPayloadSize then Frame(Or(FIN, fl), DefaultFinishBytes[..FinishLength])
    else Frame(Or(Or(FIN, fl), PRT), DefaultFinishBytes[..HeadMaxPayloadSize])
  }

  /**
   * The nested encoding of the default Finish package fails exactly when its
   * own chunks run into the HEAD_MAX_PARTIAL limit; otherwise its first frame
   * is `FinishFrame`.
   */
  lemma SentinelFrame(fl: byte)
    ensures var enc := Level([], DefaultFinishBytes, 0, FinishLength, Or(FIN, fl));
            && (enc.Err? <==> TooManyPartials(FinishLength, 0))
            && (enc.Err? ==> enc.error == PartialLimitExceeded)
            && (enc.Ok? ==> enc.value[0] == FinishFrame(fl))
  {
    var flags := Or(FIN, fl);
    LevelIsChunks([], DefaultFinishBytes, 0, FinishLength, flags);
    ChunksFailure(DefaultFinishBytes, 0, FinishLength, flags, 0);
    var cut := Chunks(DefaultFinishBytes, 0, FinishLength, flags, 0);
    if cut.Ok? {
      var hs := cut.value;
      FinBitKept(fl);
      assert [] + hs == hs;
      CloseKeepsClosed(hs, ClosingFlags(FinishLength, flags));
      ChunksFirst(DefaultFinishBytes, 0, FinishLength, flags, 0);
    }
  }

  /** The first frame of `Chunks`: the whole length when it is short, a full-size PRT chunk otherwise. */
  lemma ChunksFirst(buf: seq<byte>, ptr: nat, len: nat, flags: byte, depth: nat)
    requires ReadOffset(ptr, depth) + len <= |buf|
    ensures var r := Chunks(buf, ptr, len, flags, depth);
            var offset := ReadOffset(ptr, depth);
            r.Ok? ==> r.value[0] == if len < HeadMaxPayloadSize then Frame(flags, buf[offset..offset + len])
                                   else Frame(Or(flags, PRT), buf[..HeadMaxPayloadSize])
  {
  }

  /**
   * The end-of-message check in closed form: a vector that needs a sentinel
   * gets `FinishFrame` of the level's ACK and PRT bits, unless the Finish
   * encoding runs into the HEAD_MAX_PARTIAL limit; any other vector is kept.
   */
  lemma CloseShape(heads: seq<Head>, flags: byte)
    requires NeedsSentinel(heads) ==> And(flags, FIN) == NOT_SET
    ensures Close(heads, flags)
         == if !NeedsSentinel(heads) then Ok(heads)
            else if TooManyPartials(FinishLength, 0) then Err(PartialLimitExceeded)
            else Ok(heads + [FinishFrame(SentinelFlags(flags))])
  {
    if NeedsSentinel(heads) {
      SentinelFrame(SentinelFlags(flags));
    }
  }

  /*
   * What `encodeStart` returns.
   */

  /**
   * The frame the end-of-message check adds to the chunks of `len` bytes cut
   * with the given base flags: the sentinel when a full-size chunk was cut and
   * the deepest level's flags (the base flags plus PRT) lack FIN, none otherwise.
   */
  function SentinelPart(len: nat, flags: byte): seq<Head>
  {
    if len >= HeadMaxPayloadSize && And(Or(flags, PRT), FIN) == NOT_SET then [FinishFrame(SentinelFlags(Or(flags, PRT)))]
    else []
  }

  /**
   * The sentinel an encoding ends with has the FIN and PRT bits set, and the
   * ACK bit whenever the base flags have it.
   */
  lemma SentinelPartFlags(len: nat, flags: byte)
    requires SentinelPart(len, flags) != []
    ensures And(SentinelPart(len, flags)[0].flags, FIN) == FIN
    ensures And(SentinelPart(len, flags)[0].flags, PRT) == PRT
    ensures And(flags, ACK) == ACK ==> And(SentinelPart(len, flags)[0].flags, ACK) == ACK
  {
    var fl := SentinelFlags(Or(flags, PRT));
    var head := Or(FIN, fl);
    AndOfOr(PRT, flags);
    AndOfOr(FIN, fl);
    OrKeeps(fl, FIN, PRT);
    OrKeeps(head, PRT, FIN);
    AndOfOr(PRT, head);
    if And(flags, ACK) == ACK {
      OrKeeps(flags, PRT, ACK);
      OrKeeps(fl, FIN, ACK);
      OrKeeps(head, PRT, ACK);
    }
  }

  /** A successful encoding is the chunks of the bytes followed by `SentinelPart`. */
  lemma MessageFrames(buf: seq<byte>, len: nat, flags: byte)
    requires len <= |buf| && Message(buf, len, flags).Ok?
    ensures var cut := Chunks(buf, 0, len, flags, 0);
            cut.Ok? && Message(buf, len, flags).value == cut.value + SentinelPart(len, flags)
  {
    LevelIsChunks([], buf, 0, len, flags);
    var cut := Chunks(buf, 0, len, flags, 0);
    if cut.Ok? {
      var hs := cut.value;
      assert [] + hs == hs;
      CloseShape(hs, ClosingFlags(len, flags));
    }
  }

  /**
   * When an encoding fails: its own chunks run into the HEAD_MAX_PARTIAL
   * limit, or it needs a sentinel and the Finish encoding runs into it.
   */
  predicate FailsOn(len: nat, flags: byte)
  {
    || TooManyPartials(len, 0)
    || (len >= HeadMaxPayloadSize && And(Or(flags, PRT), FIN) == NOT_SET && TooManyPartials(FinishLength, 0))
  }

  /** An encoding fails exactly in the cases `FailsOn` names, and always with PartialLimitExceeded. */
  lemma MessageFailure(buf: seq<byte>, len: nat, flags: byte)
    requires len <= |buf|
    ensures Message(buf, len, flags).Err? <==> FailsOn(len, flags)
    ensures Message(buf, len, flags).Err? ==> Message(buf, len, flags).error == PartialLimitExceeded
  {
    LevelIsChunks([], buf, 0, len, flags);
    ChunksFailure(buf, 0, len, flags, 0);
    var cut := Chunks(buf, 0, len, flags, 0);
    if cut.Ok? {
      var hs := cut.value;
      assert [] + hs == hs;
      CloseShape(hs, ClosingFlags(len, flags));
    }
  }

  /**
   * `FailsOn` in closed form: the length holds more than HEAD_MAX_PARTIAL
   * full-size chunks, or a sentinel is needed and the default Finish bytes
   * hold more than that. (`CutsDivide` shows `Cuts` is the quotient by
   * HEAD_MAX_PAYLOAD_SIZE.)
   */
  lemma FailsOnBound(len: nat, flags: byte)
    ensures var sentinel := len >= HeadMaxPayloadSize && And(Or(flags, PRT), FIN) == NOT_SET;
            FailsOn(len, flags) <==> Cuts(len) > HeadMaxPartial || (sentinel && Cuts(FinishLength) > HeadMaxPartial)
  {
    TooManyPartialsBound(len, 0);
    TooManyPartialsBound(FinishLength, 0);
  }

  /** A length below HEAD_MAX_PAYLOAD_SIZE is sent as one frame carrying all of it. */
  lemma MessageSingleFrame(buf: seq<byte>, len: nat, flags: byte)
    requires len <= |buf| && len < HeadMaxPayloadSize
    ensures Message(buf, len, flags) == Ok([Frame(flags, buf[..len])])
  {
    var frame := Frame(flags, buf[0..len]);
    assert buf[0..len] == buf[..len];
    assert [] + [frame] == [frame];
    CloseKeepsClosed([frame], flags);
  }

  /**
   * A longer encoding: one full-size chunk of the start of the buffer per
   * HEAD_MAX_PAYLOAD_SIZE bytes, flagged PRT, then the remainder read from
   * offset HEAD_MAX_PAYLOAD_SIZE, also flagged PRT, then the sentinel when
   * the flags lack FIN.
   */
  lemma MessageLong(buf: seq<byte>, len: nat, flags: byte)
    requires len <= |buf| && Message(buf, len, flags).Ok? && len >= HeadMaxPayloadSize
    ensures var frames := Message(buf, len, flags).value;
            && |frames| == Cuts(len) + 1 + |SentinelPart(len, flags)|
            && (forall i :: 0 <= i < Cuts(len) ==> frames[i] == Frame(Or(flags, PRT), buf[..HeadMaxPayloadSize]))
            && frames[Cuts(len)] == Frame(Or(flags, PRT), buf[HeadMaxPayloadSize..HeadMaxPayloadSize + Remainder(len)])
  {
    MessageFrames(buf, len, flags);
    ChunksCount(buf, 0, len, flags, 0);
    ChunksFull(buf, 0, len, flags, 0);
    ChunksLast(buf, 0, len, flags, 0);
  }

  /**
   * A length of exactly HEAD_MAX_PAYLOAD_SIZE gives a full-size frame
   * followed by an empty one, both flagged PRT.
   */
  lemma MessageExactMax(buf: seq<byte>, flags: byte)
    requires HeadMaxPayloadSize <= |buf| && Message(buf, HeadMaxPayloadSize, flags).Ok?
    ensures var frames := Message(buf, HeadMaxPayloadSize, flags).value;
            frames[0] == Frame(Or(flags, PRT), buf[..HeadMaxPayloadSize]) && frames[1] == Frame(Or(flags, PRT), [])
  {
    MessageLong(buf, HeadMaxPayloadSize, flags);
  }

  /** Every frame of an encoding is an emitted frame: version 0, id 0, at most HEAD_MAX_PAYLOAD_SIZE bytes. */
  lemma MessageEmitted(buf: seq<byte>, len: nat, flags: byte)
    requires len <= |buf| && Message(buf, len, flags).Ok?
    ensures var frames := Message(buf, len, flags).value;
            forall i :: 0 <= i < |frames| ==> Emitted(frames[i])
  {
    MessageFrames(buf, len, flags);
    ChunksEmitted(buf, 0, len, flags, 0);
  }

  /** Flags in the low seven bits stay there in every frame, the sentinel's included. */
  lemma MessageFlagsBelow80(buf: seq<byte>, len: nat, flags: byte)
    requires len <= |buf| && Message(buf, len, flags).Ok? && flags < 0x80
    ensures var frames := Message(buf, len, flags).value;
            forall i :: 0 <= i < |frames| ==> frames[i].flags < 0x80
  {
    MessageFrames(buf, len, flags);
    ChunksEmitted(buf, 0, len, flags, 0);
    OrBelow80(flags, PRT);
    var fl := SentinelFlags(Or(flags, PRT));
    OrBelow80(FIN, fl);
    OrBelow80(Or(FIN, fl), PRT);
  }

  /**
   * Every frame of an encoding whose flags fit in seven bits comes back
   * unchanged from `decode` of its wire bytes.
   */
  lemma MessageDecodes(buf: seq<byte>, len: nat, flags: byte)
    requires len <= |buf| && Message(buf, len, flags).Ok? && flags < 0x80
    ensures var frames := Message(buf, len, flags).value;
            forall i :: 0 <= i < |frames| ==> frames[i].WellFormed() && Decode(WireBytes(frames[i])) == Ok(frames[i])
  {
    var frames := Message(buf, len, flags).value;
    MessageEmitted(buf, len, flags);
    MessageFlagsBelow80(buf, len, flags);
    forall i | 0 <= i < |frames|
      ensures frames[i].WellFormed() && Decode(WireBytes(frames[i])) == Ok(frames[i])
    {
      assert Emitted(frames[i]) && frames[i].flags < 0x80;
      DecodeWireBytes(frames[i]);
    }
  }

  /** Extra flags in the low seven bits give base flags in the low seven bits. */
  lemma BaseFlagsBelow80(p: Package, add: byte)
    requires add < 0x80
    ensures BaseFlags(p, add) < 0x80
  {
    OrBelow80(Tag(p), add);
  }

  /*
   * Reassembly.
   */

  /** The payloads of a sequence of frames, joined in order. */
  function Joined(frames: seq<Head>): seq<byte>
  {
    if frames == [] then [] else frames[0].payload + Joined(frames[1..])
  }

  /**
   * A message of one full-size chunk and a remainder is reassembled
   * correctly: its first two frames carry the bytes in order.
   */
  lemma TwoFragmentsReassemble(buf: seq<byte>, len: nat, flags: byte)
    requires len <= |buf| && Message(buf, len, flags).Ok?
    requires HeadMaxPayloadSize <= len < 2 * HeadMaxPayloadSize
    ensures var frames := Message(buf, len, flags).value;
            frames[0].payload + frames[1].payload == buf[..len]
  {
    MessageLong(buf, len, flags);
    assert Cuts(len - HeadMaxPayloadSize) == 0;
  }

  /**
   * From three frames on, the second frame repeats the first: every
   * full-size chunk is copied from the start of the buffer.
   */
  lemma RepeatedFirstChunk(buf: seq<byte>, len: nat, flags: byte)
    requires len <= |buf| && Message(buf, len, flags).Ok?
    requires len >= 2 * HeadMaxPayloadSize
    ensures var frames := Message(buf, len, flags).value;
            frames[1].payload == frames[0].payload == buf[..HeadMaxPayloadSize]
  {
    MessageLong(buf, len, flags);
    assert Cuts(len - HeadMaxPayloadSize) >= 1;
  }

  /**
   * So a buffer whose second chunk differs from its first is not sent as it
   * is: the second frame does not carry the second chunk.
   */
  lemma SecondChunkLost(buf: seq<byte>, len: nat, flags: byte)
    requires len <= |buf| && Message(buf, len, flags).Ok?
    requires len >= 2 * HeadMaxPayloadSize
    requires buf[HeadMaxPayloadSize..2 * HeadMaxPayloadSize] != buf[..HeadMaxPayloadSize]
    ensures var frames := Message(buf, len, flags).value;
            frames[1].payload != buf[HeadMaxPayloadSize..2 * HeadMaxPayloadSize]
  {
    RepeatedFirstChunk(buf, len, flags);
  }

  /**
   * The cut as evidently intended: every chunk is read at the running offset,
   * which moves on by HEAD_MAX_PAYLOAD_SIZE with each full-size chunk. The
   * flags and the HEAD_MAX_PARTIAL limit are those of `Chunks`.
   */
  function IntendedChunks(buf: seq<byte>, offset: nat, len: nat, flags: byte, depth: nat): (r: Result<seq<Head>, EncodeError>)
    requires offset + len <= |buf|
    ensures r.Err? ==> r.error == PartialLimitExceeded
    ensures r.Ok? ==> |r.value| == Cuts(len) + 1
    decreases len
  {
    if len < HeadMaxPayloadSize then
      Ok([Frame(flags, buf[offset..offset + len])])
    else if depth >= HeadMaxPartial then
      Err(PartialLimitExceeded)
    else
      match IntendedChunks(buf, offset + HeadMaxPayloadSize, len - HeadMaxPayloadSize, Or(flags, PRT), depth + 1)
      case Err(e) => Err(e)
      case Ok(rest) => Ok([Frame(Or(flags, PRT), buf[offset..offset + HeadMaxPayloadSize])] + rest)
  }

  /** The intended cut reassembles: its payloads, joined, are the bytes that were cut. */
  lemma {:induction false} IntendedChunksReassemble(buf: seq<byte>, offset: nat, len: nat, flags: byte, depth: nat)
    requires offset + len <= |buf|
    ensures var r := IntendedChunks(buf, offset, len, flags, depth);
            r.Ok? ==> Joined(r.value) == buf[offset..offset + len]
    decreases len
  {
    if len >= HeadMaxPayloadSize && depth < HeadMaxPartial {
      var next := offset + HeadMaxPayloadSize;
      IntendedChunksReassemble(buf, next, len - HeadMaxPayloadSize, Or(flags, PRT), depth + 1);
      var r := IntendedChunks(buf, next, len - HeadMaxPayloadSize, Or(flags, PRT), depth + 1);
      if r.Ok? {
        var hs := [Frame(Or(flags, PRT), buf[offset..next])] + r.value;
        assert hs[1..] == r.value;
        assert buf[offset..offset + len] == buf[offset..next] + buf[next..offset + len];
      }
    } else if len < HeadMaxPayloadSize {
      assert Joined([Frame(flags, buf[offset..offset + len])]) == buf[offset..offset + len] + Joined([]);
    }
  }

  /** The intended cut fails exactly where the cut as written does. */
  lemma {:induction false} IntendedChunksFailure(buf: seq<byte>, offset: nat, len: nat, flags: byte, depth: nat)
    requires offset + len <= |buf|
    ensures IntendedChunks(buf, offset, len, flags, depth).Err? <==> TooManyPartials(len, depth)
    decreases len
  {
    if len >= HeadMaxPayloadSize && depth < HeadMaxPartial {
      IntendedChunksFailure(buf, offset + HeadMaxPayloadSize, len - HeadMaxPayloadSize, Or(flags, PRT), depth + 1);
    }
  }

  /** Up to one full-size chunk and a remainder, the cut as written is the intended one. */
  lemma ChunksAsIntendedWhenShort(buf: seq<byte>, len: nat, flags: byte)
    requires len <= |buf| && len < 2 * HeadMaxPayloadSize
    ensures Chunks(buf, 0, len, flags, 0) == IntendedChunks(buf, 0, len, flags, 0)
  {
    if len >= HeadMaxPayloadSize {
      assert buf[0..HeadMaxPayloadSize] == buf[..HeadMaxPayloadSize];
    }
  }
}

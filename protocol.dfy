/**
 * The encoder and decoder entry points as the code runs them: the transport
 * record and the frame vector are objects the recursion updates in place,
 * and each method is proved to return what the functions of `Fragments` and
 * `Codec` describe.
 */
module Protocol {
  import opened Wrappers
  import opened Constants
  import opened Bits
  import opened Codec
  import opened Fragments

  /** `DataTransport`: the buffer being sent, a read offset into it, the length left and the frame flags. */
  class DataTransport {
    var payload: seq<byte>
    var payloadPtr: nat
    var length: uint16
    var flags: byte

    constructor()
      ensures payload == [] && payloadPtr == 0 && length == 0 && flags == NOT_SET
    {
      payload := [];
      payloadPtr := 0;
      length := 0;
      flags := NOT_SET;
    }
  }

  /** The `vector<Head::Ptr>` the recursion appends to through a reference. */
  class HeadVector {
    var heads: seq<Head>

    constructor()
      ensures heads == []
    {
      heads := [];
    }
  }

  /**
   * `newHead`: rejects a length above the maximum, otherwise copies `length`
   * bytes from the transport's pointer into a fresh, zero-filled payload of
   * a version-0, id-0 frame carrying the transport's flags.
   */
  method NewHead(data: DataTransport) returns (r: Result<Head, EncodeError>)
    requires data.length <= HeadMaxPayloadSize ==> data.payloadPtr + data.length <= |data.payload|
    ensures r.Err? <==> data.length > HeadMaxPayloadSize
    ensures r.Err? ==> r.error == PayloadLengthExceed
    ensures r.Ok? ==> r.value == Frame(data.flags, data.payload[data.payloadPtr..data.payloadPtr + data.length])
  {
    if data.length > HeadMaxPayloadSize {
      return Err(PayloadLengthExceed);
    }
    var n := data.length;
    var payload := new byte[n](_ => 0);
    var i := 0;
    while i < n
      invariant 0 <= i <= n
      invariant payload[..i] == data.payload[data.payloadPtr..data.payloadPtr + i]
    {
      payload[i] := data.payload[data.payloadPtr + i];
      i := i + 1;
    }
    r := Ok(Head(0, data.flags, 0, n, payload[..]));
  }

  /**
   * `encodeDataToHeads`: appends this level's frames to `ret` (one frame for
   * a short length, otherwise a full-size PRT chunk and the frames of the
   * next level), then makes the end-of-message check with this level's
   * flags. The result is `Level` of the initial state, and on success `ret`
   * holds it. The two branches are the methods `EncodeShort` and `EncodeLong`.
   */
  method EncodeDataToHeads(ret: HeadVector, data: DataTransport) returns (r: Result<seq<Head>, EncodeError>)
    requires ReadOffset(data.payloadPtr, |ret.heads|) + data.length <= |data.payload|
    modifies ret, data
    decreases Rank(data.flags), data.length + 1, 2
    ensures r == Level(old(ret.heads), old(data.payload), old(data.payloadPtr), old(data.length), old(data.flags))
    ensures r.Ok? ==> ret.heads == r.value
    ensures data.payload == old(data.payload) && data.length == old(data.length) && data.flags == old(data.flags)
  {
    if data.length < HeadMaxPayloadSize {
      r := EncodeShort(ret, data);
    } else if data.length > 0 {
      if |ret.heads| >= HeadMaxPartial {
        return Err(PartialLimitExceeded);
      }
      r := EncodeLong(ret, data);
    }
  }

  /** The short branch: one frame for the whole remaining length, then the end-of-message check. */
  method EncodeShort(ret: HeadVector, data: DataTransport) returns (r: Result<seq<Head>, EncodeError>)
    requires ReadOffset(data.payloadPtr, |ret.heads|) + data.length <= |data.payload|
    requires data.length < HeadMaxPayloadSize
    modifies ret, data
    decreases Rank(data.flags), data.length + 1, 1
    ensures r == Level(old(ret.heads), old(data.payload), old(data.payloadPtr), old(data.length), old(data.flags))
    ensures r.Ok? ==> ret.heads == r.value
    ensures data.payload == old(data.payload) && data.length == old(data.length) && data.flags == old(data.flags)
  {
    PushRemainder(ret, data);
    r := CloseMessage(ret, data.flags);
  }

  /**
   * The long branch once the HEAD_MAX_PARTIAL check has passed: a full-size
   * chunk, the recursive call for the rest, then the end-of-message check.
   */
  method EncodeLong(ret: HeadVector, data: DataTransport) returns (r: Result<seq<Head>, EncodeError>)
    requires ReadOffset(data.payloadPtr, |ret.heads|) + data.length <= |data.payload|
    requires data.length >= HeadMaxPayloadSize && |ret.heads| < HeadMaxPartial
    modifies ret
    decreases Rank(data.flags), data.length + 1, 1
    ensures r == Level(old(ret.heads), data.payload, data.payloadPtr, data.length, data.flags)
    ensures r.Ok? ==> ret.heads == r.value
  {
    var local := PushFullChunk(ret, data);
    RankFacts(data.flags, NOT_SET);
    r := EncodeDataToHeads(ret, local);
    if r.Err? {
      return;
    }
    r := CloseMessage(ret, data.flags);
  }

  /**
   * The short branch of `encodeDataToHeads`: at the top level the pointer is
   * reset to the start of the buffer, then one frame of the remaining length
   * is built from the pointer and pushed.
   */
  method PushRemainder(ret: HeadVector, data: DataTransport)
    requires data.length < HeadMaxPayloadSize
    requires ReadOffset(data.payloadPtr, |ret.heads|) + data.length <= |data.payload|
    modifies ret, data
    ensures data.payload == old(data.payload) && data.length == old(data.length) && data.flags == old(data.flags)
    ensures var offset := ReadOffset(old(data.payloadPtr), |old(ret.heads)|);
            ret.heads == old(ret.heads) + [Frame(data.flags, data.payload[offset..offset + data.length])]
  {
    if |ret.heads| == 0 {
      data.payloadPtr := 0;
    }
    var h := NewHead(data);
    ret.heads := ret.heads + [h.value];
  }

  /**
   * The long branch of `encodeDataToHeads` up to the recursive call: a new
   * transport over the same buffer with the flags plus PRT, a full-size
   * frame read from the start of the buffer, and the transport moved on to
   * offset HEAD_MAX_PAYLOAD_SIZE with the length reduced by as much.
   */
  method PushFullChunk(ret: HeadVector, data: DataTransport) returns (local: DataTransport)
    requires HeadMaxPayloadSize <= data.length <= |data.payload|
    modifies ret
    ensures fresh(local)
    ensures ret.heads == old(ret.heads) + [Frame(Or(data.flags, PRT), data.payload[..HeadMaxPayloadSize])]
    ensures local.payload == data.payload && local.payloadPtr == HeadMaxPayloadSize
    ensures local.length == data.length - HeadMaxPayloadSize && local.flags == Or(data.flags, PRT)
  {
    local := new DataTransport();
    local.payload := data.payload;
    local.payloadPtr := 0;
    local.length := HeadMaxPayloadSize;
    local.flags := Or(data.flags, PRT);
    var h := NewHead(local);
    ret.heads := ret.heads + [h.value];
    local.payloadPtr := local.payloadPtr + HeadMaxPayloadSize;
    local.length := data.length - HeadMaxPayloadSize;
  }

  /**
   * The end-of-message check of `encodeDataToHeads`: when `ret` holds two or
   * more frames and the last one lacks FIN, the first frame of the encoding
   * of a default Finish package, with the ACK and PRT bits of `flags`, is
   * appended. `flags` are the flags of the level making the check.
   */
  method CloseMessage(ret: HeadVector, flags: byte) returns (r: Result<seq<Head>, EncodeError>)
    requires NeedsSentinel(ret.heads) ==> And(flags, FIN) == NOT_SET
    modifies ret
    decreases Rank(flags), 0, 0
    ensures r == Close(old(ret.heads), flags)
    ensures r.Ok? ==> ret.heads == r.value
  {
    if |ret.heads| > 1 && And(ret.heads[|ret.heads| - 1].flags, FIN) == NOT_SET {
      var fl := SentinelFlags(flags);
      FinishEncodingUnfolds(fl);
      RankFacts(flags, fl);
      var enc := EncodeStart(Some(Finish(DefaultFinishBytes)), fl);
      if enc.Err? {
        return Err(enc.error);
      }
      if |enc.value| > 0 {
        ret.heads := ret.heads + [enc.value[0]];
      }
    }
    r := Ok(ret.heads);
  }

  /** `encodeRecursive`: runs `encodeDataToHeads` on a fresh, empty frame vector. */
  method EncodeRecursive(data: DataTransport) returns (r: Result<seq<Head>, EncodeError>)
    requires data.length <= |data.payload|
    modifies data
    decreases Rank(data.flags), Uint16Range + 2, 0
    ensures r == Message(old(data.payload), old(data.length), old(data.flags))
  {
    var ret := new HeadVector();
    r := EncodeDataToHeads(ret, data);
  }

  /** How `encodeStart` ranks in the recursion: by whether the base flags lack FIN. */
  function StartRank(package: Option<Package>, add: byte): nat
  {
    match package
    case None => 0
    case Some(p) => Rank(BaseFlags(p, add))
  }

  /**
   * `encodeStart`: a null package is rejected; otherwise the base flags are
   * the package's type tag ORed with the extra flags, the package is
   * serialized, its length is stored as a `uint16_t`, and the frames are
   * those of `Encoded`.
   */
  method EncodeStart(package: Option<Package>, add: byte) returns (r: Result<seq<Head>, EncodeError>)
    requires package.Some? ==> package.value.Valid()
    decreases StartRank(package, add), Uint16Range + 3, 0
    ensures package.None? ==> r == Err(NullPackage)
    ensures package.Some? ==> r == Encoded(package.value, add)
  {
    if package.None? {
      return Err(NullPackage);
    }
    var p := package.value;
    var data := new DataTransport();
    data.flags := BaseFlags(p, add);
    var buf, size := SerializePackage(p);
    data.payload := buf;
    data.length := size % Uint16Range;
    r := EncodeRecursive(data);
  }

  /** `package->serialize()`, dispatched on the package kind. */
  method SerializePackage(p: Package) returns (buf: seq<byte>, size: nat)
    requires p.Valid()
    ensures (buf, size) == Serialized(p)
  {
    match p
    case Aggregation(a) =>
      buf, size := a.Serialize();
    case _ =>
      buf, size := p.bytes, |p.bytes|;
  }

  /**
   * `encode`: the wire bytes of every frame `encodeStart` returns, in order;
   * it fails exactly when `encodeStart` does.
   */
  method Encode(package: Option<Package>, add: byte) returns (r: Result<seq<seq<byte>>, EncodeError>)
    requires package.Some? ==> package.value.Valid()
    ensures package.None? ==> r == Err(NullPackage)
    ensures package.Some? ==> (r.Ok? <==> Encoded(package.value, add).Ok?)
    ensures package.Some? && r.Err? ==> r.error == PartialLimitExceeded
    ensures package.Some? && r.Ok? ==>
              var frames := Encoded(package.value, add).value;
              && |r.value| == |frames|
              && forall i :: 0 <= i < |r.value| ==> frames[i].WellFormed() && r.value[i] == WireBytes(frames[i])
  {
    var heads := EncodeStart(package, add);
    if heads.Err? {
      if package.Some? {
        MessageFailure(Serialized(package.value).0, TransportLength(package.value), BaseFlags(package.value, add));
      }
      return Err(heads.error);
    }
    var frames := heads.value;
    MessageEmitted(Serialized(package.value).0, TransportLength(package.value), BaseFlags(package.value, add));
    var buffers: seq<seq<byte>> := [];
    for i := 0 to |frames|
      invariant |buffers| == i
      invariant forall j :: 0 <= j < i ==> frames[j].WellFormed() && buffers[j] == WireBytes(frames[j])
    {
      var wire := EncodeHead(frames[i]);
      buffers := buffers + [wire];
    }
    r := Ok(buffers);
  }

  /** The Finish encoding the sentinel takes its frame from is the `Message` of the default Finish bytes. */
  lemma FinishEncodingUnfolds(fl: byte)
    ensures Encoded(Finish(DefaultFinishBytes), fl) == Message(DefaultFinishBytes, FinishLength, Or(FIN, fl))
  {
    var fin := Finish(DefaultFinishBytes);
    assert Serialized(fin) == (DefaultFinishBytes, |DefaultFinishBytes|);
  }
}

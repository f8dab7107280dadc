/**
 * Decoding of one fixed-size ASF data packet (section 5.2 of the ASF
 * specification): the error-correction byte, the length-type flags that size
 * the optional fields, send time and duration, then one or more payloads whose
 * patchable fields have their byte offsets recorded.
 */
module PacketCodec {
  import opened Bytes
  import opened Wrappers
  import opened StreamInfos

  /** The exceptions the packet constructor can raise. */
  datatype PacketError =
    | SizeMismatch            // buffer length differs from the configured packet size
    | OpaqueDataPresent       // byte 0 has the opaque-data bit 0x10
    | InvalidErrorCorrection  // error-correction length type and data size disagree
    | ErrorCorrectionData     // bytes 1 and 2 (error-correction type and cycle) not both zero
    | OutOfRange              // a field lies beyond the end of the buffer

  /** The two length-type bits (5 and 6) of the error-correction byte. */
  function LengthTypeBits(b0: u8): nat { (b0 / 32) % 4 }

  /** `(byte)((b0 ^ 128) >> 5)` */
  function ErrorCorrectionLengthType(b0: u8): (r: nat)
    ensures b0 >= 128 ==> r == LengthTypeBits(b0)
  {
    (if b0 >= 128 then b0 - 128 else b0 + 128) / 32
  }

  /** The checks on byte 0: the opaque-data bit always rejects; with error correction present,
      length type 0 needs a data-field size of 2 and any other length type a size of 0. */
  function CheckErrorCorrection(b0: u8): (r: Outcome<PacketError>)
    ensures HasBit(b0, 16) ==> r == Fail(OpaqueDataPresent)
    ensures r.Pass? <==>
      !HasBit(b0, 16) && (b0 >= 128 ==> b0 % 16 == (if LengthTypeBits(b0) == 0 then 2 else 0))
    ensures r.Fail? && !HasBit(b0, 16) ==> r.error == InvalidErrorCorrection
  {
    var present := b0 >= 128;
    var lengthType := ErrorCorrectionLengthType(b0);
    var dataFieldSize := b0 % 16;
    if HasBit(b0, 16) then Fail(OpaqueDataPresent)
    else if present && ((lengthType == 0 && dataFieldSize != 2) || (lengthType != 0 && dataFieldSize != 0))
    then Fail(InvalidErrorCorrection)
    else Pass
  }

  /**
   * Width in bytes of a field whose two length-type bits are `low` and `2 * low`
   * in the length-type flags. The 8-bit test runs first, so the 32-bit case
   * (both bits set) is read as 8 bits and a 4-byte field never occurs.
   */
  function FieldWidth(flags: u8, low: nat): (w: int)
    requires low == 2 || low == 8 || low == 32
    ensures w == 0 || w == 1 || w == 2
    ensures w == 1 <==> HasBit(flags, low)
    ensures w == 2 <==> !HasBit(flags, low) && HasBit(flags, 2 * low)
  {
    var lengthType := (flags / low) % 4;  // the field's two length-type bits
    if lengthType % 2 == 1 then 1
    else if lengthType / 2 == 1 then 2
    else if lengthType == 3 then 4
    else 0
  }

  function ReadU8(b: seq<u8>, off: nat): (r: Result<u8, PacketError>)
    ensures r.Ok? <==> off < |b|
    ensures r.Ok? ==> r.value == b[off]
  {
    if off < |b| then Ok(b[off]) else Err(OutOfRange)
  }

  function ReadU16(b: seq<u8>, off: nat): (r: Result<u16, PacketError>)
    ensures r.Ok? <==> off + 2 <= |b|
    ensures r.Ok? ==> r.value == ReadLE(b, off, 2)
  {
    if off + 2 <= |b| then Ok(U16At(b, off)) else Err(OutOfRange)
  }

  function ReadU32(b: seq<u8>, off: nat): (r: Result<u32, PacketError>)
    ensures r.Ok? <==> off + 4 <= |b|
    ensures r.Ok? ==> r.value == ReadLE(b, off, 4)
  {
    if off + 4 <= |b| then Ok(U32At(b, off)) else Err(OutOfRange)
  }

  /** A field of width 0, 1 or 2; a width-0 field is absent and reads as 0. */
  function ReadField(b: seq<u8>, off: nat, w: nat): (r: Result<nat, PacketError>)
    ensures r.Ok? <==> w == 0 || off + w <= |b|
    ensures r.Ok? ==> r.value == if w == 0 then 0 else ReadLE(b, off, w)
  {
    if w == 0 then Ok(0) else if off + w <= |b| then Ok(ReadLE(b, off, w)) else Err(OutOfRange)
  }

  /** The packet-level fields that precede the payloads. */
  datatype PacketHeader = PacketHeader(
    multiplePayloads: bool,
    sequence: nat,
    paddingLength: nat,
    packetLength: nat,
    sendTimeOffset: nat,
    sendTime: u32,
    duration: u16,
    payloadCount: nat,
    payloadStart: nat)

  /** Bytes 0 to 4: the checks on the error-correction bytes, then the layout that the
      length-type flags (byte 3) select; byte 4, the property flags, is read but not used. */
  function DecodeHeader(b: seq<u8>): (r: Result<PacketHeader, PacketError>)
    ensures r.Ok? ==> |b| >= 5 && b[1] == 0 && b[2] == 0 && CheckErrorCorrection(b[0]).Pass?
    ensures r.Ok? ==> r == DecodeLayout(b, b[3])
    ensures |b| > 0 && HasBit(b[0], 16) ==> r == Err(OpaqueDataPresent)
    ensures |b| >= 5 && CheckErrorCorrection(b[0]).Pass? && (b[1] != 0 || b[2] != 0) ==>
      r == Err(ErrorCorrectionData)
  {
    var b0 :- ReadU8(b, 0);
    :- CheckErrorCorrection(b0);
    var ecType :- ReadU8(b, 1);
    var ecCycle :- ReadU8(b, 2);
    if ecType != 0 || ecCycle != 0 then Err(ErrorCorrectionData)
    else
      var flags :- ReadU8(b, 3);
      var _ :- ReadU8(b, 4);
      DecodeLayout(b, flags)
  }

  /** From byte 5 on: the three variable-width fields in their fixed order, send time,
      duration and, for a multiple-payload packet, the payload-flags byte. */
  function DecodeLayout(b: seq<u8>, flags: u8): (r: Result<PacketHeader, PacketError>)
    ensures r.Ok? ==>
      var h := r.value;
      && h.multiplePayloads == HasBit(flags, 1)
      && h.sendTimeOffset == 5 + FieldWidth(flags, 2) + FieldWidth(flags, 8) + FieldWidth(flags, 32)
      && h.sendTimeOffset + 6 <= |b|
      && h.sendTime == ReadLE(b, h.sendTimeOffset, 4)
      && h.duration == ReadLE(b, h.sendTimeOffset + 4, 2)
      && (h.multiplePayloads ==>
            h.sendTimeOffset + 7 <= |b| && h.payloadCount == b[h.sendTimeOffset + 6] % 64
            && h.payloadStart == h.sendTimeOffset + 7)
      && (!h.multiplePayloads ==> h.payloadCount == 1 && h.payloadStart == h.sendTimeOffset + 6)
  {
    var multiple := HasBit(flags, 1);
    var sequenceWidth := FieldWidth(flags, 2);
    var sequence :- ReadField(b, 5, sequenceWidth);
    var paddingWidth := FieldWidth(flags, 8);
    var padding :- ReadField(b, 5 + sequenceWidth, paddingWidth);
    var lengthWidth := FieldWidth(flags, 32);
    var packetLength :- ReadField(b, 5 + sequenceWidth + paddingWidth, lengthWidth);
    var sendTimeOffset := 5 + sequenceWidth + paddingWidth + lengthWidth;
    var sendTime :- ReadU32(b, sendTimeOffset);
    var duration :- ReadU16(b, sendTimeOffset + 4);
    if multiple then
      var payloadFlags :- ReadU8(b, sendTimeOffset + 6);
      Ok(PacketHeader(true, sequence, padding, packetLength, sendTimeOffset, sendTime, duration,
                      payloadFlags % 64, sendTimeOffset + 7))
    else
      Ok(PacketHeader(false, sequence, padding, packetLength, sendTimeOffset, sendTime, duration,
                      1, sendTimeOffset + 6))
  }

  /** Where the replicated data ends, and the presentation time found in it. */
  datatype Replicated = Replicated(timeOffset: nat, time: u32, next: nat)

  /** Replicated data of length `len` starting at `off`: with len > 0 the media object size and
      the presentation time are its first 8 bytes and the cursor moves to off + len (even for
      len < 8); with len 0 the presentation time stays 0 at offset 0. */
  function DecodeReplicated(b: seq<u8>, off: nat, len: u8): (r: Result<Replicated, PacketError>)
    ensures r.Ok? ==> r.value.next == off + len
    ensures r.Ok? && len > 0 ==>
      r.value.timeOffset == off + 4 && off + 8 <= |b| && r.value.time == ReadLE(b, off + 4, 4)
    ensures len == 0 ==> r == Ok(Replicated(0, 0, off))
  {
    if len > 0 then
      var _ :- ReadU32(b, off);  // media object size: read, not used
      var time :- ReadU32(b, off + 4);
      Ok(Replicated(off + 4, time, off + len))
    else
      Ok(Replicated(0, 0, off))
  }

  /** Every field a setter patches lies inside a buffer of n bytes. */
  predicate PayloadFits(p: PayloadInfo, n: nat)
  {
    && p.streamIdOffset < n
    && p.mediaObjectNumberOffset < n
    && p.mediaOffset + 4 <= n
    && p.presentationTimeOffset + 4 <= n
  }

  predicate AllFit(ps: seq<PayloadInfo>, n: nat)
  {
    forall i :: 0 <= i < |ps| ==> PayloadFits(ps[i], n)
  }

  /** One payload starting at `off`; returns the payload and the offset just after its data. */
  function DecodePayload(b: seq<u8>, payloadId: int, multiple: bool, padding: nat, off: nat)
    : (r: Result<(PayloadInfo, nat), PacketError>)
    requires 4 <= |b|
    ensures r.Ok? ==>
      var (p, next) := r.value;
      && off + 7 <= |b|
      && p.payloadId == payloadId
      && p.streamIdOffset == off && p.streamId == b[off] % 128
      && p.mediaObjectNumberOffset == off + 1 && p.mediaObjectNumber == b[off + 1]
      && p.mediaOffset == off + 2 && p.offsetIntoMedia == ReadLE(b, off + 2, 4)
      && (p.isKeyframeStart <==> b[off] >= 128 && p.offsetIntoMedia == 0)
      && PayloadFits(p, |b|)
      && next >= off + 7 + b[off + 6]
      && (multiple ==> next == off + 7 + b[off + 6] + 2 + p.payloadLength)
      && (!multiple ==> p.payloadLength == Wrap16(|b| - (off + 7 + b[off + 6]) - padding)
                        && next == off + 7 + b[off + 6] + p.payloadLength)
  {
    var streamByte :- ReadU8(b, off);
    var objectNumber :- ReadU8(b, off + 1);
    var offsetIntoMedia :- ReadU32(b, off + 2);
    var replicatedLength :- ReadU8(b, off + 6);
    var rep :- DecodeReplicated(b, off + 7, replicatedLength);
    var length :- if multiple then ReadU16(b, rep.next) else Ok(Wrap16(|b| - rep.next - padding));
    var next := rep.next + (if multiple then 2 else 0) + length;
    var keyframe := streamByte >= 128;
    Ok((PayloadInfo(
          payloadId := payloadId,
          streamId := streamByte % 128,
          streamIdOffset := off,
          mediaOffset := off + 2,
          mediaObjectNumberOffset := off + 1,
          isKeyframeStart := keyframe && offsetIntoMedia == 0,
          mediaObjectNumber := objectNumber,
          offsetIntoMedia := offsetIntoMedia,
          presentationTimeOffset := rep.timeOffset,
          presentationTime := rep.time,
          payloadLength := length),
        next))
  }

  /** Payloads i, i+1, ..., count-1, the first starting at `off`; ids are numbered from `idBase`. */
  function DecodePayloads(b: seq<u8>, idBase: int, multiple: bool, padding: nat, count: nat, i: nat, off: nat)
    : Result<(seq<PayloadInfo>, nat), PacketError>
    requires 4 <= |b|
    decreases count - i
  {
    if i >= count then Ok(([], off))
    else
      var first :- DecodePayload(b, idBase + i, multiple, padding, off);
      var rest :- DecodePayloads(b, idBase, multiple, padding, count, i + 1, first.1);
      Ok(([first.0] + rest.0, rest.1))
  }

  /** Some payload starts a key frame. */
  predicate AnyKeyframeStart(ps: seq<PayloadInfo>)
  {
    exists i :: 0 <= i < |ps| && ps[i].isKeyframeStart
  }

  datatype DecodedPacket = DecodedPacket(header: PacketHeader, payload: seq<PayloadInfo>, isKeyFrame: bool)

  /** The whole packet constructor: the size check, then the header, then the payloads. */
  function Decode(packetSize: int, b: seq<u8>, payloadIdOffset: int): (r: Result<DecodedPacket, PacketError>)
    ensures |b| != packetSize ==> r == Err(SizeMismatch)
    ensures r.Ok? ==> DecodeHeader(b).Ok? && r.value.header == DecodeHeader(b).value
    ensures r.Ok? ==> (r.value.isKeyFrame <==> AnyKeyframeStart(r.value.payload))
    ensures r.Ok? ==>
      var d := r.value;
      && |d.payload| == d.header.payloadCount
      && |d.payload| == (if HasBit(b[3], 1) then b[d.header.sendTimeOffset + 6] % 64 else 1)
      && AllFit(d.payload, |b|)
      && d.header.sendTimeOffset + 4 <= |b|
      && forall k :: 0 <= k < |d.payload| ==> d.payload[k].payloadId == payloadIdOffset + k
  {
    if |b| != packetSize then Err(SizeMismatch)
    else
      var h :- DecodeHeader(b);
      var ps :- DecodePayloads(b, payloadIdOffset, h.multiplePayloads, h.paddingLength, h.payloadCount, 0, h.payloadStart);
      PayloadsShape(b, payloadIdOffset, h.multiplePayloads, h.paddingLength, h.payloadCount, 0, h.payloadStart);
      Ok(DecodedPacket(h, ps.0, AnyKeyframeStart(ps.0)))
  }

  /** Decoding from payload i yields exactly count - i payloads, each fitting the buffer and
      numbered idBase + i, idBase + i + 1, .... */
  lemma {:induction false} PayloadsShape(b: seq<u8>, idBase: int, multiple: bool, padding: nat, count: nat, i: nat, off: nat)
    requires 4 <= |b|
    requires DecodePayloads(b, idBase, multiple, padding, count, i, off).Ok?
    ensures var ps := DecodePayloads(b, idBase, multiple, padding, count, i, off).value.0;
      && |ps| == (if i <= count then count - i else 0)
      && AllFit(ps, |b|)
      && forall k :: 0 <= k < |ps| ==> ps[k].payloadId == idBase + i + k
    decreases count - i
  {
    if i < count {
      var first := DecodePayload(b, idBase + i, multiple, padding, off).value;
      PayloadsShape(b, idBase, multiple, padding, count, i + 1, first.1);
    }
  }
}

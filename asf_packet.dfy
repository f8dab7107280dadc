/**
 * `AsfPacket`: one data packet held in the caller's byte buffer. Construction
 * parses the header and the payloads with a moving offset; the setters patch
 * single fields of the buffer in place; `SetStart` and `SetFollowup` apply the
 * renormalisation of module Renormalisation to the buffer, the payload records
 * and the stream info.
 */
module AsfPackets {
  import opened Bytes
  import opened Wrappers
  import opened StreamInfos
  import opened PacketCodec
  import opened Renormalisation
  import Configuration

  // ---------------------------------------------------------------- parsing

  /** `ParsePacket` up to the payloads: byte 0 checks, the error-correction bytes, the
      length-type and property flags, the three optional fields, send time, duration and,
      for a multiple-payload packet, the payload-flags byte. */
  method ParseHeader(data: array<u8>) returns (r: Result<PacketHeader, PacketError>)
    ensures r == DecodeHeader(data[..])
  {
    var b := data[..];
    var errorCorrection :- ReadU8(b, 0);
    :- CheckErrorCorrection(errorCorrection);
    var errorCorrectionType :- ReadU8(b, 1);
    var errorCorrectionCycle :- ReadU8(b, 2);
    if errorCorrectionType != 0 || errorCorrectionCycle != 0 {
      return Err(ErrorCorrectionData);
    }
    var lengthTypeFlags :- ReadU8(b, 3);
    var _ :- ReadU8(b, 4);
    r := ParseLayout(data, lengthTypeFlags);
  }

  /** The rest of the header, from byte 5 on, as the length-type flags lay it out. */
  method ParseLayout(data: array<u8>, lengthTypeFlags: u8) returns (r: Result<PacketHeader, PacketError>)
    ensures r == DecodeLayout(data[..], lengthTypeFlags)
  {
    var b := data[..];
    var parsingOffset := 5;
    var multiple := HasBit(lengthTypeFlags, 1);

    var sequenceWidth := FieldWidth(lengthTypeFlags, 2);
    var sequence :- ReadField(b, parsingOffset, sequenceWidth);
    parsingOffset := parsingOffset + sequenceWidth;

    var paddingWidth := FieldWidth(lengthTypeFlags, 8);
    var paddingLength :- ReadField(b, parsingOffset, paddingWidth);
    parsingOffset := parsingOffset + paddingWidth;

    var packetSizeWidth := FieldWidth(lengthTypeFlags, 32);
    var packetSize :- ReadField(b, parsingOffset, packetSizeWidth);
    parsingOffset := parsingOffset + packetSizeWidth;

    var sendTimeOffset := parsingOffset;
    var sendTime :- ReadU32(b, parsingOffset);
    parsingOffset := parsingOffset + 4;
    var duration :- ReadU16(b, parsingOffset);
    parsingOffset := parsingOffset + 2;

    var payloadCount := 1;
    if multiple {
      var payloadFlags :- ReadU8(b, parsingOffset);
      parsingOffset := parsingOffset + 1;
      payloadCount := payloadFlags % 64;
    }
    return Ok(PacketHeader(multiple, sequence, paddingLength, packetSize, sendTimeOffset, sendTime,
                           duration, payloadCount, parsingOffset));
  }

  /** `ParsePayLoad`: one payload read from `packetOffset` on; returns the record and the
      offset after the payload's data. */
  method ParsePayload(data: array<u8>, payloadId: int, multiple: bool, paddingLength: nat, packetOffset: nat)
    returns (r: Result<(PayloadInfo, nat), PacketError>)
    requires 4 <= data.Length
    ensures r == DecodePayload(data[..], payloadId, multiple, paddingLength, packetOffset)
  {
    var b := data[..];
    var offset := packetOffset;
    var streamByte :- ReadU8(b, offset);
    var streamIdOffset := offset;
    offset := offset + 1;
    var mediaObjectNumber :- ReadU8(b, offset);
    var mediaObjectNumberOffset := offset;
    offset := offset + 1;
    var mediaOffset := offset;
    var offsetIntoMedia :- ReadU32(b, offset);
    offset := offset + 4;
    var replicatedDataLength :- ReadU8(b, offset);
    offset := offset + 1;
    var rep :- DecodeReplicated(b, offset, replicatedDataLength);
    offset := rep.next;
    var payloadLength: u16;
    if multiple {
      payloadLength :- ReadU16(b, offset);
      offset := offset + 2;
    } else {
      payloadLength := Wrap16(|b| - offset - paddingLength);
    }
    offset := offset + payloadLength;
    var keyframe := streamByte >= 128;
    var pi := PayloadInfo(
      payloadId := payloadId,
      streamId := streamByte % 128,
      streamIdOffset := streamIdOffset,
      mediaOffset := mediaOffset,
      mediaObjectNumberOffset := mediaObjectNumberOffset,
      isKeyframeStart := keyframe && offsetIntoMedia == 0,
      mediaObjectNumber := mediaObjectNumber,
      offsetIntoMedia := offsetIntoMedia,
      presentationTimeOffset := rep.timeOffset,
      presentationTime := rep.time,
      payloadLength := payloadLength);
    return Ok((pi, offset));
  }

  /** The payloads decoded so far, put in front of the result of decoding the rest. */
  function Prepend(done: seq<PayloadInfo>, rest: Result<(seq<PayloadInfo>, nat), PacketError>)
    : Result<(seq<PayloadInfo>, nat), PacketError>
  {
    if rest.Ok? then Ok((done + rest.value.0, rest.value.1)) else rest
  }

  lemma PrependNothing(rest: Result<(seq<PayloadInfo>, nat), PacketError>)
    ensures Prepend([], rest) == rest
  {
    if rest.Ok? {
      assert [] + rest.value.0 == rest.value.0;
    }
  }

  /** One turn of the payload loop: decoding from payload idx either fails as payload idx
      does, or is that payload followed by decoding from idx + 1. */
  lemma DecodePayloadsStep(b: seq<u8>, idBase: int, multiple: bool, padding: nat, count: nat, idx: nat, off: nat,
                           done: seq<PayloadInfo>)
    requires 4 <= |b| && idx < count
    ensures var first := DecodePayload(b, idBase + idx, multiple, padding, off);
      && (first.Err? ==> Prepend(done, DecodePayloads(b, idBase, multiple, padding, count, idx, off)) == Err(first.error))
      && (first.Ok? ==>
            Prepend(done, DecodePayloads(b, idBase, multiple, padding, count, idx, off))
            == Prepend(done + [first.value.0], DecodePayloads(b, idBase, multiple, padding, count, idx + 1, first.value.1)))
  {
    var first := DecodePayload(b, idBase + idx, multiple, padding, off);
    if first.Ok? {
      var rest := DecodePayloads(b, idBase, multiple, padding, count, idx + 1, first.value.1);
      if rest.Ok? {
        assert done + ([first.value.0] + rest.value.0) == (done + [first.value.0]) + rest.value.0;
      }
    }
  }

  lemma KeyframeAppend(ps: seq<PayloadInfo>, p: PayloadInfo, key: bool)
    requires key <==> AnyKeyframeStart(ps)
    ensures key || p.isKeyframeStart <==> AnyKeyframeStart(ps + [p])
  {
    assert (ps + [p])[|ps|] == p;
    if AnyKeyframeStart(ps) {
      var k :| 0 <= k < |ps| && ps[k].isKeyframeStart;
      assert (ps + [p])[k] == ps[k];
    }
  }

  /** The payload loop of `ParsePacket`: `count` payloads, ids from `idBase`, appended in
      order; the packet is a key frame when any payload starts one. */
  method ParsePayloads(data: array<u8>, idBase: int, multiple: bool, paddingLength: nat, count: nat, start: nat)
    returns (r: Result<(seq<PayloadInfo>, nat), PacketError>, isKeyFrame: bool)
    requires 4 <= data.Length
    ensures r == DecodePayloads(data[..], idBase, multiple, paddingLength, count, 0, start)
    ensures r.Ok? ==> (isKeyFrame <==> AnyKeyframeStart(r.value.0))
  {
    var b := data[..];
    var payloads: seq<PayloadInfo> := [];
    var parsingOffset := start;
    isKeyFrame := false;
    var idx := 0;
    PrependNothing(DecodePayloads(b, idBase, multiple, paddingLength, count, 0, start));
    while idx < count
      invariant idx <= count
      invariant DecodePayloads(b, idBase, multiple, paddingLength, count, 0, start)
                == Prepend(payloads, DecodePayloads(b, idBase, multiple, paddingLength, count, idx, parsingOffset))
      invariant isKeyFrame <==> AnyKeyframeStart(payloads)
    {
      var next := ParsePayload(data, idBase + idx, multiple, paddingLength, parsingOffset);
      if next.Err? {
        DecodePayloadsStep(b, idBase, multiple, paddingLength, count, idx, parsingOffset, payloads);
        return Err(next.error), isKeyFrame;
      }
      var pi := next.value.0;
      DecodePayloadsStep(b, idBase, multiple, paddingLength, count, idx, parsingOffset, payloads);
      KeyframeAppend(payloads, pi, isKeyFrame);
      payloads := payloads + [pi];
      isKeyFrame := isKeyFrame || pi.isKeyframeStart;
      parsingOffset := next.value.1;
      idx := idx + 1;
    }
    assert DecodePayloads(b, idBase, multiple, paddingLength, count, idx, parsingOffset) == Ok(([], parsingOffset));
    assert payloads + [] == payloads;
    return Ok((payloads, parsingOffset)), isKeyFrame;
  }

  /** Replacing one record by one with the same offsets keeps every field inside the packet. */
  lemma AllFitUpdate(ps: seq<PayloadInfo>, i: nat, q: PayloadInfo, n: nat)
    requires AllFit(ps, n) && i < |ps| && PayloadFits(q, n)
    ensures AllFit(ps[i := q], n)
  {
  }

  /** Replacing the first element after a prefix. */
  lemma ReplaceAfter<T>(front: seq<T>, back: seq<T>, x: T)
    requires |back| > 0
    ensures (front + back)[|front| := x] == front + [x] + back[1..]
    ensures (front + back)[|front|] == back[0]
  {
  }

  // ---------------------------------------------------------------- the packet

  class AsfPacket {
    const asfConfig: Configuration.AsfFileConfiguration
    /** The caller's buffer: the packet is parsed and patched in place, not copied. */
    const packet: array<u8>
    const size: nat
    const packetId: u32
    const payloadIdOffset: int
    const duration: u16
    const isKeyFrame: bool
    const sendTimeOffset: nat
    var sendTime: u32
    var payload: seq<PayloadInfo>

    /** The buffer has the parsed size and every patchable field lies inside it. */
    ghost predicate Valid()
      reads this
    {
      packet.Length == size && sendTimeOffset + 4 <= size && AllFit(payload, size)
    }

    /** The packet as a value: its bytes and payload records. */
    ghost function Contents(): Packet
      reads this, packet
    {
      Packet(packet[..], payload)
    }

    constructor Parsed(asfConfig: Configuration.AsfFileConfiguration, packet: array<u8>, packetId: u32,
                       payloadIdOffset: int, header: PacketHeader, payload: seq<PayloadInfo>, isKeyFrame: bool)
      ensures this.asfConfig == asfConfig && this.packet == packet && size == packet.Length
      ensures this.packetId == packetId && this.payloadIdOffset == payloadIdOffset
      ensures duration == header.duration && sendTimeOffset == header.sendTimeOffset
      ensures sendTime == header.sendTime && this.payload == payload && this.isKeyFrame == isKeyFrame
    {
      this.asfConfig := asfConfig;
      this.packet := packet;
      size := packet.Length;
      this.packetId := packetId;
      this.payloadIdOffset := payloadIdOffset;
      duration := header.duration;
      sendTimeOffset := header.sendTimeOffset;
      sendTime := header.sendTime;
      this.payload := payload;
      this.isKeyFrame := isKeyFrame;
    }

    /**
     * The constructor: fails with `SizeMismatch` unless the buffer has the configured packet
     * size, then fails exactly when decoding fails; otherwise the packet wraps the caller's
     * buffer with the decoded header fields and payloads.
     */
    static method Create(config: Configuration.AsfFileConfiguration, data: array<u8>, packetId: u32, payloadIdOffset: int)
      returns (r: Result<AsfPacket, PacketError>)
      ensures var d := Decode(config.asfPacketSize, data[..], payloadIdOffset);
        && (r.Ok? <==> d.Ok?)
        && (r.Err? ==> r.error == d.error)
        && (r.Ok? ==>
              var p := r.value;
              && fresh(p) && p.Valid() && p.packet == data && p.asfConfig == config
              && p.packetId == packetId && p.payloadIdOffset == payloadIdOffset
              && p.payload == d.value.payload && p.isKeyFrame == d.value.isKeyFrame
              && p.sendTime == d.value.header.sendTime && p.duration == d.value.header.duration
              && p.sendTimeOffset == d.value.header.sendTimeOffset)
    {
      if config.asfPacketSize != data.Length {
        return Err(SizeMismatch);
      }
      var h :- ParseHeader(data);
      var ps, isKeyFrame := ParsePayloads(data, payloadIdOffset, h.multiplePayloads, h.paddingLength,
                                          h.payloadCount, h.payloadStart);
      if ps.Err? {
        return Err(ps.error);
      }
      var p := new AsfPacket.Parsed(config, data, packetId, payloadIdOffset, h, ps.value.0, isKeyFrame);
      return Ok(p);
    }

    // -------------------------------------------------------------- setters

    /** Writes the 4 little-endian bytes of v at `off`. */
    method WriteU32(off: nat, v: u32)
      requires off + 4 <= packet.Length
      modifies packet
      ensures packet[..] == Patch(old(packet[..]), off, LE32(v))
    {
      var w := LE32(v);
      packet[off] := w[0];
      packet[off + 1] := w[1];
      packet[off + 2] := w[2];
      packet[off + 3] := w[3];
      assert packet[..] == Patch(old(packet[..]), off, w);
    }

    /** Writes one byte at `off`. */
    method WriteU8(off: nat, v: u8)
      requires off < packet.Length
      modifies packet
      ensures packet[..] == Patch(old(packet[..]), off, [v])
    {
      packet[off] := v;
      assert packet[..] == Patch(old(packet[..]), off, [v]);
    }

    /** The `SendTime` property setter: the field and the 4 bytes at the send-time offset. */
    method UpdateSendTime(t: u32)
      requires Valid()
      modifies this`sendTime, packet
      ensures sendTime == t
      ensures packet[..] == Patch(old(packet[..]), sendTimeOffset, LE32(t))
    {
      sendTime := t;
      WriteU32(sendTimeOffset, t);
    }

    /** `SetSendTime`: only the bytes change, not the `SendTime` field; always true. */
    method SetSendTime(t: u32) returns (ok: bool)
      requires Valid()
      modifies packet
      ensures ok
      ensures packet[..] == Patch(old(packet[..]), sendTimeOffset, LE32(t))
    {
      WriteU32(sendTimeOffset, t);
      return true;
    }

    /** `SetPayloadPresentationTime` on payload i: the record's time and its 4 bytes. */
    method SetPayloadPresentationTime(i: nat, t: u32)
      requires Valid() && i < |payload|
      modifies this`payload, packet
      ensures payload == old(payload)[i := old(payload)[i].(presentationTime := t)]
      ensures packet[..] == SetTimeBytes(old(packet[..]), old(payload)[i], t)
      ensures Valid()
    {
      WriteU32(payload[i].presentationTimeOffset, t);
      payload := payload[i := payload[i].(presentationTime := t)];
    }

    /** `MovePayloadPrivate` on payload i: the stream-id byte becomes id + 50 (the record's
        stream id stays), then the presentation time is set. */
    method MovePayloadPrivate(i: nat, t: u32)
      requires Valid() && i < |payload|
      modifies this`payload, packet
      ensures payload == old(payload)[i := old(payload)[i].(presentationTime := t)]
      ensures packet[..] == MovePrivateBytes(old(packet[..]), old(payload)[i], t)
      ensures Valid()
    {
      var streamId := Wrap8(payload[i].streamId + Configuration.ASF_PRIVATE_STREAM_OFFSET);
      WriteU8(payload[i].streamIdOffset, streamId);
      SetPayloadPresentationTime(i, t);
    }

    /** `SetMediaObjectNumber`: false, and nothing changes, for an index past the last payload;
        otherwise the record's number and its byte. */
    method SetMediaObjectNumber(i: nat, n: u8) returns (ok: bool)
      requires Valid()
      modifies this`payload, packet
      ensures ok <==> i < |old(payload)|
      ensures !ok ==> payload == old(payload) && packet[..] == old(packet[..])
      ensures ok ==> payload == old(payload)[i := old(payload)[i].(mediaObjectNumber := n)]
      ensures ok ==> packet[..] == Patch(old(packet[..]), old(payload)[i].mediaObjectNumberOffset, [n])
      ensures Valid()
    {
      if i < |payload| {
        WriteU8(payload[i].mediaObjectNumberOffset, n);
        payload := payload[i := payload[i].(mediaObjectNumber := n)];
        return true;
      }
      return false;
    }

    // -------------------------------------------------------------- SetStart

    /** SetStart's treatment of payload idx, given the key-frame payload. */
    method StartPayload(videoStreamId: u32, streamType: AsfStreamType, keyframeInfo: PayloadInfo, idx: nat)
      requires Valid() && idx < |payload|
      modifies this`payload, packet
      ensures Valid()
      ensures Contents() == StartStep(videoStreamId, streamType, keyframeInfo, old(Contents()), idx)
    {
      var p := payload[idx];
      if p.streamId as int == videoStreamId as int && !p.isKeyframeStart
         && p.presentationTime < keyframeInfo.presentationTime {
        var streamId := p.streamId;
        if p.mediaObjectNumber < keyframeInfo.mediaObjectNumber && streamType != AsfUnaltered {
          streamId := Wrap8(streamId + Configuration.ASF_PRIVATE_STREAM_OFFSET);
        }
        WriteU8(p.streamIdOffset, streamId);
        var mediaOffset: u32 := 0;
        WriteU32(p.mediaOffset, mediaOffset);
        payload := payload[idx := p.(streamId := streamId, offsetIntoMedia := mediaOffset)];
        AllFitUpdate(old(payload), idx, payload[idx], size);
      }
    }

    /**
     * `SetStart`: nothing for an audio stream; false when no video payload starts a key
     * frame; otherwise every earlier video payload gets offset into media 0 and, when it
     * belongs to an earlier media object, a private stream id.
     */
    method SetStart(configuration: Configuration.AsfFileConfiguration, asfStream: AsfStreamInfo) returns (ok: bool)
      requires Valid()
      modifies this`payload, packet
      ensures Valid()
      ensures var r := Start(configuration.asfVideoStreamId, asfStream.streamType, old(Contents()));
        ok == r.0 && Contents() == r.1
    {
      if asfStream.streamType != AsfAudio {
        var videoStreamId := configuration.asfVideoStreamId;
        var key := LastKeyframe(payload, videoStreamId);
        if key.None? {
          return false;
        }
        var keyframeInfo := payload[key.value];
        ghost var pk0 := Contents();
        var idx := 0;
        while idx < |payload|
          invariant Valid() && |payload| == |pk0.payload| && idx <= |payload|
          invariant StartFrom(videoStreamId, asfStream.streamType, keyframeInfo, Contents(), idx)
                 == StartFrom(videoStreamId, asfStream.streamType, keyframeInfo, pk0, 0)
        {
          StartPayload(videoStreamId, asfStream.streamType, keyframeInfo, idx);
          idx := idx + 1;
        }
      }
      return true;
    }

    // -------------------------------------------------------------- SetFollowup

    /** The inputs SetFollowup's payload loop reads and does not change. */
    ghost function FollowupEnvOf(configuration: Configuration.AsfFileConfiguration, info: AsfStreamInfo): FollowupEnv
      reads configuration`asfAudioStreamId, asfConfig`asfPreroll
      reads info`streamType, info`startTimeOffset, info`endTimeOffset, info`minPacketSendTime
    {
      FollowupEnv(info.streamType, configuration.asfAudioStreamId, asfConfig.asfPreroll, info.startTimeOffset,
                  info.endTimeOffset, info.minPacketSendTime, sendTimeOffset)
    }

    /** The packet's send time and the stream info's counters, as the loop state. */
    ghost function CarriedState(info: AsfStreamInfo): LoopState
      reads this`sendTime, info`mediaObjectId, info`prevMediaObjectId, info`maxPresentationTime
      reads info.mediaObjectId, info.prevMediaObjectId
    {
      LoopState(sendTime, info.mediaObjectId[..], info.prevMediaObjectId[..], info.maxPresentationTime)
    }

    /** The preroll correction of payload i's time; an early audio payload is moved to a
        private stream at the send time plus preroll. Returns the corrected time. */
    method PrerollCorrection(configuration: Configuration.AsfFileConfiguration, asfStreamInfo: AsfStreamInfo, i: nat)
      returns (corrected: u32)
      requires Valid() && i < |payload|
      modifies this`payload, packet
      ensures Valid()
      ensures var env := FollowupEnvOf(configuration, asfStreamInfo);
        var p := old(payload[i]);
        && corrected == CorrectedTime(env, p, sendTime)
        && i < |payload| && payload == old(payload)[i := p.(presentationTime := payload[i].presentationTime)]
        && packet[..] == if Early(env, p) && p.streamId == env.audioStreamId && env.streamType != AsfUnaltered
                         then MovePrivateBytes(old(packet[..]), p, corrected) else old(packet[..])
    {
      var preroll := asfConfig.asfPreroll;
      var payloadPresentationTime: int := payload[i].presentationTime as int - asfStreamInfo.startTimeOffset as int;
      if payloadPresentationTime < preroll as int {
        if payload[i].streamId as int == configuration.asfAudioStreamId as int && asfStreamInfo.streamType != AsfUnaltered {
          payloadPresentationTime := Wrap32(sendTime as int + preroll as int);
          MovePayloadPrivate(i, payloadPresentationTime as u32);
        } else {
          payloadPresentationTime := if asfStreamInfo.streamType == AsfImage
                                     then Wrap32(preroll as int - Configuration.ASF_TIME_THRESHOLD)
                                     else preroll as int;
        }
      }
      return payloadPresentationTime as u32;
    }

    /** The start of SetFollowup's treatment of payload i: the preroll correction and, in an
        image segment, the private move of an audio payload; returns the corrected time. */
    method FollowupEarly(configuration: Configuration.AsfFileConfiguration, asfStreamInfo: AsfStreamInfo, i: nat)
      returns (corrected: u32)
      requires Valid() && i < |payload|
      modifies this`payload, packet
      ensures Valid()
      ensures var env := FollowupEnvOf(configuration, asfStreamInfo);
        var p := old(payload[i]);
        && corrected == CorrectedTime(env, p, sendTime)
        && i < |payload| && payload == old(payload)[i := p.(presentationTime := payload[i].presentationTime)]
        && packet[..] == EarlyMoves(env, p, sendTime, old(packet[..]))
    {
      ghost var p := payload[i];
      corrected := PrerollCorrection(configuration, asfStreamInfo, i);
      if asfStreamInfo.streamType == AsfImage && payload[i].streamId as int == configuration.asfAudioStreamId as int {
        ghost var b1 := packet[..];
        ghost var q := payload[i];
        MovePayloadPrivate(i, Wrap32(sendTime as int + asfConfig.asfPreroll as int));
        PatchesIgnoreTime(b1, p, q, Wrap32(sendTime as int + asfConfig.asfPreroll as int));
      }
    }

    /** Lowers the send time to max(t, minimum) when t is below it. */
    method LowerSendTime(t: u32, minPacketSendTime: u32)
      requires Valid()
      modifies this`sendTime, packet
      ensures t < old(sendTime) ==> sendTime == Max(t, minPacketSendTime)
                                    && packet[..] == Patch(old(packet[..]), sendTimeOffset, LE32(sendTime))
      ensures t >= old(sendTime) ==> sendTime == old(sendTime) && packet[..] == old(packet[..])
    {
      if t < sendTime {
        UpdateSendTime(Max(t, minPacketSendTime));
      }
    }

    /** Crops payload i, whose time is already corrected, at the end of the segment. */
    method CropPayload(configuration: Configuration.AsfFileConfiguration, asfStreamInfo: AsfStreamInfo, i: nat)
      requires Valid() && i < |payload|
      modifies this`payload, packet
      ensures Valid()
      ensures var env := FollowupEnvOf(configuration, asfStreamInfo);
        var p := old(payload[i]);
        if Crops(env, p.presentationTime)
        then payload == old(payload)[i := p.(presentationTime := CropTime(env))]
             && packet[..] == MovePrivateBytes(old(packet[..]), p, CropTime(env))
        else payload == old(payload) && packet[..] == old(packet[..])
    {
      var preroll := asfConfig.asfPreroll;
      var range := Wrap32(asfStreamInfo.endTimeOffset as int - asfStreamInfo.startTimeOffset as int);
      if asfStreamInfo.streamType != AsfUnaltered && asfStreamInfo.streamType != AsfImage
         && payload[i].presentationTime > preroll && payload[i].presentationTime - preroll > range {
        MovePayloadPrivate(i, Wrap32(range as int + preroll as int));
      }
    }

    /** The time part of SetFollowup's treatment of payload i: private moves, the send-time
        correction, the new presentation time and the crop. */
    method FollowupTime(configuration: Configuration.AsfFileConfiguration, asfStreamInfo: AsfStreamInfo, i: nat)
      requires Valid() && i < |payload|
      modifies this`sendTime, this`payload, packet
      ensures Valid()
      ensures var env := FollowupEnvOf(configuration, asfStreamInfo);
        var p := old(payload[i]);
        var st := old(sendTime);
        && sendTime == StepSendTime(env, p, st)
        && payload == old(payload)[i := p.(presentationTime := StepTime(env, p, st))]
        && packet[..] == TimePatches(env, p, st, SendTimePatch(env, p, st, EarlyMoves(env, p, st, old(packet[..]))))
    {
      ghost var env := FollowupEnvOf(configuration, asfStreamInfo);
      ghost var p := payload[i];
      var payloadPresentationTime := FollowupEarly(configuration, asfStreamInfo, i);
      LowerSendTime(payloadPresentationTime, asfStreamInfo.minPacketSendTime);
      ghost var b2 := packet[..];
      ghost var q := payload[i];
      SetPayloadPresentationTime(i, payloadPresentationTime);
      PatchesIgnoreTime(b2, p, q, payloadPresentationTime);
      ghost var b3 := packet[..];
      ghost var q2 := payload[i];
      CropPayload(configuration, asfStreamInfo, i);
      PatchesIgnoreTime(b3, p, q2, CropTime(env));
    }

    /** The numbering part of SetFollowup's treatment of payload i: the stream's maximum
        presentation time, its media object counters, and the payload's new number. */
    method FollowupNumber(asfStreamInfo: AsfStreamInfo, i: nat)
      requires Valid() && asfStreamInfo.Valid() && i < |payload|
      requires packet != asfStreamInfo.mediaObjectId && packet != asfStreamInfo.prevMediaObjectId
      modifies this`payload, packet, asfStreamInfo`maxPresentationTime
      modifies asfStreamInfo.mediaObjectId, asfStreamInfo.prevMediaObjectId
      ensures Valid() && asfStreamInfo.Valid()
      ensures var p := old(payload[i]);
        var sid := p.streamId;
        var id := NextObjectId(old(asfStreamInfo.mediaObjectId[sid]), old(asfStreamInfo.prevMediaObjectId[sid]), p.mediaObjectNumber);
        && asfStreamInfo.maxPresentationTime == RaiseMaxTime(old(asfStreamInfo.maxPresentationTime), sid, p.presentationTime)
        && asfStreamInfo.mediaObjectId[..] == old(asfStreamInfo.mediaObjectId[..])[sid := id]
        && asfStreamInfo.prevMediaObjectId[..] == old(asfStreamInfo.prevMediaObjectId[..])[sid := p.mediaObjectNumber]
        && payload == old(payload)[i := p.(mediaObjectNumber := id)]
        && packet[..] == Patch(old(packet[..]), p.mediaObjectNumberOffset, [id])
    {
      var sid := payload[i].streamId;
      var maxPresentationTime: u32 := if sid in asfStreamInfo.maxPresentationTime then asfStreamInfo.maxPresentationTime[sid] else 0;
      if maxPresentationTime < payload[i].presentationTime {
        asfStreamInfo.maxPresentationTime := asfStreamInfo.maxPresentationTime[sid := payload[i].presentationTime];
      }
      if (asfStreamInfo.mediaObjectId[sid] == 0 && asfStreamInfo.prevMediaObjectId[sid] == 0)
         || asfStreamInfo.prevMediaObjectId[sid] != payload[i].mediaObjectNumber {
        asfStreamInfo.mediaObjectId[sid] := Wrap8(asfStreamInfo.mediaObjectId[sid] as int + 1);
      }
      asfStreamInfo.prevMediaObjectId[sid] := payload[i].mediaObjectNumber;
      var _ := SetMediaObjectNumber(i, asfStreamInfo.mediaObjectId[sid]);
    }

    /** SetFollowup's treatment of payload i, in full. */
    method FollowupPayload(configuration: Configuration.AsfFileConfiguration, asfStreamInfo: AsfStreamInfo, i: nat)
      requires Valid() && asfStreamInfo.Valid() && i < |payload|
      requires packet != asfStreamInfo.mediaObjectId && packet != asfStreamInfo.prevMediaObjectId
      modifies this`sendTime, this`payload, packet, asfStreamInfo`maxPresentationTime
      modifies asfStreamInfo.mediaObjectId, asfStreamInfo.prevMediaObjectId
      ensures Valid() && asfStreamInfo.Valid()
      ensures var env := FollowupEnvOf(configuration, asfStreamInfo);
        var s := old(CarriedState(asfStreamInfo));
        var p := old(payload[i]);
        && CountersOk(s)
        && payload == old(payload)[i := StepPayload(env, s, p)]
        && CarriedState(asfStreamInfo) == StepState(env, s, p)
        && packet[..] == StepBytes(env, s, p, old(packet[..]))
    {
      FollowupTime(configuration, asfStreamInfo, i);
      FollowupNumber(asfStreamInfo, i);
    }

    /** SetFollowup's payload loop: every payload treated in order from the current state. */
    method FollowupLoop(configuration: Configuration.AsfFileConfiguration, asfStreamInfo: AsfStreamInfo)
      requires Valid() && asfStreamInfo.Valid()
      requires packet != asfStreamInfo.mediaObjectId && packet != asfStreamInfo.prevMediaObjectId
      modifies this`sendTime, this`payload, packet, asfStreamInfo`maxPresentationTime
      modifies asfStreamInfo.mediaObjectId, asfStreamInfo.prevMediaObjectId
      ensures Valid() && asfStreamInfo.Valid()
      ensures var env := FollowupEnvOf(configuration, asfStreamInfo);
        var s := old(CarriedState(asfStreamInfo));
        && CountersOk(s) && BytesOk(env, old(payload), old(packet[..]))
        && payload == RunPayloads(env, s, old(payload))
        && CarriedState(asfStreamInfo) == RunState(env, s, old(payload))
        && packet[..] == RunBytes(env, s, old(payload), old(packet[..]))
    {
      ghost var env := FollowupEnvOf(configuration, asfStreamInfo);
      ghost var s0 := CarriedState(asfStreamInfo);
      ghost var ps0 := payload;
      ghost var bytes0 := packet[..];
      var i := 0;
      while i < |payload|
        invariant Valid() && asfStreamInfo.Valid() && |payload| == |ps0| && i <= |ps0|
        invariant FollowupEnvOf(configuration, asfStreamInfo) == env
        invariant payload == RunPayloads(env, s0, ps0[..i]) + ps0[i..]
        invariant CarriedState(asfStreamInfo) == RunState(env, s0, ps0[..i])
        invariant packet[..] == RunBytes(env, s0, ps0[..i], bytes0)
      {
        RunExtend(env, s0, ps0, i, bytes0);
        ReplaceAfter(RunPayloads(env, s0, ps0[..i]), ps0[i..], StepPayload(env, RunState(env, s0, ps0[..i]), ps0[i]));
        FollowupPayload(configuration, asfStreamInfo, i);
        assert ps0[i..][1..] == ps0[i + 1..];
        i := i + 1;
      }
      assert ps0[..i] == ps0;
    }

    /**
     * `SetFollowup`: the send time is shifted to the segment's time line, then every
     * payload is treated in order; the final send time becomes the stream's minimum send
     * time for the next packet. Bytes, records and counters end as the Renormalisation
     * functions say.
     */
    method SetFollowup(configuration: Configuration.AsfFileConfiguration, asfStreamInfo: AsfStreamInfo)
      requires Valid() && asfStreamInfo.Valid()
      requires packet != asfStreamInfo.mediaObjectId && packet != asfStreamInfo.prevMediaObjectId
      modifies this`sendTime, this`payload, packet, asfStreamInfo`maxPresentationTime, asfStreamInfo`minPacketSendTime
      modifies asfStreamInfo.mediaObjectId, asfStreamInfo.prevMediaObjectId
      ensures Valid() && asfStreamInfo.Valid()
      ensures var env := old(FollowupEnvOf(configuration, asfStreamInfo));
        var s := old(CarriedState(asfStreamInfo));
        var start := asfStreamInfo.startSendTime;
        && CountersOk(s)
        && packet[..] == FollowupBytes(env, start, s, old(payload), old(packet[..]))
        && payload == FollowupPayloads(env, start, s, old(payload))
        && CarriedState(asfStreamInfo) == FollowupState(env, start, s, old(payload))
        && asfStreamInfo.minPacketSendTime == sendTime
    {
      var packetSendTime: int := sendTime as int - asfStreamInfo.startSendTime as int;
      if packetSendTime - Configuration.ASF_SEND_SAFETY_THRESHOLD > 0 {
        packetSendTime := packetSendTime - Configuration.ASF_SEND_SAFETY_THRESHOLD;
      } else {
        packetSendTime := 0;
      }
      ghost var env := FollowupEnvOf(configuration, asfStreamInfo);
      ghost var s0 := CarriedState(asfStreamInfo);
      assert packetSendTime == ShiftedSendTime(sendTime, asfStreamInfo.startSendTime);
      UpdateSendTime(packetSendTime as u32);
      assert CarriedState(asfStreamInfo) == Shifted(s0, asfStreamInfo.startSendTime);
      FollowupLoop(configuration, asfStreamInfo);
      assert FollowupEnvOf(configuration, asfStreamInfo) == env;
      asfStreamInfo.minPacketSendTime := sendTime;
    }
  }
}

/**
 * What `SetStart` and `SetFollowup` do to one packet, as functions over the
 * packet bytes, its payload records and the per-stream counters. The class
 * methods in module AsfPackets are proved to compute exactly these.
 */
module Renormalisation {
  import opened Bytes
  import opened Wrappers
  import opened StreamInfos
  import opened PacketCodec
  import Configuration

  // ---------------------------------------------------------------- patches

  /** `SetPayloadPresentationTime`: the 4-byte time field is overwritten. */
  function SetTimeBytes(bytes: seq<u8>, p: PayloadInfo, t: u32): (r: seq<u8>)
    requires PayloadFits(p, |bytes|)
    ensures |r| == |bytes|
  {
    Patch(bytes, p.presentationTimeOffset, LE32(t))
  }

  /** The byte `MovePayloadPrivate` writes over the stream-id byte. */
  function PrivateStreamByte(streamId: u8): u8
  {
    Wrap8(streamId + Configuration.ASF_PRIVATE_STREAM_OFFSET)
  }

  /** `MovePayloadPrivate`: the whole stream-id byte becomes id + 50, then the time is set. */
  function MovePrivateBytes(bytes: seq<u8>, p: PayloadInfo, t: u32): (r: seq<u8>)
    requires PayloadFits(p, |bytes|)
    ensures |r| == |bytes|
  {
    SetTimeBytes(Patch(bytes, p.streamIdOffset, [PrivateStreamByte(p.streamId)]), p, t)
  }

  /** The byte written by a private move has its keyframe bit (0x80) clear exactly when the
      stream id is below 78; stream ids 78 to 127 come out with the bit set. */
  lemma PrivateByteKeyframeBit(streamId: u8)
    requires streamId < 128
    ensures PrivateStreamByte(streamId) < 128 <==> streamId < 78
    ensures PrivateStreamByte(streamId) % 128 == (streamId + 50) % 128
  {
  }

  /** A move rewrites exactly the stream-id byte and the presentation-time field. */
  lemma MovePrivateEffect(bytes: seq<u8>, p: PayloadInfo, t: u32)
    requires PayloadFits(p, |bytes|)
    requires p.streamIdOffset < p.presentationTimeOffset || p.presentationTimeOffset + 4 <= p.streamIdOffset
    ensures var r := MovePrivateBytes(bytes, p, t);
      && r[p.streamIdOffset] == PrivateStreamByte(p.streamId)
      && ReadLE(r, p.presentationTimeOffset, 4) == t
      && forall k :: (0 <= k < |bytes| && k != p.streamIdOffset
                      && !(p.presentationTimeOffset <= k < p.presentationTimeOffset + 4)) ==> r[k] == bytes[k]
  {
    ReadAfterPatch(Patch(bytes, p.streamIdOffset, [PrivateStreamByte(p.streamId)]), p.presentationTimeOffset, t, 4);
  }

  /** The patches read only the offsets and the stream id of a payload, not its time. */
  lemma PatchesIgnoreTime(bytes: seq<u8>, p: PayloadInfo, q: PayloadInfo, t: u32)
    requires PayloadFits(p, |bytes|) && q == p.(presentationTime := q.presentationTime)
    ensures SetTimeBytes(bytes, q, t) == SetTimeBytes(bytes, p, t)
    ensures MovePrivateBytes(bytes, q, t) == MovePrivateBytes(bytes, p, t)
  {
  }

  // ---------------------------------------------------------------- SetStart

  predicate IsVideoKeyframeStart(p: PayloadInfo, videoStreamId: u32)
  {
    p.streamId == videoStreamId && p.isKeyframeStart
  }

  /** Index of the last video payload that starts a key frame (`LastOrDefault`). */
  function LastKeyframe(ps: seq<PayloadInfo>, videoStreamId: u32): (r: Option<nat>)
    ensures r.Some? ==>
      && r.value < |ps| && IsVideoKeyframeStart(ps[r.value], videoStreamId)
      && forall j :: r.value < j < |ps| ==> !IsVideoKeyframeStart(ps[j], videoStreamId)
    ensures r.None? ==> forall j :: 0 <= j < |ps| ==> !IsVideoKeyframeStart(ps[j], videoStreamId)
  {
    if |ps| == 0 then None
    else if IsVideoKeyframeStart(ps[|ps| - 1], videoStreamId) then Some(|ps| - 1)
    else LastKeyframe(ps[..|ps| - 1], videoStreamId)
  }

  /** A payload SetStart rewrites: video, not a key-frame start, earlier than the key frame. */
  predicate BeforeKeyframe(p: PayloadInfo, key: PayloadInfo, videoStreamId: u32)
  {
    p.streamId == videoStreamId && !p.isKeyframeStart && p.presentationTime < key.presentationTime
  }

  /** A B- or P-frame of an earlier media object is disabled by moving it to a private id. */
  function StartStreamId(p: PayloadInfo, key: PayloadInfo, streamType: AsfStreamType): u8
  {
    if p.mediaObjectNumber < key.mediaObjectNumber && streamType != AsfUnaltered
    then Wrap8(p.streamId + Configuration.ASF_PRIVATE_STREAM_OFFSET)
    else p.streamId
  }

  datatype Packet = Packet(bytes: seq<u8>, payload: seq<PayloadInfo>)

  predicate Fits(pk: Packet)
  {
    AllFit(pk.payload, |pk.bytes|)
  }

  /** SetStart's treatment of payload i. */
  function StartStep(videoStreamId: u32, streamType: AsfStreamType, key: PayloadInfo, pk: Packet, i: nat): (r: Packet)
    requires Fits(pk) && i < |pk.payload|
    ensures Fits(r) && |r.bytes| == |pk.bytes| && |r.payload| == |pk.payload|
  {
    var p := pk.payload[i];
    if BeforeKeyframe(p, key, videoStreamId) then
      var sid := StartStreamId(p, key, streamType);
      var b1 := Patch(pk.bytes, p.streamIdOffset, [sid]);
      var b2 := Patch(b1, p.mediaOffset, LE32(0));
      Packet(b2, pk.payload[i := p.(streamId := sid, offsetIntoMedia := 0)])
    else pk
  }

  function StartFrom(videoStreamId: u32, streamType: AsfStreamType, key: PayloadInfo, pk: Packet, i: nat): (r: Packet)
    requires Fits(pk)
    ensures Fits(r) && |r.bytes| == |pk.bytes| && |r.payload| == |pk.payload|
    decreases |pk.payload| - i
  {
    if i >= |pk.payload| then pk
    else StartFrom(videoStreamId, streamType, key, StartStep(videoStreamId, streamType, key, pk, i), i + 1)
  }

  /** SetStart: nothing for audio; false when no video key frame starts in the packet;
      otherwise every earlier video payload is rewritten. */
  function Start(videoStreamId: u32, streamType: AsfStreamType, pk: Packet): (r: (bool, Packet))
    requires Fits(pk)
    ensures r.0 <==> streamType == AsfAudio
                     || exists j :: 0 <= j < |pk.payload| && IsVideoKeyframeStart(pk.payload[j], videoStreamId)
    ensures !r.0 || streamType == AsfAudio ==> r.1 == pk
    ensures Fits(r.1) && |r.1.bytes| == |pk.bytes| && |r.1.payload| == |pk.payload|
  {
    if streamType == AsfAudio then (true, pk)
    else match LastKeyframe(pk.payload, videoStreamId)
      case None => (false, pk)
      case Some(k) => (true, StartFrom(videoStreamId, streamType, pk.payload[k], pk, 0))
  }

  /** The byte ranges SetStart may write for payload p. */
  predicate InStartFields(p: PayloadInfo, k: int)
  {
    k == p.streamIdOffset || p.mediaOffset <= k < p.mediaOffset + 4
  }

  /**
   * After SetStart from payload i on: each payload that was a video non-key-frame earlier
   * than the key frame has offset into media 0 and a stream id moved by 50 exactly when it
   * belongs to an earlier media object (and the stream is not unaltered); every other payload
   * is unchanged; and no byte outside the rewritten payloads' id and offset fields changes.
   */
  lemma {:induction false} StartFromEffect(videoStreamId: u32, streamType: AsfStreamType, key: PayloadInfo, pk: Packet, i: nat)
    requires Fits(pk)
    ensures var r := StartFrom(videoStreamId, streamType, key, pk, i);
      && (forall j :: 0 <= j < |pk.payload| ==>
            var p := pk.payload[j];
            if i <= j && BeforeKeyframe(p, key, videoStreamId)
            then r.payload[j] == p.(streamId := StartStreamId(p, key, streamType), offsetIntoMedia := 0)
            else r.payload[j] == p)
      && (forall k :: 0 <= k < |pk.bytes|
            && (forall j :: i <= j < |pk.payload| && BeforeKeyframe(pk.payload[j], key, videoStreamId)
                  ==> !InStartFields(pk.payload[j], k))
            ==> r.bytes[k] == pk.bytes[k])
    decreases |pk.payload| - i
  {
    if i < |pk.payload| {
      var next := StartStep(videoStreamId, streamType, key, pk, i);
      StartFromEffect(videoStreamId, streamType, key, next, i + 1);
      var p := pk.payload[i];
      assert forall j :: 0 <= j < |pk.payload| && j != i ==> next.payload[j] == pk.payload[j];
      if BeforeKeyframe(p, key, videoStreamId) {
        assert next.payload[i] == p.(streamId := StartStreamId(p, key, streamType), offsetIntoMedia := 0);
        assert !BeforeKeyframe(next.payload[i], key, videoStreamId) || next.payload[i].streamId == p.streamId;
      }
    }
  }

  // ---------------------------------------------------------------- SetFollowup

  /** The inputs SetFollowup reads but does not change during its payload loop. */
  datatype FollowupEnv = FollowupEnv(
    streamType: AsfStreamType,
    audioStreamId: u32,
    preroll: u32,
    startTimeOffset: u32,
    endTimeOffset: u32,
    minPacketSendTime: u32,
    sendTimeOffset: nat)

  /** What SetFollowup carries from one payload to the next: the packet's send time and the
      stream info's media object counters and maximum presentation times. */
  datatype LoopState = LoopState(
    sendTime: u32,
    mediaObjectId: seq<u8>,
    prevMediaObjectId: seq<u8>,
    maxPresentationTime: map<u8, u32>)

  predicate CountersOk(s: LoopState)
  {
    |s.mediaObjectId| == COUNTER_COUNT && |s.prevMediaObjectId| == COUNTER_COUNT
  }

  /** Every field SetFollowup patches lies inside the packet. */
  predicate BytesOk(env: FollowupEnv, ps: seq<PayloadInfo>, bytes: seq<u8>)
  {
    env.sendTimeOffset + 4 <= |bytes| && AllFit(ps, |bytes|)
  }

  /** The send time after the shift: 2000 ms before its distance from the segment's first
      send time, or 0 when that distance is at most 2000 ms. */
  function ShiftedSendTime(sendTime: u32, startSendTime: u32): (r: u32)
    ensures r <= sendTime
    ensures r > 0 <==> sendTime - startSendTime > Configuration.ASF_SEND_SAFETY_THRESHOLD
    ensures r > 0 ==> r + startSendTime + Configuration.ASF_SEND_SAFETY_THRESHOLD == sendTime
  {
    var packetSendTime := sendTime - startSendTime;
    if packetSendTime - Configuration.ASF_SEND_SAFETY_THRESHOLD > 0
    then packetSendTime - Configuration.ASF_SEND_SAFETY_THRESHOLD
    else 0
  }

  /** Where a cropped payload is put: the segment's length plus the preroll (32-bit). */
  function CropTime(env: FollowupEnv): u32
  {
    Wrap32(Wrap32(env.endTimeOffset - env.startTimeOffset) + env.preroll)
  }

  /** A payload past the end of the segment is cropped, except for unaltered and image streams. */
  predicate Crops(env: FollowupEnv, t: u32)
  {
    && env.streamType != AsfUnaltered && env.streamType != AsfImage
    && t > env.preroll && t - env.preroll > Wrap32(env.endTimeOffset - env.startTimeOffset)
  }

  /** Whether a payload's time relative to the segment start is below the preroll. */
  predicate Early(env: FollowupEnv, p: PayloadInfo)
  {
    p.presentationTime - env.startTimeOffset < env.preroll
  }

  /** The presentation time of a payload after the preroll correction (before cropping):
      its time relative to the segment start, or, when that is below the preroll, the
      send time plus preroll for a moved audio payload, preroll - 100 for images, the
      preroll otherwise. */
  function CorrectedTime(env: FollowupEnv, p: PayloadInfo, sendTime: u32): (r: u32)
    ensures !Early(env, p) ==> r == p.presentationTime - env.startTimeOffset
  {
    var t := p.presentationTime - env.startTimeOffset;
    if t >= env.preroll then t
    else if p.streamId == env.audioStreamId && env.streamType != AsfUnaltered then Wrap32(sendTime + env.preroll)
    else if env.streamType == AsfImage then Wrap32(env.preroll - Configuration.ASF_TIME_THRESHOLD)
    else env.preroll
  }

  function Max(a: u32, b: u32): (r: u32)
    ensures r >= a && r >= b && (r == a || r == b)
  {
    if a >= b then a else b
  }

  /** `TryGetValue` with 0 for a missing key. */
  function MaxTimeOf(m: map<u8, u32>, sid: u8): u32
  {
    if sid in m then m[sid] else 0
  }

  /** Whether the output media object number advances for a payload of input number `num`,
      given the stream's counter and previous input number. */
  predicate Advances(counter: u8, previous: u8, num: u8)
  {
    (counter == 0 && previous == 0) || previous != num
  }

  /** The payload's final presentation time: the corrected time, or the crop time. */
  function StepTime(env: FollowupEnv, p: PayloadInfo, sendTime: u32): (r: u32)
    ensures r == CorrectedTime(env, p, sendTime) || (r == CropTime(env) && Crops(env, CorrectedTime(env, p, sendTime)))
  {
    var t := CorrectedTime(env, p, sendTime);
    if Crops(env, t) then CropTime(env) else t
  }

  /** The send time after a payload: lowered to max(corrected time, previous packet's send
      time) when the corrected time is below it. */
  function StepSendTime(env: FollowupEnv, p: PayloadInfo, sendTime: u32): (r: u32)
    ensures r == sendTime || (r == Max(CorrectedTime(env, p, sendTime), env.minPacketSendTime)
                              && CorrectedTime(env, p, sendTime) < sendTime)
  {
    var t := CorrectedTime(env, p, sendTime);
    if t < sendTime then Max(t, env.minPacketSendTime) else sendTime
  }

  /** The output media object number: the stream's counter, advanced (as a byte) when needed. */
  function NextObjectId(counter: u8, previous: u8, num: u8): (r: u8)
    ensures r == if Advances(counter, previous, num) then (counter as int + 1) % 256 else counter
  {
    if Advances(counter, previous, num) then Wrap8(counter as int + 1) else counter
  }

  /** `MaxPresentationTime[sid]` is raised to t when t exceeds it (a missing entry counts as 0). */
  function RaiseMaxTime(m: map<u8, u32>, sid: u8, t: u32): (r: map<u8, u32>)
    ensures MaxTimeOf(r, sid) == Max(MaxTimeOf(m, sid), t)
    ensures forall k :: k != sid ==> (k in r <==> k in m) && (k in m ==> r[k] == m[k])
  {
    if MaxTimeOf(m, sid) < t then m[sid := t] else m
  }

  /** Two payload records that differ at most in presentation time and media object number. */
  predicate SameLayout(a: PayloadInfo, b: PayloadInfo)
  {
    a == b.(presentationTime := a.presentationTime, mediaObjectNumber := a.mediaObjectNumber)
  }

  /** SetFollowup's treatment of one payload, on the carried state. */
  function StepState(env: FollowupEnv, s: LoopState, p: PayloadInfo): (r: LoopState)
    requires CountersOk(s)
    ensures CountersOk(r)
  {
    var sid := p.streamId;
    LoopState(
      StepSendTime(env, p, s.sendTime),
      s.mediaObjectId[sid := NextObjectId(s.mediaObjectId[sid], s.prevMediaObjectId[sid], p.mediaObjectNumber)],
      s.prevMediaObjectId[sid := p.mediaObjectNumber],
      RaiseMaxTime(s.maxPresentationTime, sid, StepTime(env, p, s.sendTime)))
  }

  /** SetFollowup's treatment of one payload, on its record: the new time and number. */
  function StepPayload(env: FollowupEnv, s: LoopState, p: PayloadInfo): (r: PayloadInfo)
    requires CountersOk(s)
    ensures SameLayout(r, p)
  {
    var sid := p.streamId;
    p.(presentationTime := StepTime(env, p, s.sendTime),
       mediaObjectNumber := NextObjectId(s.mediaObjectId[sid], s.prevMediaObjectId[sid], p.mediaObjectNumber))
  }

  /** The state after the loop has processed the payloads ps in order. */
  function RunState(env: FollowupEnv, s: LoopState, ps: seq<PayloadInfo>): (r: LoopState)
    requires CountersOk(s)
    ensures CountersOk(r)
  {
    if ps == [] then s
    else StepState(env, RunState(env, s, ps[..|ps| - 1]), ps[|ps| - 1])
  }

  /** The payload records after the loop has processed ps in order. */
  function RunPayloads(env: FollowupEnv, s: LoopState, ps: seq<PayloadInfo>): (r: seq<PayloadInfo>)
    requires CountersOk(s)
    ensures |r| == |ps|
  {
    if ps == [] then []
    else
      var front := ps[..|ps| - 1];
      RunPayloads(env, s, front) + [StepPayload(env, RunState(env, s, front), ps[|ps| - 1])]
  }

  /** The two private moves that happen before the send-time check: an early audio payload
      (lines 291-298) and, in an image segment, any audio payload (lines 308-311). */
  function EarlyMoves(env: FollowupEnv, p: PayloadInfo, sendTime: u32, bytes: seq<u8>): (r: seq<u8>)
    requires PayloadFits(p, |bytes|)
    ensures |r| == |bytes|
  {
    var audio := p.streamId == env.audioStreamId;
    var b1 := if Early(env, p) && audio && env.streamType != AsfUnaltered
              then MovePrivateBytes(bytes, p, CorrectedTime(env, p, sendTime)) else bytes;
    if env.streamType == AsfImage && audio then MovePrivateBytes(b1, p, Wrap32(sendTime + env.preroll)) else b1
  }

  /** The send-time field is rewritten when the send time is lowered. */
  function SendTimePatch(env: FollowupEnv, p: PayloadInfo, sendTime: u32, bytes: seq<u8>): (r: seq<u8>)
    requires env.sendTimeOffset + 4 <= |bytes|
    ensures |r| == |bytes|
  {
    if CorrectedTime(env, p, sendTime) < sendTime
    then Patch(bytes, env.sendTimeOffset, LE32(StepSendTime(env, p, sendTime)))
    else bytes
  }

  /** The corrected time is written, then a cropped payload is moved to the crop time. */
  function TimePatches(env: FollowupEnv, p: PayloadInfo, sendTime: u32, bytes: seq<u8>): (r: seq<u8>)
    requires PayloadFits(p, |bytes|)
    ensures |r| == |bytes|
  {
    var t := CorrectedTime(env, p, sendTime);
    var b := SetTimeBytes(bytes, p, t);
    if Crops(env, t) then MovePrivateBytes(b, p, CropTime(env)) else b
  }

  /** The bytes SetFollowup may write for payload p. */
  predicate InFollowupFields(p: PayloadInfo, k: int)
  {
    || k == p.streamIdOffset
    || k == p.mediaObjectNumberOffset
    || p.presentationTimeOffset <= k < p.presentationTimeOffset + 4
  }

  /** SetFollowup's treatment of one payload, on the bytes: the patches in source order, the
      last one writing the new media object number. */
  function StepBytes(env: FollowupEnv, s: LoopState, p: PayloadInfo, bytes: seq<u8>): (r: seq<u8>)
    requires CountersOk(s) && env.sendTimeOffset + 4 <= |bytes| && PayloadFits(p, |bytes|)
    ensures |r| == |bytes|
    ensures forall k :: (0 <= k < |bytes| && !(env.sendTimeOffset <= k < env.sendTimeOffset + 4)
                         && !InFollowupFields(p, k)) ==> r[k] == bytes[k]
  {
    var st := s.sendTime;
    var sid := p.streamId;
    var id := NextObjectId(s.mediaObjectId[sid], s.prevMediaObjectId[sid], p.mediaObjectNumber);
    Patch(TimePatches(env, p, st, SendTimePatch(env, p, st, EarlyMoves(env, p, st, bytes))),
          p.mediaObjectNumberOffset, [id])
  }

  /** The packet bytes after the loop has processed ps in order. */
  function RunBytes(env: FollowupEnv, s: LoopState, ps: seq<PayloadInfo>, bytes: seq<u8>): (r: seq<u8>)
    requires CountersOk(s) && BytesOk(env, ps, bytes)
    ensures |r| == |bytes|
  {
    if ps == [] then bytes
    else
      var front := ps[..|ps| - 1];
      StepBytes(env, RunState(env, s, front), ps[|ps| - 1], RunBytes(env, s, front, bytes))
  }

  /** The state right after the send-time shift. */
  function Shifted(s: LoopState, startSendTime: u32): LoopState
  {
    s.(sendTime := ShiftedSendTime(s.sendTime, startSendTime))
  }

  /** SetFollowup on the packet bytes: the shifted send time is written, then every
      payload's patches in order. */
  function FollowupBytes(env: FollowupEnv, startSendTime: u32, s: LoopState, ps: seq<PayloadInfo>, bytes: seq<u8>): (r: seq<u8>)
    requires CountersOk(s) && BytesOk(env, ps, bytes)
    ensures |r| == |bytes|
  {
    var shifted := Shifted(s, startSendTime);
    RunBytes(env, shifted, ps, Patch(bytes, env.sendTimeOffset, LE32(shifted.sendTime)))
  }

  /** SetFollowup on the payload records. */
  function FollowupPayloads(env: FollowupEnv, startSendTime: u32, s: LoopState, ps: seq<PayloadInfo>): (r: seq<PayloadInfo>)
    requires CountersOk(s)
    ensures |r| == |ps|
  {
    RunPayloads(env, Shifted(s, startSendTime), ps)
  }

  /** SetFollowup on the carried state; its send time becomes the stream info's minimum send
      time for the next packet. */
  function FollowupState(env: FollowupEnv, startSendTime: u32, s: LoopState, ps: seq<PayloadInfo>): (r: LoopState)
    requires CountersOk(s)
    ensures CountersOk(r)
  {
    RunState(env, Shifted(s, startSendTime), ps)
  }

  /** One more turn of the loop: the runs over ps[..i + 1] are the runs over ps[..i] followed
      by the treatment of payload i. */
  lemma RunExtend(env: FollowupEnv, s: LoopState, ps: seq<PayloadInfo>, i: nat, bytes: seq<u8>)
    requires CountersOk(s) && i < |ps| && BytesOk(env, ps, bytes)
    ensures var before := RunState(env, s, ps[..i]);
      && RunState(env, s, ps[..i + 1]) == StepState(env, before, ps[i])
      && RunPayloads(env, s, ps[..i + 1]) == RunPayloads(env, s, ps[..i]) + [StepPayload(env, before, ps[i])]
      && BytesOk(env, ps[..i], bytes)
      && RunBytes(env, s, ps[..i + 1], bytes) == StepBytes(env, before, ps[i], RunBytes(env, s, ps[..i], bytes))
  {
    assert ps[..i + 1][..i] == ps[..i];
    assert AllFit(ps[..i], |bytes|);
  }

  // ---------------------------------------------------------------- SetFollowup properties

  /** The send time is at or below a payload's final presentation time (or the previous
      packet's send time), unless that payload was cropped. */
  predicate SendTimeCovers(env: FollowupEnv, sendTime: u32, t: u32)
  {
    sendTime <= Max(env.minPacketSendTime, t) || t == CropTime(env)
  }

  /**
   * The payload loop never raises the send time above where it started (in the sense of max
   * with the previous packet's send time); once lowered it is at least the previous packet's
   * send time; and it ends covered by every payload it processed.
   */
  lemma {:induction false} RunSendTime(env: FollowupEnv, s: LoopState, ps: seq<PayloadInfo>)
    requires CountersOk(s)
    ensures var r := RunState(env, s, ps);
      var out := RunPayloads(env, s, ps);
      && Max(r.sendTime, env.minPacketSendTime) <= Max(s.sendTime, env.minPacketSendTime)
      && (r.sendTime == s.sendTime || r.sendTime >= env.minPacketSendTime)
      && forall j :: 0 <= j < |ps| ==> SendTimeCovers(env, r.sendTime, out[j].presentationTime)
    decreases |ps|
  {
    if ps != [] {
      var front := ps[..|ps| - 1];
      RunSendTime(env, s, front);
      var before := RunState(env, s, front);
      var last := StepPayload(env, before, ps[|ps| - 1]);
      assert RunPayloads(env, s, ps) == RunPayloads(env, s, front) + [last];
      assert RunState(env, s, ps) == StepState(env, before, ps[|ps| - 1]);
    }
  }

  /**
   * SetFollowup's send time: at most the shifted send time (or the previous packet's send
   * time, if that is larger); either the shifted send time itself or at least the previous
   * packet's send time; and at or below every uncropped payload's final presentation time
   * unless it was held up by the previous packet's send time.
   */
  lemma FollowupSendTimeBound(env: FollowupEnv, startSendTime: u32, s: LoopState, ps: seq<PayloadInfo>)
    requires CountersOk(s)
    ensures var r := FollowupState(env, startSendTime, s, ps);
      var out := FollowupPayloads(env, startSendTime, s, ps);
      var shifted := ShiftedSendTime(s.sendTime, startSendTime);
      && Max(r.sendTime, env.minPacketSendTime) <= Max(shifted, env.minPacketSendTime)
      && (r.sendTime == shifted || r.sendTime >= env.minPacketSendTime)
      && forall j :: 0 <= j < |ps| ==> SendTimeCovers(env, r.sendTime, out[j].presentationTime)
  {
    var shifted := Shifted(s, startSendTime);
    RunSendTime(env, shifted, ps);
    assert FollowupState(env, startSendTime, s, ps) == RunState(env, shifted, ps);
    assert FollowupPayloads(env, startSendTime, s, ps) == RunPayloads(env, shifted, ps);
  }

  predicate Touched(env: FollowupEnv, ps: seq<PayloadInfo>, k: int)
  {
    || env.sendTimeOffset <= k < env.sendTimeOffset + 4
    || exists j :: 0 <= j < |ps| && InFollowupFields(ps[j], k)
  }

  /** The payload loop writes no byte outside the send-time field and the payloads' stream-id,
      media-object-number and presentation-time fields: the packet is patched, not re-encoded. */
  lemma {:induction false} RunBytesPreserves(env: FollowupEnv, s: LoopState, ps: seq<PayloadInfo>, bytes: seq<u8>)
    requires CountersOk(s) && BytesOk(env, ps, bytes)
    ensures var r := RunBytes(env, s, ps, bytes);
      forall k :: 0 <= k < |bytes| && !Touched(env, ps, k) ==> r[k] == bytes[k]
    decreases |ps|
  {
    if ps != [] {
      var front := ps[..|ps| - 1];
      RunBytesPreserves(env, s, front, bytes);
      forall k | 0 <= k < |bytes| && !Touched(env, ps, k)
        ensures !Touched(env, front, k) && !InFollowupFields(ps[|ps| - 1], k)
      {
      }
    }
  }

  /** The same for the whole of SetFollowup, send-time shift included. */
  lemma FollowupPreserves(env: FollowupEnv, startSendTime: u32, s: LoopState, ps: seq<PayloadInfo>, bytes: seq<u8>)
    requires CountersOk(s) && BytesOk(env, ps, bytes)
    ensures var r := FollowupBytes(env, startSendTime, s, ps, bytes);
      forall k :: 0 <= k < |bytes| && !Touched(env, ps, k) ==> r[k] == bytes[k]
  {
    var shifted := Shifted(s, startSendTime);
    RunBytesPreserves(env, shifted, ps, Patch(bytes, env.sendTimeOffset, LE32(shifted.sendTime)));
  }

  /** Output payload j is payload j treated with the state the loop had reached before it;
      in particular only its time and number differ from the input. */
  lemma {:induction false} RunPayloadsAt(env: FollowupEnv, s: LoopState, ps: seq<PayloadInfo>, j: nat)
    requires CountersOk(s) && j < |ps|
    ensures RunPayloads(env, s, ps)[j] == StepPayload(env, RunState(env, s, ps[..j]), ps[j])
    ensures SameLayout(RunPayloads(env, s, ps)[j], ps[j])
    decreases |ps|
  {
    var front := ps[..|ps| - 1];
    if j < |ps| - 1 {
      RunPayloadsAt(env, s, front, j);
      assert front[..j] == ps[..j];
    } else {
      assert front == ps[..j];
    }
  }

  /** Payloads of other streams leave a stream's two counters alone. */
  lemma {:induction false} RunCounters(env: FollowupEnv, s: LoopState, ps: seq<PayloadInfo>, sid: u8, n1: nat, n2: nat)
    requires CountersOk(s) && n1 <= n2 <= |ps|
    requires forall m :: n1 <= m < n2 ==> ps[m].streamId != sid
    ensures RunState(env, s, ps[..n2]).mediaObjectId[sid] == RunState(env, s, ps[..n1]).mediaObjectId[sid]
    ensures RunState(env, s, ps[..n2]).prevMediaObjectId[sid] == RunState(env, s, ps[..n1]).prevMediaObjectId[sid]
    decreases n2
  {
    if n1 < n2 {
      RunCounters(env, s, ps, sid, n1, n2 - 1);
      assert ps[..n2][..n2 - 1] == ps[..n2 - 1];
    }
  }

  /** The output number of payload j, from the counters in force just before it. */
  lemma NumberBefore(env: FollowupEnv, s: LoopState, ps: seq<PayloadInfo>, j: nat)
    requires CountersOk(s) && j < |ps|
    ensures var before := RunState(env, s, ps[..j]);
      var sid := ps[j].streamId;
      RunPayloads(env, s, ps)[j].mediaObjectNumber
        == NextObjectId(before.mediaObjectId[sid], before.prevMediaObjectId[sid], ps[j].mediaObjectNumber)
  {
    RunPayloadsAt(env, s, ps, j);
  }

  /** After payload j the counters of its stream hold its output and its input number. */
  lemma CountersAfter(env: FollowupEnv, s: LoopState, ps: seq<PayloadInfo>, j: nat)
    requires CountersOk(s) && j < |ps|
    ensures var after := RunState(env, s, ps[..j + 1]);
      var sid := ps[j].streamId;
      && after.mediaObjectId[sid] == RunPayloads(env, s, ps)[j].mediaObjectNumber
      && after.prevMediaObjectId[sid] == ps[j].mediaObjectNumber
  {
    RunPayloadsAt(env, s, ps, j);
    assert ps[..j + 1][..j] == ps[..j];
  }

  /**
   * Media object renumbering within a packet: for two payloads of the same stream with no
   * payload of that stream between them, the second gets the first's output number again
   * when it carries the same input number, and the next number (wrapping from 255 to 0)
   * when its input number differs, or when the first payload's input and output numbers
   * were both 0.
   */
  lemma NumberingConsecutive(env: FollowupEnv, s: LoopState, ps: seq<PayloadInfo>, j: nat, j2: nat)
    requires CountersOk(s) && j < j2 < |ps|
    requires ps[j].streamId == ps[j2].streamId
    requires forall m :: j < m < j2 ==> ps[m].streamId != ps[j].streamId
    ensures var out := RunPayloads(env, s, ps);
      out[j2].mediaObjectNumber ==
        if Advances(out[j].mediaObjectNumber, ps[j].mediaObjectNumber, ps[j2].mediaObjectNumber)
        then (out[j].mediaObjectNumber as int + 1) % 256 else out[j].mediaObjectNumber
  {
    CountersAfter(env, s, ps, j);
    RunCounters(env, s, ps, ps[j].streamId, j + 1, j2);
    NumberBefore(env, s, ps, j2);
  }

  /** The first payload of a stream in a packet continues from the stream info's counters. */
  lemma NumberingFirst(env: FollowupEnv, s: LoopState, ps: seq<PayloadInfo>, j: nat)
    requires CountersOk(s) && j < |ps|
    requires forall m :: 0 <= m < j ==> ps[m].streamId != ps[j].streamId
    ensures var sid := ps[j].streamId;
      RunPayloads(env, s, ps)[j].mediaObjectNumber ==
        if Advances(s.mediaObjectId[sid], s.prevMediaObjectId[sid], ps[j].mediaObjectNumber)
        then (s.mediaObjectId[sid] as int + 1) % 256 else s.mediaObjectId[sid]
  {
    NumberBefore(env, s, ps, j);
    RunCounters(env, s, ps, ps[j].streamId, 0, j);
    assert ps[..0] == [];
  }

  /** The maximum presentation time kept for a stream never decreases, and after the loop it
      is at least the final time of every payload of that stream. */
  lemma {:induction false} RunMaxTime(env: FollowupEnv, s: LoopState, ps: seq<PayloadInfo>)
    requires CountersOk(s)
    ensures var r := RunState(env, s, ps);
      var out := RunPayloads(env, s, ps);
      && (forall sid: u8 :: MaxTimeOf(r.maxPresentationTime, sid) >= MaxTimeOf(s.maxPresentationTime, sid))
      && forall j :: 0 <= j < |ps| ==> MaxTimeOf(r.maxPresentationTime, ps[j].streamId) >= out[j].presentationTime
    decreases |ps|
  {
    if ps != [] {
      var front := ps[..|ps| - 1];
      RunMaxTime(env, s, front);
      assert RunPayloads(env, s, ps) == RunPayloads(env, s, front) + [StepPayload(env, RunState(env, s, front), ps[|ps| - 1])];
    }
  }

  /**
   * A payload without replicated data has its presentation-time offset left at 0, so the
   * time SetFollowup writes for it lands on packet bytes 0 to 3 (the error-correction and
   * length-type bytes) whenever no other patched field starts there.
   */
  lemma NoReplicatedDataPatchesPacketStart(env: FollowupEnv, s: LoopState, p: PayloadInfo, bytes: seq<u8>)
    requires CountersOk(s) && env.sendTimeOffset + 4 <= |bytes| && PayloadFits(p, |bytes|)
    requires p.presentationTimeOffset == 0
    requires p.streamIdOffset >= 4 && p.mediaObjectNumberOffset >= 4 && env.sendTimeOffset >= 4
    ensures StepBytes(env, s, p, bytes)[..4] == LE32(StepPayload(env, s, p).presentationTime)
  {
  }
}

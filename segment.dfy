/**
 * What a segment stream produces, as values: the renormalisation of one data packet
 * read from the file, and of the packets of a segment in the order they are read. The
 * `AsfStream` class is proved to append exactly these bytes.
 */
module Segments {
  import opened Bytes
  import opened Wrappers
  import opened StreamInfos
  import opened Renormalisation
  import PacketCodec

  /** The inputs that stay fixed while a stream is read: type, packet layout, stream ids, preroll and the segment's time range. */
  datatype SegmentContext = SegmentContext(
    streamType: AsfStreamType,
    packetSize: u32,
    videoStreamId: u32,
    audioStreamId: u32,
    preroll: u32,
    startTimeOffset: u32,
    endTimeOffset: u32)

  /** The stream info's state carried from packet to packet. */
  datatype Session = Session(
    startSendTime: u32,
    minPacketSendTime: u32,
    mediaObjectId: seq<u8>,
    prevMediaObjectId: seq<u8>,
    maxPresentationTime: map<u8, u32>)

  /** One counter per possible stream-id byte. */
  predicate SessionOk(s: Session)
  {
    |s.mediaObjectId| == COUNTER_COUNT && |s.prevMediaObjectId| == COUNTER_COUNT
  }

  /** n zero bytes: the counters after `ResetMediaObjects`, for n = 256. */
  function Zeros(n: nat): (r: seq<u8>)
    ensures |r| == n && forall k :: 0 <= k < n ==> r[k] == 0
  {
    if n == 0 then [] else Zeros(n - 1) + [0]
  }

  /**
   * The state the first packet starts from: the counters reset and the segment's first
   * send time taken from the packet; later packets continue from the carried state.
   */
  function Entry(first: bool, s: Session, sendTime: u32): (r: Session)
    ensures first || SessionOk(s) ==> SessionOk(r)
    ensures first ==> r.startSendTime == sendTime && r.mediaObjectId == Zeros(COUNTER_COUNT) && r.prevMediaObjectId == Zeros(COUNTER_COUNT)
    ensures first ==> r.minPacketSendTime == s.minPacketSendTime && r.maxPresentationTime == s.maxPresentationTime
    ensures !first ==> r == s
  {
    if first then Session(sendTime, s.minPacketSendTime, Zeros(COUNTER_COUNT), Zeros(COUNTER_COUNT), s.maxPresentationTime)
    else s
  }

  /** The decoded packet with `SetStart` applied when it is the first of the segment. */
  function Started(ctx: SegmentContext, first: bool, src: seq<u8>, d: PacketCodec.DecodedPacket): (r: Packet)
    requires Fits(Packet(src, d.payload))
    ensures Fits(r) && |r.bytes| == |src| && |r.payload| == |d.payload|
    ensures !first ==> r == Packet(src, d.payload)
  {
    var pk := Packet(src, d.payload);
    if first then Start(ctx.videoStreamId, ctx.streamType, pk).1 else pk
  }

  /** The fixed inputs of `SetFollowup` for a packet whose send time lies at `sendTimeOffset`. */
  function EnvFor(ctx: SegmentContext, s: Session, sendTimeOffset: nat): FollowupEnv
  {
    FollowupEnv(ctx.streamType, ctx.audioStreamId, ctx.preroll, ctx.startTimeOffset, ctx.endTimeOffset,
                s.minPacketSendTime, sendTimeOffset)
  }

  /** The counters and send time `SetFollowup` carries through its payload loop. */
  function Carried(s: Session, sendTime: u32): LoopState
  {
    LoopState(sendTime, s.mediaObjectId, s.prevMediaObjectId, s.maxPresentationTime)
  }

  /**
   * One decoded packet of a segment: reset and started when it is the first, then
   * renormalised by `SetFollowup`. The result is the packet's new bytes and the state for
   * the next packet, whose minimum send time is this packet's final send time.
   */
  function Treated(ctx: SegmentContext, first: bool, s: Session, src: seq<u8>, d: PacketCodec.DecodedPacket)
    : (r: (seq<u8>, Session))
    requires SessionOk(s) && Fits(Packet(src, d.payload)) && d.header.sendTimeOffset + 4 <= |src|
    ensures |r.0| == |src| && SessionOk(r.1)
    ensures r.1.startSendTime == if first then d.header.sendTime else s.startSendTime
  {
    var s1 := Entry(first, s, d.header.sendTime);
    var pk := Started(ctx, first, src, d);
    var env := EnvFor(ctx, s1, d.header.sendTimeOffset);
    var carried := Carried(s1, d.header.sendTime);
    var bytes := FollowupBytes(env, s1.startSendTime, carried, pk.payload, pk.bytes);
    var after := FollowupState(env, s1.startSendTime, carried, pk.payload);
    (bytes, Session(s1.startSendTime, after.sendTime, after.mediaObjectId, after.prevMediaObjectId,
                    after.maxPresentationTime))
  }

  /** One packet of a segment: decoded, failing as the packet constructor fails, then treated. */
  function Renormalise(ctx: SegmentContext, first: bool, s: Session, src: seq<u8>)
    : (r: Result<(seq<u8>, Session), PacketCodec.PacketError>)
    requires SessionOk(s)
    ensures |src| != ctx.packetSize ==> r == Err(PacketCodec.SizeMismatch)
    ensures r.Ok? <==> PacketCodec.Decode(ctx.packetSize, src, 0).Ok?
    ensures r.Ok? ==> |src| == ctx.packetSize && |r.value.0| == |src| && SessionOk(r.value.1)
    ensures r.Ok? ==> r.value.1.startSendTime
                      == (if first then PacketCodec.Decode(ctx.packetSize, src, 0).value.header.sendTime else s.startSendTime)
  {
    var d :- PacketCodec.Decode(ctx.packetSize, src, 0);
    Ok(Treated(ctx, first, s, src, d))
  }

  /** `Treated` from its parts: the state entered with, the started packet, and `SetFollowup`'s bytes and state. */
  lemma TreatedSteps(ctx: SegmentContext, first: bool, s: Session, src: seq<u8>, d: PacketCodec.DecodedPacket,
                     s1: Session, pk: Packet, bytes: seq<u8>, after: LoopState)
    requires SessionOk(s) && Fits(Packet(src, d.payload)) && d.header.sendTimeOffset + 4 <= |src|
    requires s1 == Entry(first, s, d.header.sendTime)
    requires pk == Started(ctx, first, src, d)
    requires bytes == FollowupBytes(EnvFor(ctx, s1, d.header.sendTimeOffset), s1.startSendTime,
                                    Carried(s1, d.header.sendTime), pk.payload, pk.bytes)
    requires after == FollowupState(EnvFor(ctx, s1, d.header.sendTimeOffset), s1.startSendTime,
                                    Carried(s1, d.header.sendTime), pk.payload)
    ensures Treated(ctx, first, s, src, d)
            == (bytes, Session(s1.startSendTime, after.sendTime, after.mediaObjectId, after.prevMediaObjectId,
                               after.maxPresentationTime))
  {
  }

  /** The bytes n packets of `size` bytes take, one after the other. */
  function Span(n: nat, size: nat): nat
  {
    if n == 0 then 0 else Span(n - 1, size) + size
  }

  /** `Span` is the product; kept apart so the product stays out of other proofs. */
  lemma {:induction false} SpanIsProduct(n: nat, size: nat)
    ensures Span(n, size) == n * size
  {
    if n > 0 {
      SpanIsProduct(n - 1, size);
    }
  }

  /** Later packets start further on. */
  lemma {:induction false} SpanMono(i: nat, j: nat, size: nat)
    requires i <= j
    ensures Span(i, size) <= Span(j, size)
    decreases j
  {
    if i < j {
      SpanMono(i, j - 1, size);
    }
  }

  /**
   * The packets of a segment in the order they are read: each renormalised from the
   * state the previous one left, the first one flagged as first. The output is their
   * bytes, one packet after the other, and the final state; the first failure stops it.
   */
  function Segment(ctx: SegmentContext, init: Session, srcs: seq<seq<u8>>)
    : (r: Result<(seq<u8>, Session), PacketCodec.PacketError>)
    requires SessionOk(init)
    ensures srcs == [] ==> r == Ok(([], init))
    ensures r.Ok? ==> SessionOk(r.value.1)
    decreases |srcs|, 2
  {
    if srcs == [] then Ok(([], init)) else SegmentLast(ctx, init, srcs)
  }

  /** A non-empty segment: the segment of all but the last packet, then the last packet. */
  function SegmentLast(ctx: SegmentContext, init: Session, srcs: seq<seq<u8>>)
    : (r: Result<(seq<u8>, Session), PacketCodec.PacketError>)
    requires SessionOk(init) && srcs != []
    ensures r.Ok? ==> SessionOk(r.value.1)
    decreases |srcs|, 1
  {
    var front :- Segment(ctx, init, srcs[..|srcs| - 1]);
    var last :- LastPacket(ctx, init, srcs);
    Ok((front.0 + last.0, last.1))
  }

  /**
   * The last packet of a non-empty segment renormalised from the state the others left,
   * as the first packet when it is the only one: one packet's bytes and the state after.
   */
  function LastPacket(ctx: SegmentContext, init: Session, srcs: seq<seq<u8>>)
    : (r: Result<(seq<u8>, Session), PacketCodec.PacketError>)
    requires SessionOk(init) && srcs != []
    ensures r.Ok? ==> |r.value.0| == ctx.packetSize && SessionOk(r.value.1)
    decreases |srcs|, 0
  {
    var front :- Segment(ctx, init, srcs[..|srcs| - 1]);
    Renormalise(ctx, |srcs| == 1, front.1, srcs[|srcs| - 1])
  }

  /** n packets give n blocks of the packet size. */
  lemma {:induction false} SegmentLength(ctx: SegmentContext, init: Session, srcs: seq<seq<u8>>)
    requires SessionOk(init) && Segment(ctx, init, srcs).Ok?
    ensures |Segment(ctx, init, srcs).value.0| == Span(|srcs|, ctx.packetSize)
    decreases |srcs|
  {
    if srcs != [] {
      SegmentLength(ctx, init, srcs[..|srcs| - 1]);
    }
  }

  /** Reading one more packet appends its renormalised bytes and moves the state on. */
  lemma SegmentAppend(ctx: SegmentContext, init: Session, srcs: seq<seq<u8>>, src: seq<u8>)
    requires SessionOk(init) && Segment(ctx, init, srcs).Ok?
    ensures var front := Segment(ctx, init, srcs).value;
      var last := Renormalise(ctx, srcs == [], front.1, src);
      && (Segment(ctx, init, srcs + [src]).Ok? <==> last.Ok?)
      && (last.Ok? ==> Segment(ctx, init, srcs + [src]).value == (front.0 + last.value.0, last.value.1))
  {
    var all := srcs + [src];
    assert all[..|srcs|] == srcs;
    LastPacketOf(ctx, init, srcs, src);
  }

  /** A decoded packet's treatment extends the segment read so far by that packet. */
  lemma SegmentExtends(ctx: SegmentContext, init: Session, srcs: seq<seq<u8>>, out: seq<u8>, s: Session,
                       src: seq<u8>, d: PacketCodec.DecodedPacket)
    requires SessionOk(init) && Segment(ctx, init, srcs) == Ok((out, s))
    requires PacketCodec.Decode(ctx.packetSize, src, 0) == Ok(d)
    ensures var (bytes, after) := Treated(ctx, srcs == [], s, src, d);
      Segment(ctx, init, srcs + [src]) == Ok((out + bytes, after))
  {
    SegmentAppend(ctx, init, srcs, src);
  }

  /** The last packet of a segment extended by one packet is that packet renormalised. */
  lemma LastPacketOf(ctx: SegmentContext, init: Session, srcs: seq<seq<u8>>, src: seq<u8>)
    requires SessionOk(init) && Segment(ctx, init, srcs).Ok?
    ensures LastPacket(ctx, init, srcs + [src]) == Renormalise(ctx, srcs == [], Segment(ctx, init, srcs).value.1, src)
  {
    var all := srcs + [src];
    assert all[..|all| - 1] == srcs && all[|all| - 1] == src;
  }

  /**
   * The packets are emitted in the order they are read: the output of a segment begins
   * with the output of each of its prefixes.
   */
  lemma {:induction false} SegmentPrefix(ctx: SegmentContext, init: Session, srcs: seq<seq<u8>>, i: nat)
    requires SessionOk(init) && Segment(ctx, init, srcs).Ok? && i <= |srcs|
    ensures Segment(ctx, init, srcs[..i]).Ok?
    ensures Span(i, ctx.packetSize) <= |Segment(ctx, init, srcs).value.0|
    ensures Segment(ctx, init, srcs[..i]).value.0 == Segment(ctx, init, srcs).value.0[..Span(i, ctx.packetSize)]
    decreases |srcs|
  {
    var n := |srcs|;
    SegmentLength(ctx, init, srcs);
    if i == n {
      assert srcs[..i] == srcs;
    } else {
      var front := srcs[..n - 1];
      var out := Segment(ctx, init, srcs).value.0;
      var f := Segment(ctx, init, front).value.0;
      assert out[..|f|] == f;
      SegmentLength(ctx, init, front);
      SegmentPrefix(ctx, init, front, i);
      assert front[..i] == srcs[..i];
      SpanMono(i, n - 1, ctx.packetSize);
    }
  }

  /**
   * The i-th block of packet-size bytes of a segment's output is the last packet of its
   * first i + 1 packets: packet i renormalised from the state the first i left (see
   * `LastPacketOf`).
   */
  lemma SegmentBlock(ctx: SegmentContext, init: Session, srcs: seq<seq<u8>>, i: nat)
    requires SessionOk(init) && Segment(ctx, init, srcs).Ok? && i < |srcs|
    ensures LastPacket(ctx, init, srcs[..i + 1]).Ok?
    ensures var out := Segment(ctx, init, srcs).value.0;
      && Span(i + 1, ctx.packetSize) <= |out|
      && out[Span(i, ctx.packetSize)..Span(i + 1, ctx.packetSize)] == LastPacket(ctx, init, srcs[..i + 1]).value.0
  {
    var size := ctx.packetSize;
    var out := Segment(ctx, init, srcs).value.0;
    SegmentPrefix(ctx, init, srcs, i);
    SegmentPrefix(ctx, init, srcs, i + 1);
    SegmentLength(ctx, init, srcs[..i]);
    assert srcs[..i + 1][..i] == srcs[..i];
    var before := Segment(ctx, init, srcs[..i]).value.0;
    var block := LastPacket(ctx, init, srcs[..i + 1]).value.0;
    assert out[..Span(i + 1, size)] == before + block;
    assert out[Span(i, size)..Span(i + 1, size)] == (before + block)[|before|..];
  }

  /** The segment's first send time is the send time of the first packet read: later packets keep it. */
  lemma {:induction false} SegmentStartSendTime(ctx: SegmentContext, init: Session, srcs: seq<seq<u8>>)
    requires SessionOk(init) && srcs != [] && Segment(ctx, init, srcs).Ok?
    ensures PacketCodec.Decode(ctx.packetSize, srcs[0], 0).Ok?
    ensures Segment(ctx, init, srcs).value.1.startSendTime
            == PacketCodec.Decode(ctx.packetSize, srcs[0], 0).value.header.sendTime
    decreases |srcs|
  {
    var n := |srcs|;
    var front := srcs[..n - 1];
    assert srcs == front + [srcs[n - 1]];
    SegmentAppend(ctx, init, front, srcs[n - 1]);
    if n > 1 {
      SegmentStartSendTime(ctx, init, front);
      assert front[0] == srcs[0];
    }
  }

  /**
   * Because the first packet resets the counters and takes its own send time, a segment
   * depends on the state it starts from only through the minimum send time and the
   * maximum presentation times.
   */
  lemma {:induction false} SegmentIgnoresCounters(ctx: SegmentContext, a: Session, b: Session, srcs: seq<seq<u8>>)
    requires SessionOk(a) && SessionOk(b) && srcs != []
    requires a.minPacketSendTime == b.minPacketSendTime && a.maxPresentationTime == b.maxPresentationTime
    ensures Segment(ctx, a, srcs) == Segment(ctx, b, srcs)
    decreases |srcs|
  {
    var n := |srcs|;
    var front := srcs[..n - 1];
    if n > 1 {
      assert front[0] == srcs[0];
      SegmentIgnoresCounters(ctx, a, b, front);
      assert LastPacket(ctx, a, srcs) == LastPacket(ctx, b, srcs);
    } else {
      assert front == [] && srcs == front + [srcs[0]];
      FirstIgnoresCounters(ctx, a, b, srcs[0]);
      LastPacketOf(ctx, a, front, srcs[0]);
      LastPacketOf(ctx, b, front, srcs[0]);
    }
  }

  /** The first packet of a segment does not see the counters or first send time it is handed. */
  lemma FirstIgnoresCounters(ctx: SegmentContext, a: Session, b: Session, src: seq<u8>)
    requires SessionOk(a) && SessionOk(b)
    requires a.minPacketSendTime == b.minPacketSendTime && a.maxPresentationTime == b.maxPresentationTime
    ensures Renormalise(ctx, true, a, src) == Renormalise(ctx, true, b, src)
  {
    var d := PacketCodec.Decode(ctx.packetSize, src, 0);
    if d.Ok? {
      assert Entry(true, a, d.value.header.sendTime) == Entry(true, b, d.value.header.sendTime);
    }
  }

  // ------------------------------------------------------------ stream set-up

  /**
   * `Init`'s argument checks, on times in milliseconds: an image stream reads to the end
   * (its end time is forced to 0); a negative time is out of range, and so is an end
   * before the start, except for stream, image and audio streams. The result is the end
   * time used.
   */
  function CheckRange(streamType: AsfStreamType, startMs: i32, endMs: i32): (r: Result<i32, bool>)
    ensures streamType == AsfImage ==> (r.Ok? <==> 0 <= startMs) && (r.Ok? ==> r.value == 0)
    ensures streamType != AsfImage ==> (r.Ok? ==> r.value == endMs)
    ensures streamType in {AsfStream, AsfAudio} ==> (r.Ok? <==> 0 <= startMs && 0 <= endMs)
    ensures streamType in {AsfUnaltered, AsfFile} ==> (r.Ok? <==> 0 <= startMs <= endMs)
  {
    var end := if streamType == AsfImage then 0 else endMs;
    if startMs < 0 || end < 0
       || (streamType != AsfStream && streamType != AsfImage && streamType != AsfAudio && end < startMs)
    then Err(false)
    else Ok(end)
  }

  /**
   * The length a stream reports: the segment's bytes plus the header, in unsigned 32
   * bits (and at most `int.MaxValue` for a plain stream); an unaltered stream has no header.
   */
  function StreamLength(streamType: AsfStreamType, segmentLength: u32, headerSize: u32): (r: int)
    ensures 0 <= r <= U32_MAX
    ensures streamType == AsfStream ==> r <= I32_MAX
    ensures streamType == AsfUnaltered ==> r == segmentLength
    ensures streamType != AsfUnaltered && segmentLength + headerSize <= (if streamType == AsfStream then I32_MAX else U32_MAX)
            ==> r == segmentLength + headerSize
    ensures streamType != AsfStream && streamType != AsfUnaltered && segmentLength + headerSize > U32_MAX
            ==> r == segmentLength + headerSize - 0x1_0000_0000
  {
    if streamType == AsfStream then
      var sum := Wrap32(segmentLength + headerSize);
      if sum < I32_MAX then sum else I32_MAX
    else if streamType == AsfUnaltered then segmentLength
    else Wrap32(segmentLength + headerSize)
  }

  /**
   * The 32-bit sum in the length of a plain stream wraps before the cap: a segment and header
   * that together pass 2^32 bytes report a length shorter than the header, and so does a
   * header too long for the cap; no other length falls below the header.
   */
  lemma StreamLengthWraps(segmentLength: u32, headerSize: u32)
    ensures segmentLength + headerSize > U32_MAX
            ==> StreamLength(AsfStream, segmentLength, headerSize)
                == (if segmentLength + headerSize - 0x1_0000_0000 < I32_MAX
                    then segmentLength + headerSize - 0x1_0000_0000 else I32_MAX)
    ensures StreamLength(AsfStream, segmentLength, headerSize) < headerSize
            <==> segmentLength + headerSize > U32_MAX || headerSize > I32_MAX
  {
  }
}

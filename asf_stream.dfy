/**
 * `AsfStream`: a segment of an ASF file read as a stream. The stream produces the file's
 * streaming header (except for an unaltered stream), then the data packets of the
 * segment, each renormalised so the segment starts at time zero. Bytes wait in an
 * internal memory buffer, modelled as its contents and its position. A `Read` that the
 * buffer can serve is served from it; otherwise the stream appends to the buffer's end
 * until it holds enough past the position or the segment ends, then serves the read from
 * the saved position. Once the buffer passes 500000 bytes it is compacted to the unread
 * bytes and seeking back is disabled for good.
 *
 * The ghost `trace` records everything the stream has produced, the packets it
 * read from the file (`sources`, at `positions`) and how many produced bytes compaction
 * dropped; `Valid` ties them to `Segments.Segment`, so every read is proved to deliver
 * the header followed by the renormalised packets, in file order.
 */
module AsfStreams {
  import opened Bytes
  import opened Wrappers
  import opened StreamInfos
  import opened Segments
  import opened FilePositions
  import Configuration
  import PacketCodec
  import Renormalisation
  import AsfFiles
  import AsfPackets

  /** The exceptions the stream's operations raise, by cause. */
  datatype StreamError =
    | ArgumentOutOfRange                          // a negative time, an end before the start, a seek past `int.MaxValue`
    | NoImage                                     // an image stream of a file without video
    | RangeNotFound                               // no file data covers the requested times
    | FileFailure(fileError: AsfFiles.FileError)
    | PacketFailure(packetError: PacketCodec.PacketError)
    | NoStreamingHeader                           // the file has no streaming header to emit
    | InvalidArguments                            // a read's buffer, offset and count do not agree
    | StreamTooLong                               // the memory buffer would pass `int.MaxValue` bytes
    | Overflow                                    // compaction with the position past the buffer's end
    | NotImplemented                              // a seek the stream does not support
    | NegativeSeek                                // a seek before the start of the buffer

  /** `System.IO.SeekOrigin`. */
  datatype SeekOrigin = Begin | Current | End

  /** The buffer size above which a read compacts the memory buffer. */
  const MAX_INTERNAL_BUFFER_LENGTH: nat := 500000

  /** The state a fresh stream info carries: zero times and counters, no presentation times. */
  function InitialSession(): (s: Session)
    ensures SessionOk(s)
  {
    Session(0, 0, Zeros(COUNTER_COUNT), Zeros(COUNTER_COUNT), map[])
  }

  /** A stream info's carried state as a value. */
  ghost function SessionOf(info: AsfStreamInfo): Session
    reads info, info.mediaObjectId, info.prevMediaObjectId
  {
    Session(info.startSendTime, info.minPacketSendTime, info.mediaObjectId[..], info.prevMediaObjectId[..],
            info.maxPresentationTime)
  }

  /**
   * The stream info holds the carried state `s`, byte by byte; the same as `SessionOf(info) == s`
   * (`HoldsSessionOf`), but stated without taking the arrays as sequences.
   */
  ghost predicate Holds(info: AsfStreamInfo, s: Session)
    reads info, info.mediaObjectId, info.prevMediaObjectId
  {
    && info.startSendTime == s.startSendTime && info.minPacketSendTime == s.minPacketSendTime
    && info.maxPresentationTime == s.maxPresentationTime
    && info.mediaObjectId.Length == |s.mediaObjectId| && info.prevMediaObjectId.Length == |s.prevMediaObjectId|
    && (forall k :: 0 <= k < |s.mediaObjectId| ==> info.mediaObjectId[k] == s.mediaObjectId[k])
    && (forall k :: 0 <= k < |s.prevMediaObjectId| ==> info.prevMediaObjectId[k] == s.prevMediaObjectId[k])
  }

  /** `Holds` is the stream info's state being `s`. */
  lemma HoldsSessionOf(info: AsfStreamInfo, s: Session)
    ensures Holds(info, s) <==> SessionOf(info) == s
  {
    if Holds(info, s) {
      assert info.mediaObjectId[..] == s.mediaObjectId;
      assert info.prevMediaObjectId[..] == s.prevMediaObjectId;
    }
  }

  /** The inputs of the renormalisation that stay fixed while the stream is read. */
  ghost function ContextOf(streamType: AsfStreamType, config: Configuration.AsfFileConfiguration, info: AsfStreamInfo)
    : SegmentContext
    reads config, info
  {
    SegmentContext(streamType, config.asfPacketSize, config.asfVideoStreamId, config.asfAudioStreamId,
                   config.asfPreroll, info.startTimeOffset, info.endTimeOffset)
  }

  /**
   * The bytes a memory-stream read of `count` bytes at position `pos` returns: up to
   * `count` from the position, none when the position is at or past the end.
   */
  function Unread(contents: seq<u8>, pos: nat, count: int): (b: seq<u8>)
    ensures |b| <= count || b == []
    ensures b != [] ==> pos + |b| <= |contents| && b == contents[pos..pos + |b|]
    ensures |b| < count ==> pos + |b| >= |contents|
  {
    var left := |contents| - pos;
    var n := if left > count then count else left;
    if n <= 0 then [] else contents[pos..pos + n]
  }

  /** Byte `i` of the caller's buffer, `before` until then, once `bytes` are copied into it at `offset`. */
  function DeliveredAt(before: u8, i: int, offset: int, bytes: seq<u8>): u8
  {
    if offset <= i < offset + |bytes| then bytes[i - offset] else before
  }

  /** The file offset after the packets read at `positions`: the start offset before any. */
  function After(start: int, ps: nat, positions: seq<nat>): int
  {
    if positions == [] then start else positions[|positions| - 1] + ps
  }

  /**
   * How far the file stream is from the end offset: it shrinks with every packet read, as
   * the stream moves past the packet, which lies before the end offset.
   */
  function Remaining(start: int, end: int, fileStream: Option<nat>): nat
  {
    var at := if fileStream.Some? then fileStream.value else start - 1;
    if at >= end then 0 else end - at
  }

  /** A packet read at the stream's position and lying before the end offset brings the stream closer to it. */
  lemma RemainingShrinks(start: int, end: int, fileStream: Option<nat>, pos: nat, ps: nat)
    requires pos == (if fileStream.Some? then fileStream.value else start)
    requires ps > 0 && pos + ps <= end
    ensures Remaining(start, end, Some(pos + ps)) < Remaining(start, end, fileStream)
  {
  }

  /** Packet i is the `ps` bytes of the data at `positions[i]`, inside the segment [start, end). */
  ghost predicate PacketAt(data: seq<u8>, start: int, end: int, ps: nat, sources: seq<seq<u8>>, positions: seq<nat>,
                           i: int)
  {
    && 0 <= i < |sources| && i < |positions|
    && start <= positions[i] && positions[i] + ps <= end && positions[i] + ps <= |data|
    && sources[i] == data[positions[i]..positions[i] + ps]
  }

  /** Packet i ends at or before packet j starts. */
  ghost predicate InOrder(ps: nat, positions: seq<nat>, i: int, j: int)
  {
    0 <= i < j < |positions| && positions[i] + ps <= positions[j]
  }

  /** Packet i starts exactly i packets after `start`. */
  ghost predicate Placed(start: int, ps: nat, positions: seq<nat>, i: int)
  {
    0 <= i < |positions| && positions[i] == start + Span(i, ps)
  }

  /**
   * Packets of `ps` bytes were read from `data` at `positions`, in order: each inside the
   * segment [start, end) and the data, each at or after the end of the ones before, and,
   * when `tight`, packet i exactly i packets after `start`.
   */
  ghost predicate PacketsAt(data: seq<u8>, start: int, end: int, ps: nat, tight: bool,
                            sources: seq<seq<u8>>, positions: seq<nat>)
  {
    && |positions| == |sources|
    && (forall i :: 0 <= i < |sources| ==> PacketAt(data, start, end, ps, sources, positions, i))
    && (forall i, j :: 0 <= i < j < |sources| ==> InOrder(ps, positions, i, j))
    && (tight ==> forall i :: 0 <= i < |sources| ==> Placed(start, ps, positions, i))
  }

  /**
   * The packets were read in file order (`PacketsAt`, consecutive while the segment fits a
   * 32-bit count) and the file stream stands after the last one; within a short segment a
   * stream that stands elsewhere is at the end of the segment or of the data.
   */
  ghost predicate ReadInOrder(data: seq<u8>, start: int, end: int, ps: nat, sources: seq<seq<u8>>,
                              positions: seq<nat>, fileStream: Option<nat>)
  {
    && PacketsAt(data, start, end, ps, end - start <= I32_MAX, sources, positions)
    && (fileStream.None? ==> sources == [])
    && (fileStream.Some? ==> After(start, ps, positions) <= fileStream.value)
    && (end - start <= I32_MAX && fileStream.Some? ==>
          fileStream.value == After(start, ps, positions) || fileStream.value >= end || fileStream.value >= |data|)
  }

  /** A packet at or after the end of the packets read, and right there when `tight`, extends them in order. */
  lemma PacketsAtAppend(data: seq<u8>, start: int, end: int, ps: nat, tight: bool, sources: seq<seq<u8>>,
                        positions: seq<nat>, src: seq<u8>, pos: nat)
    requires PacketsAt(data, start, end, ps, tight, sources, positions)
    requires start <= pos && After(start, ps, positions) <= pos && (tight ==> pos == After(start, ps, positions))
    requires pos + ps <= end && pos + ps <= |data| && src == data[pos..pos + ps]
    ensures PacketsAt(data, start, end, ps, tight, sources + [src], positions + [pos])
  {
    var k := |sources|;
    var sources', positions' := sources + [src], positions + [pos];
    forall i | 0 <= i < k + 1
      ensures PacketAt(data, start, end, ps, sources', positions', i)
    {
      if i < k {
        assert PacketAt(data, start, end, ps, sources, positions, i);
        assert sources'[i] == sources[i] && positions'[i] == positions[i];
      }
    }
    PositionsAppend(start, ps, tight, positions, pos);
  }

  /** The order of the positions, and their places when `tight`, extended by one at or after the last packet's end. */
  lemma PositionsAppend(start: int, ps: nat, tight: bool, positions: seq<nat>, pos: nat)
    requires forall i, j :: 0 <= i < j < |positions| ==> InOrder(ps, positions, i, j)
    requires tight ==> forall i :: 0 <= i < |positions| ==> Placed(start, ps, positions, i)
    requires After(start, ps, positions) <= pos && (tight ==> pos == After(start, ps, positions))
    ensures forall i, j :: 0 <= i < j < |positions| + 1 ==> InOrder(ps, positions + [pos], i, j)
    ensures tight ==> forall i :: 0 <= i < |positions| + 1 ==> Placed(start, ps, positions + [pos], i)
  {
    var k := |positions|;
    var positions' := positions + [pos];
    forall i, j | 0 <= i < j < k + 1
      ensures InOrder(ps, positions', i, j)
    {
      if j < k {
        assert InOrder(ps, positions, i, j);
      } else if i < k - 1 {
        assert InOrder(ps, positions, i, k - 1);
      }
    }
    if tight {
      forall i | 0 <= i < k + 1
        ensures Placed(start, ps, positions', i)
      {
        if i < k {
          assert Placed(start, ps, positions, i);
        } else if k > 0 {
          assert Placed(start, ps, positions, k - 1);
        }
      }
    }
  }

  /**
   * A read that returns fewer than `ps` bytes keeps the order; within a short segment it
   * leaves the file stream at the end of the segment or of the data, so no packet follows.
   */
  lemma ShortReadInOrder(data: seq<u8>, start: int, end: int, ps: nat, sources: seq<seq<u8>>, positions: seq<nat>,
                         fileStream: Option<nat>, pos: nat, n: int, k: nat)
    requires ReadInOrder(data, start, end, ps, sources, positions, fileStream)
    requires pos == (if fileStream.Some? then fileStream.value else start)
    requires pos >= end ==> k == 0
    requires pos < end ==>
      && n == (if ToInt32(ps) < ToInt32(end - pos) then ToInt32(ps) else ToInt32(end - pos))
      && 0 <= n && k == AsfFiles.ReadCount(data, pos, n)
    requires k != ps && ps <= U32_MAX
    ensures ReadInOrder(data, start, end, ps, sources, positions, Some(pos + k))
  {
    if ps > I32_MAX {
      assert ps % 0x1_0000_0000 == ps;
    }
    if end - start <= I32_MAX && pos < end && pos < |data| && 0 < k {
      if fileStream.None? {
        assert positions == [];
      } else if sources != [] {
        assert PacketAt(data, start, end, ps, sources, positions, |sources| - 1);
      }
      assert pos == After(start, ps, positions);
      assert ToInt32(end - pos) == end - pos;
      assert pos + k >= end || pos + k >= |data|;
    }
  }

  /**
   * A read that returns `ps` bytes read the packet at `pos`: inside the segment and the
   * data, after the previous packets, and right after them within a short segment.
   */
  lemma FullReadInOrder(data: seq<u8>, start: int, end: int, ps: nat, sources: seq<seq<u8>>, positions: seq<nat>,
                        fileStream: Option<nat>, pos: nat, n: int, src: seq<u8>)
    requires ReadInOrder(data, start, end, ps, sources, positions, fileStream) && ps > 0
    requires pos == (if fileStream.Some? then fileStream.value else start)
    requires pos < end && n == (if ToInt32(ps) < ToInt32(end - pos) then ToInt32(ps) else ToInt32(end - pos))
    requires 0 <= n && src == AsfFiles.ReadBytes(data, pos, n) && |src| == ps
    requires pos + ps <= end
    ensures pos + ps <= |data| && src == data[pos..pos + ps]
    ensures end - start <= I32_MAX ==> pos == After(start, ps, positions)
    ensures ReadInOrder(data, start, end, ps, sources + [src], positions + [pos], Some(pos + ps))
  {
    assert src[ps - 1] == data[pos + ps - 1];
    assert src == data[pos..pos + ps];
    if fileStream.None? {
      assert positions == [];
    } else if sources != [] {
      assert PacketAt(data, start, end, ps, sources, positions, |sources| - 1);
    }
    PacketsAtAppend(data, start, end, ps, end - start <= I32_MAX, sources, positions, src, pos);
  }

  /**
   * `AsfFile.Read` of one packet's size, cast to `int`, into a buffer of that size: from
   * `pos`, the file stream's position or the start offset when the stream is closed; 0
   * bytes at or past the end offset; otherwise `got`, up to `n`, bytes of the data, the
   * buffer holding them when they fill it.
   */
  ghost predicate FileRead(data: seq<u8>, start: int, end: int, ps: nat, fileStream: Option<nat>, pos: nat, n: int,
                           got: int, buf: seq<u8>)
  {
    && pos == (if fileStream.Some? then fileStream.value else start)
    && n == (if ToInt32(ps) < ToInt32(end - pos) then ToInt32(ps) else ToInt32(end - pos))
    && 0 <= got && |buf| == ps
    && (got > 0 ==> pos + got <= end)
    && (pos >= end ==> got == 0)
    && (pos < end ==>
          && 0 <= n && got == AsfFiles.ReadCount(data, pos, n)
          && (got == ps ==> buf == AsfFiles.ReadBytes(data, pos, n)))
  }

  /**
   * The fill loop's file read of `got` bytes at `pos` into `buf`, the file stream left at
   * `pos + got`: a short read keeps the order, a full one is the next packet in order.
   */
  lemma ReadOutcome(data: seq<u8>, start: int, end: int, ps: nat, sources: seq<seq<u8>>, positions: seq<nat>,
                    fileStream: Option<nat>, pos: nat, n: int, got: int, buf: seq<u8>)
    requires ReadInOrder(data, start, end, ps, sources, positions, fileStream) && ps <= U32_MAX
    requires FileRead(data, start, end, ps, fileStream, pos, n, got, buf)
    ensures got != ps ==> ReadInOrder(data, start, end, ps, sources, positions, Some(pos + got))
    ensures got == ps > 0 ==>
      && pos + ps <= end && pos + ps <= |data| && buf == data[pos..pos + ps]
      && (end - start <= I32_MAX ==> pos == After(start, ps, positions))
      && ReadInOrder(data, start, end, ps, sources + [buf], positions + [pos], Some(pos + ps))
      && Remaining(start, end, Some(pos + ps)) < Remaining(start, end, fileStream)
  {
    if got != ps {
      ShortReadInOrder(data, start, end, ps, sources, positions, fileStream, pos, n, got);
    } else if ps > 0 {
      FullReadInOrder(data, start, end, ps, sources, positions, fileStream, pos, n, buf);
      RemainingShrinks(start, end, fileStream, pos, ps);
    }
  }

  /**
   * What a stream has produced: the streaming header as emitted (empty until it is), every
   * byte produced and how many of them compaction dropped, the packets read from the file
   * and the file offsets they were read at, their treatment and the state it passes on.
   */
  datatype Trace = Trace(header: seq<u8>, emitted: seq<u8>, dropped: nat, sources: seq<seq<u8>>,
                         positions: seq<nat>, out: seq<u8>, session: Session)

  /** A stream that has produced nothing. */
  function Fresh(): Trace
  {
    Trace([], [], 0, [], [], [], InitialSession())
  }

  /** `kept` is what is left of `all` once its first `dropped` bytes are gone. */
  predicate Kept(all: seq<u8>, dropped: nat, kept: seq<u8>)
  {
    |all| == dropped + |kept| && forall i :: 0 <= i < |kept| ==> kept[i] == all[dropped + i]
  }

  /**
   * The memory buffer (its position and contents) holds what the stream produced, less
   * the bytes compaction dropped; the stream produced the header, then the treated
   * packets. Seeking back is off once anything was dropped.
   */
  predicate Buffers(readPos: int, readBuffer: seq<u8>, allowSeekBack: bool, t: Trace)
  {
    && 0 <= readPos <= I32_MAX && |readBuffer| <= I32_MAX
    && Kept(t.emitted, t.dropped, readBuffer)
    && (t.dropped > 0 ==> !allowSeekBack)
    && t.emitted == t.header + t.out
  }

  /** The output and the carried state are the segment of the packets read so far, from a well-formed start. */
  ghost predicate Produces(ctx: SegmentContext, init: Session, sources: seq<seq<u8>>, out: seq<u8>, session: Session)
  {
    SessionOk(init) && Segment(ctx, init, sources) == Ok((out, session))
  }

  /** The header is emitted first, exactly once, and never for an unaltered stream. */
  predicate HeaderFirst(streamType: AsfStreamType, isHeaderStreamed: bool, streamingHeader: Option<seq<u8>>, t: Trace)
  {
    && (streamType == AsfUnaltered ==> !isHeaderStreamed)
    && (!isHeaderStreamed ==> t.header == [])
    && (isHeaderStreamed ==> streamingHeader == Some(t.header))
    && (t.sources != [] && streamType != AsfUnaltered ==> isHeaderStreamed)
  }

  /** The memory buffer, the output and the header agree with what the stream produced. */
  ghost predicate Consistent(ctx: SegmentContext, init: Session, streamType: AsfStreamType,
                             streamingHeader: Option<seq<u8>>, isHeaderStreamed: bool,
                             readPos: int, readBuffer: seq<u8>, allowSeekBack: bool, t: Trace)
  {
    && Buffers(readPos, readBuffer, allowSeekBack, t)
    && Produces(ctx, init, t.sources, t.out, t.session)
    && HeaderFirst(streamType, isHeaderStreamed, streamingHeader, t)
  }

  /** `t` extends `t0`: no more bytes dropped, and what `t0` produced begins what `t` produced. */
  predicate Extends(t0: Trace, t: Trace)
  {
    t.dropped == t0.dropped && t0.emitted <= t.emitted
  }

  /** Extending is transitive. */
  lemma ExtendsTrans(t0: Trace, t1: Trace, t2: Trace)
    requires Extends(t0, t1) && Extends(t1, t2)
    ensures Extends(t0, t2)
  {
  }

  /** A packet read at `pos`, treated into `bytes`, appended to what the stream produced. */
  function Appended(t: Trace, src: seq<u8>, pos: nat, bytes: seq<u8>, session: Session): Trace
  {
    t.(emitted := t.emitted + bytes, sources := t.sources + [src], positions := t.positions + [pos],
       out := t.out + bytes, session := session)
  }

  /**
   * Past the header, a packet whose treatment extends the segment keeps the stream
   * consistent once its bytes are appended to the memory buffer, and what was produced
   * before stays a prefix of what is produced now.
   */
  lemma AppendedConsistent(ctx: SegmentContext, init: Session, streamType: AsfStreamType,
                           streamingHeader: Option<seq<u8>>, isHeaderStreamed: bool, readBuffer: seq<u8>,
                           allowSeekBack: bool, t: Trace, src: seq<u8>, pos: nat, bytes: seq<u8>, session: Session)
    requires Consistent(ctx, init, streamType, streamingHeader, isHeaderStreamed, |readBuffer|, readBuffer, allowSeekBack, t)
    requires isHeaderStreamed || streamType == AsfUnaltered
    requires Produces(ctx, init, t.sources + [src], t.out + bytes, session)
    requires |readBuffer| + |bytes| <= I32_MAX
    ensures Consistent(ctx, init, streamType, streamingHeader, isHeaderStreamed, |readBuffer| + |bytes|,
                       readBuffer + bytes, allowSeekBack, Appended(t, src, pos, bytes, session))
    ensures Extends(t, Appended(t, src, pos, bytes, session))
  {
    var t' := Appended(t, src, pos, bytes, session);
    assert t.header + (t.out + bytes) == t'.emitted;
  }

  /** A read in the bytes kept after dropping the first `dropped` is the read `dropped` bytes further in all of them. */
  lemma UnreadDropped(all: seq<u8>, dropped: nat, kept: seq<u8>, pos: nat, count: int)
    requires Kept(all, dropped, kept)
    ensures Unread(kept, pos, count) == Unread(all, dropped + pos, count)
  {
    var left := |kept| - pos;
    var n := if left > count then count else left;
    if n > 0 {
      assert kept[pos..pos + n] == all[dropped + pos..dropped + pos + n];
    }
  }

  /**
   * Before anything else, a stream that is not unaltered has produced nothing; once the
   * streaming header is written to the empty memory buffer, the stream stays consistent
   * with the header as everything it produced.
   */
  lemma HeaderConsistent(ctx: SegmentContext, init: Session, streamType: AsfStreamType, header: seq<u8>,
                         readBuffer: seq<u8>, allowSeekBack: bool, t: Trace)
    requires Consistent(ctx, init, streamType, Some(header), false, |readBuffer|, readBuffer, allowSeekBack, t)
    requires streamType != AsfUnaltered && |header| <= I32_MAX
    ensures t.header == [] && t.emitted == [] && t.dropped == 0 && t.sources == [] && readBuffer == []
    ensures Consistent(ctx, init, streamType, Some(header), true, |header|, header, allowSeekBack,
                       t.(header := header, emitted := header))
  {
    assert t.sources == [] && t.out == [];
  }

  /** The bytes before the position dropped by compaction. */
  function Compacted(t: Trace, n: nat): Trace
  {
    t.(dropped := t.dropped + n)
  }

  /**
   * Compaction keeps the stream consistent: the unread bytes become the whole memory
   * buffer, the bytes before the position count as dropped, and seeking back is off.
   */
  lemma CompactedConsistent(ctx: SegmentContext, init: Session, streamType: AsfStreamType,
                            streamingHeader: Option<seq<u8>>, isHeaderStreamed: bool,
                            readPos: nat, readBuffer: seq<u8>, allowSeekBack: bool, t: Trace)
    requires Consistent(ctx, init, streamType, streamingHeader, isHeaderStreamed, readPos, readBuffer, allowSeekBack, t)
    requires readPos <= |readBuffer|
    ensures Consistent(ctx, init, streamType, streamingHeader, isHeaderStreamed, 0, readBuffer[readPos..], false,
                       Compacted(t, readPos))
    ensures Kept(t.emitted, t.dropped + readPos, readBuffer[readPos..])
  {
  }

  class AsfStream {
    const file: AsfFiles.AsfFile
    /** The file's packet configuration: the same object, not a copy. */
    const asfConfig: Configuration.AsfFileConfiguration
    const streamType: AsfStreamType
    const streamInfo: AsfStreamInfo
    /** The length the stream reports; it is set when the stream is opened. */
    const length: int
    /** The `Position` property: it is never moved by reading or seeking. */
    var position: int

    /** The memory buffer's contents and position. */
    var readBuffer: seq<u8>
    var readPos: int
    var isHeaderStreamed: bool
    var isFirstPacket: bool
    var allowSeekBack: bool

    ghost const ctx: SegmentContext
    ghost const init: Session
    /** What the stream has produced so far. */
    ghost var trace: Trace

    /** The segment is short enough that the 32-bit counts of the file reads cannot wrap. */
    ghost predicate Aligned()
      reads file`startOffset, file`endOffset
    {
      file.endOffset - file.startOffset <= I32_MAX
    }

    /** The packets were read from the segment in file order; see `ReadInOrder`. */
    ghost predicate FileOrder()
      reads this`trace, file`data, file`startOffset, file`endOffset, file`fileStream
      reads asfConfig`asfPacketSize
    {
      ReadInOrder(file.data, file.startOffset, file.endOffset, asfConfig.asfPacketSize, trace.sources, trace.positions,
                  file.fileStream)
    }

    /** The stream's objects agree: the file's configuration, a valid stream info of the stream's type, the context. */
    ghost predicate Linked()
      reads file`startOffset, file`endOffset, asfConfig, streamInfo
    {
      && asfConfig == file.asfConfig
      && file.Valid() && 0 <= file.startOffset <= file.endOffset
      && streamInfo.Valid() && streamInfo.streamType == streamType
      && ctx == ContextOf(streamType, asfConfig, streamInfo)
    }

    ghost predicate Valid()
      reads this, file, asfConfig, streamInfo, streamInfo.mediaObjectId, streamInfo.prevMediaObjectId
    {
      && Linked()
      && Consistent(ctx, init, streamType, file.streamingHeader, isHeaderStreamed, readPos, readBuffer, allowSeekBack, trace)
      && (isFirstPacket <==> trace.sources == []) && Holds(streamInfo, trace.session)
      && FileOrder()
    }

    /**
     * The stream as `Init` leaves it: a fresh stream info holding the segment's time
     * offsets, the reported length, nothing read, nothing buffered.
     */
    constructor Opened(file: AsfFiles.AsfFile, streamType: AsfStreamType, startTimeOffset: u32, endTimeOffset: u32)
      requires file.Valid() && 0 <= file.startOffset <= file.endOffset && file.fileStream.None?
      ensures Valid() && fresh(streamInfo)
      ensures this.file == file && asfConfig == file.asfConfig && this.streamType == streamType
      ensures streamInfo.startTimeOffset == startTimeOffset && streamInfo.endTimeOffset == endTimeOffset
      ensures length == StreamLength(streamType, file.length, file.asfConfig.asfHeaderSize) && position == 0
      ensures readBuffer == [] && readPos == 0 && !isHeaderStreamed && isFirstPacket && allowSeekBack
      ensures trace == Fresh() && init == InitialSession()
      ensures ctx == ContextOf(streamType, file.asfConfig, streamInfo)
    {
      var info := new AsfStreamInfo(streamType);
      info.startTimeOffset := startTimeOffset;
      info.endTimeOffset := endTimeOffset;
      assert info.mediaObjectId[..] == Zeros(COUNTER_COUNT) && info.prevMediaObjectId[..] == Zeros(COUNTER_COUNT);
      this.file := file;
      asfConfig := file.asfConfig;
      this.streamType := streamType;
      streamInfo := info;
      length := StreamLength(streamType, file.length, file.asfConfig.asfHeaderSize);
      position := 0;
      readBuffer := [];
      readPos := 0;
      isHeaderStreamed := false;
      isFirstPacket := true;
      allowSeekBack := true;
      ctx := ContextOf(streamType, file.asfConfig, info);
      init := InitialSession();
      trace := Fresh();
    }

    /**
     * The constructor with its `Init`: the argument checks, the image check, the file's
     * offset range for the requested times (in milliseconds), the segment's time offsets
     * stored in a fresh stream info, and the reported length.
     */
    static method Open(file: AsfFiles.AsfFile, streamType: AsfStreamType, startMs: i32, endMs: i32)
      returns (r: Result<AsfStream, StreamError>, ghost range: (FilePosition, FilePosition))
      requires file.Valid()
      modifies file`startOffset, file`endOffset, file`length, file`fileStream
      ensures CheckRange(streamType, startMs, endMs).Err? ==> r == Err(ArgumentOutOfRange) && unchanged(file)
      ensures CheckRange(streamType, startMs, endMs).Ok? && streamType == AsfImage && file.asfConfig.imageWidth == 0
              ==> r == Err(NoImage) && unchanged(file)
      ensures r.Ok? ==>
        var s := r.value;
        && fresh(s) && fresh(s.streamInfo) && s.Valid()
        && s.file == file && s.streamType == streamType && s.asfConfig == file.asfConfig
        && CheckRange(streamType, startMs, endMs).Ok?
        && (streamType == AsfImage ==> file.asfConfig.imageWidth != 0)
        && s.length == StreamLength(streamType, file.length, file.asfConfig.asfHeaderSize)
        && s.readBuffer == [] && s.readPos == 0 && s.allowSeekBack && s.trace == Fresh()
        && s.streamInfo.startTimeOffset == s.ctx.startTimeOffset && s.streamInfo.endTimeOffset == s.ctx.endTimeOffset
        && s.init == InitialSession()
      ensures r.Ok? ==>
        var (startPos, endPos) := range;
        && old(file.RangeFound(startPos, endPos, startMs, CheckRange(streamType, startMs, endMs).value, streamType))
        && file.startOffset == startPos.fileOffset && file.endOffset == endPos.fileOffset
        && file.length as int == file.endOffset - file.startOffset
        && r.value.streamInfo.startTimeOffset == startPos.timeOffset
        && r.value.streamInfo.endTimeOffset == endPos.timeOffset
    {
      var none := FilePosition(file.fileName, Video, 0, 0, 0);
      range := (none, none);
      var end := CheckRange(streamType, startMs, endMs);
      if end.Err? {
        r := Err(ArgumentOutOfRange);
        return;
      }
      if streamType == AsfImage && file.asfConfig.imageWidth == 0 {
        r := Err(NoImage);
        return;
      }
      var found := file.SetOffsetRange(startMs, end.value, streamType);
      if found.Err? {
        r := Err(FileFailure(found.error));
        return;
      }
      if found.value.None? {
        r := Err(RangeNotFound);
        return;
      }
      var (startPos, endPos) := found.value.value;
      range := (startPos, endPos);
      var s := new AsfStream.Opened(file, streamType, startPos.timeOffset, endPos.timeOffset);
      r := Ok(s);
    }

    /**
     * `MemoryStream.Read` on the memory buffer: the argument checks first, then the bytes
     * `Unread` gives, copied into `buffer` at `offset`, the position moved past them.
     */
    method ReadBuffered(buffer: array<u8>, offset: i32, count: i32) returns (r: Result<int, StreamError>)
      requires 0 <= readPos <= I32_MAX && |readBuffer| <= I32_MAX
      modifies this`readPos, buffer
      ensures offset < 0 || count < 0 || buffer.Length - offset < count ==>
                r == Err(InvalidArguments) && readPos == old(readPos) && unchanged(buffer)
      ensures !(offset < 0 || count < 0 || buffer.Length - offset < count) ==>
                var bytes := Unread(readBuffer, old(readPos), count);
                && r == Ok(|bytes|) && readPos == old(readPos) + |bytes| && readPos <= I32_MAX
                && forall i :: 0 <= i < buffer.Length ==> buffer[i] == DeliveredAt(old(buffer[i]), i, offset as int, bytes)
    {
      if offset < 0 || count < 0 || buffer.Length - offset < count {
        return Err(InvalidArguments);
      }
      var bytes := Unread(readBuffer, readPos, count);
      forall i | offset <= i < offset + |bytes| {
        buffer[i] := bytes[i - offset];
      }
      readPos := readPos + |bytes|;
      return Ok(|bytes|);
    }

    /**
     * `Seek`: only an image or audio stream, from the beginning, while seeking back is
     * still allowed; the memory buffer then rejects offsets past `int.MaxValue` and
     * negative ones. As nothing was dropped yet, the new position is `offset` bytes into
     * everything the stream has produced.
     */
    method Seek(offset: int, origin: SeekOrigin) returns (r: Result<int, StreamError>)
      requires Valid() && IsInt64(offset)
      modifies this`readPos
      ensures Valid()
      ensures !((streamType == AsfImage || streamType == AsfAudio) && origin == Begin && allowSeekBack) ==>
                r == Err(NotImplemented) && readPos == old(readPos)
      ensures (streamType == AsfImage || streamType == AsfAudio) && origin == Begin && allowSeekBack ==>
                if offset > I32_MAX then r == Err(ArgumentOutOfRange) && readPos == old(readPos)
                else if offset < 0 then r == Err(NegativeSeek) && readPos == old(readPos)
                else r == Ok(offset) && trace.dropped + readPos == offset
    {
      if !((streamType == AsfImage || streamType == AsfAudio) && origin == Begin && allowSeekBack) {
        return Err(NotImplemented);
      }
      if offset > I32_MAX {
        return Err(ArgumentOutOfRange);
      }
      if offset < 0 {
        return Err(NegativeSeek);
      }
      readPos := offset;
      return Ok(offset);
    }

    /**
     * The first packet's extra treatment: fresh zero counters, the segment's first send
     * time taken from the packet, and `SetStart`.
     */
    method StartSegment(p: AsfPackets.AsfPacket, ghost src: seq<u8>, ghost d: PacketCodec.DecodedPacket)
      requires streamInfo.Valid() && streamInfo.streamType == streamType
      requires ctx == ContextOf(streamType, asfConfig, streamInfo)
      requires SessionOf(streamInfo) == trace.session && SessionOk(trace.session)
      requires p.Valid() && p.Contents() == Renormalisation.Packet(src, d.payload) && p.sendTime == d.header.sendTime
      modifies streamInfo, p`payload, p.packet
      ensures streamInfo.Valid() && fresh(streamInfo.mediaObjectId) && fresh(streamInfo.prevMediaObjectId)
      ensures streamInfo.streamType == old(streamInfo.streamType)
      ensures ctx == ContextOf(streamType, asfConfig, streamInfo)
      ensures SessionOf(streamInfo) == Entry(true, trace.session, d.header.sendTime)
      ensures p.Valid() && p.Contents() == Started(ctx, true, src, d) && p.sendTime == old(p.sendTime)
    {
      streamInfo.ResetMediaObjects();
      streamInfo.startSendTime := p.sendTime;
      assert streamInfo.mediaObjectId[..] == Zeros(COUNTER_COUNT);
      assert streamInfo.prevMediaObjectId[..] == Zeros(COUNTER_COUNT);
      var _ := p.SetStart(asfConfig, streamInfo);
    }

    /**
     * The treatment `Read` gives a parsed packet: `StartSegment` for the first one, then
     * `SetFollowup` for every one. The packet's bytes become the ones `Treated` gives
     * and the stream info's state the one it passes on.
     */
    method Treat(p: AsfPackets.AsfPacket, ghost src: seq<u8>, ghost d: PacketCodec.DecodedPacket)
      requires streamInfo.Valid() && streamInfo.streamType == streamType
      requires ctx == ContextOf(streamType, asfConfig, streamInfo)
      requires SessionOf(streamInfo) == trace.session && SessionOk(trace.session)
      requires Renormalisation.Fits(Renormalisation.Packet(src, d.payload)) && d.header.sendTimeOffset + 4 <= |src|
      requires p.Valid() && p.packet[..] == src && p.asfConfig == asfConfig
      requires p.payload == d.payload && p.sendTime == d.header.sendTime && p.sendTimeOffset == d.header.sendTimeOffset
      requires p.packet != streamInfo.mediaObjectId && p.packet != streamInfo.prevMediaObjectId
      modifies streamInfo, streamInfo.mediaObjectId, streamInfo.prevMediaObjectId
      modifies p`sendTime, p`payload, p.packet
      ensures streamInfo.Valid()
      ensures ctx == ContextOf(streamType, asfConfig, streamInfo)
      ensures streamInfo.streamType == old(streamInfo.streamType)
      ensures streamInfo.mediaObjectId == old(streamInfo.mediaObjectId) || fresh(streamInfo.mediaObjectId)
      ensures streamInfo.prevMediaObjectId == old(streamInfo.prevMediaObjectId) || fresh(streamInfo.prevMediaObjectId)
      ensures (p.packet[..], SessionOf(streamInfo)) == Treated(ctx, isFirstPacket, trace.session, src, d)
    {
      ghost var first := isFirstPacket;
      if isFirstPacket {
        StartSegment(p, src, d);
      }
      ghost var s1 := Entry(first, trace.session, d.header.sendTime);
      ghost var pk := Started(ctx, first, src, d);
      ghost var env := EnvFor(ctx, s1, d.header.sendTimeOffset);
      assert p.FollowupEnvOf(asfConfig, streamInfo) == env;
      assert p.CarriedState(streamInfo) == Carried(s1, d.header.sendTime);
      p.SetFollowup(asfConfig, streamInfo);
      TreatedSteps(ctx, first, trace.session, src, d, s1, pk, p.packet[..], p.CarriedState(streamInfo));
    }

    /** `AsfFile.Read` of one packet's size into the packet buffer; see `FileRead`. */
    method ReadFile(packetBuffer: array<u8>) returns (got: Result<int, AsfFiles.FileError>, ghost pos: nat, ghost n: int)
      requires 0 <= file.startOffset && packetBuffer.Length == asfConfig.asfPacketSize
      modifies file`fileStream, packetBuffer
      ensures pos == if old(file.fileStream).Some? then old(file.fileStream).value else file.startOffset
      ensures got.Ok? ==>
        && file.fileStream == Some(pos + got.value)
        && FileRead(file.data, file.startOffset, file.endOffset, asfConfig.asfPacketSize, old(file.fileStream), pos, n,
                    got.value, packetBuffer[..])
    {
      pos := if file.fileStream.Some? then file.fileStream.value else file.startOffset;
      var ps := asfConfig.asfPacketSize;
      n := if ToInt32(ps) < ToInt32(file.endOffset - pos) then ToInt32(ps) else ToInt32(file.endOffset - pos);
      got := file.Read(packetBuffer, 0, ToInt32(ps));
    }

    /**
     * The file read of the fill loop. `true` when it returned a whole packet's bytes; the
     * packet then lies at `pos`, in file order after the packets read before.
     */
    method ReadPacket(packetBuffer: array<u8>) returns (r: Result<bool, StreamError>, ghost pos: nat)
      requires file.Valid() && 0 <= file.startOffset && asfConfig == file.asfConfig
      requires packetBuffer.Length == asfConfig.asfPacketSize
      requires FileOrder()
      modifies file`fileStream, packetBuffer
      ensures r == Ok(false) ==> FileOrder()
      ensures r == Ok(true) && asfConfig.asfPacketSize > 0 ==>
        var ps := asfConfig.asfPacketSize;
        && Remaining(file.startOffset, file.endOffset, file.fileStream)
           < Remaining(file.startOffset, file.endOffset, old(file.fileStream))
        && pos + ps <= file.endOffset && pos + ps <= |file.data| && packetBuffer[..] == file.data[pos..pos + ps]
        && (Aligned() ==> pos == After(file.startOffset, ps, trace.positions))
        && ReadInOrder(file.data, file.startOffset, file.endOffset, ps, trace.sources + [packetBuffer[..]],
                       trace.positions + [pos], file.fileStream)
    {
      var ps := asfConfig.asfPacketSize;
      ghost var fs := file.fileStream;
      var got, at, n := ReadFile(packetBuffer);
      pos := at;
      if got.Err? {
        r := Err(FileFailure(got.error));
        return;
      }
      ReadOutcome(file.data, file.startOffset, file.endOffset, ps, trace.sources, trace.positions, fs, pos, n, got.value,
                  packetBuffer[..]);
      r := Ok(got.value == ps);
    }

    /**
     * A full packet in the packet buffer parsed and treated in place: the buffer then
     * holds what the stream's treatment makes of the packet, and the stream info the
     * state it passes on, so the segment read so far extends by the packet. A packet
     * that does not parse is an error.
     */
    method Process(packetBuffer: array<u8>) returns (r: Result<(), StreamError>)
      requires streamInfo.Valid() && streamInfo.streamType == streamType
      requires ctx == ContextOf(streamType, asfConfig, streamInfo)
      requires SessionOf(streamInfo) == trace.session && (isFirstPacket <==> trace.sources == [])
      requires Produces(ctx, init, trace.sources, trace.out, trace.session)
      requires packetBuffer.Length == asfConfig.asfPacketSize
      requires packetBuffer != streamInfo.mediaObjectId && packetBuffer != streamInfo.prevMediaObjectId
      modifies streamInfo, streamInfo.mediaObjectId, streamInfo.prevMediaObjectId, packetBuffer
      ensures streamInfo.Valid() && streamInfo.streamType == old(streamInfo.streamType)
      ensures ctx == ContextOf(streamType, asfConfig, streamInfo)
      ensures streamInfo.mediaObjectId == old(streamInfo.mediaObjectId) || fresh(streamInfo.mediaObjectId)
      ensures streamInfo.prevMediaObjectId == old(streamInfo.prevMediaObjectId) || fresh(streamInfo.prevMediaObjectId)
      ensures r.Err? ==> PacketCodec.Decode(ctx.packetSize, old(packetBuffer[..]), 0).Err?
      ensures r.Ok? ==>
        && packetBuffer.Length > 0
        && Produces(ctx, init, trace.sources + [old(packetBuffer[..])], trace.out + packetBuffer[..], SessionOf(streamInfo))
    {
      ghost var src := packetBuffer[..];
      var created := AsfPackets.AsfPacket.Create(asfConfig, packetBuffer, 0, 0);
      if created.Err? {
        return Err(PacketFailure(created.error));
      }
      var p := created.value;
      ghost var d := PacketCodec.Decode(ctx.packetSize, src, 0).value;
      Treat(p, src, d);
      SegmentExtends(ctx, init, trace.sources, trace.out, trace.session, src, d);
      return Ok(());
    }

    /**
     * A full packet read at `pos` and now in the packet buffer, parsed, treated and
     * appended to the memory buffer; the ghost state records it.
     */
    method Absorb(packetBuffer: array<u8>, ghost pos: nat) returns (r: Result<(), StreamError>)
      requires Linked() && readPos == |readBuffer|
      requires Consistent(ctx, init, streamType, file.streamingHeader, isHeaderStreamed, readPos, readBuffer, allowSeekBack, trace)
      requires (isFirstPacket <==> trace.sources == []) && SessionOf(streamInfo) == trace.session
      requires isHeaderStreamed || streamType == AsfUnaltered
      requires packetBuffer.Length == asfConfig.asfPacketSize
      requires packetBuffer != streamInfo.mediaObjectId && packetBuffer != streamInfo.prevMediaObjectId
      requires asfConfig.asfPacketSize > 0 ==>
        ReadInOrder(file.data, file.startOffset, file.endOffset, asfConfig.asfPacketSize, trace.sources + [packetBuffer[..]],
                    trace.positions + [pos], file.fileStream)
      modifies this`readBuffer, this`readPos, this`isFirstPacket, this`trace, packetBuffer
      modifies streamInfo, streamInfo.mediaObjectId, streamInfo.prevMediaObjectId
      ensures r.Ok? ==> Valid() && readPos == |readBuffer|
      ensures streamInfo.mediaObjectId == old(streamInfo.mediaObjectId) || fresh(streamInfo.mediaObjectId)
      ensures streamInfo.prevMediaObjectId == old(streamInfo.prevMediaObjectId) || fresh(streamInfo.prevMediaObjectId)
      ensures r.Ok? ==>
        && packetBuffer.Length > 0 && Extends(old(trace), trace) && |old(trace.emitted)| < |trace.emitted|
    {
      ghost var src := packetBuffer[..];
      var processed := Process(packetBuffer);
      if processed.Err? {
        return Err(processed.error);
      }
      r := Record(src, pos, packetBuffer[..]);
    }

    /**
     * The treated packet's bytes written at the end of the memory buffer, the stream no
     * longer at its first packet; the ghost state records the packet, read at `pos`.
     */
    method Record(ghost src: seq<u8>, ghost pos: nat, bytes: seq<u8>) returns (r: Result<(), StreamError>)
      requires Linked() && readPos == |readBuffer|
      requires Consistent(ctx, init, streamType, file.streamingHeader, isHeaderStreamed, readPos, readBuffer, allowSeekBack, trace)
      requires SessionOk(SessionOf(streamInfo))
      requires isHeaderStreamed || streamType == AsfUnaltered
      requires Produces(ctx, init, trace.sources + [src], trace.out + bytes, SessionOf(streamInfo))
      requires asfConfig.asfPacketSize > 0
      requires ReadInOrder(file.data, file.startOffset, file.endOffset, asfConfig.asfPacketSize, trace.sources + [src],
                    trace.positions + [pos], file.fileStream)
      modifies this`readBuffer, this`readPos, this`isFirstPacket, this`trace
      ensures r.Ok? ==> Valid() && readPos == |readBuffer|
      ensures r.Ok? ==>
        && trace == Appended(old(trace), src, pos, bytes, SessionOf(streamInfo)) && Extends(old(trace), trace)
    {
      isFirstPacket := false;
      // `MemoryStream.Write` at the end of the memory buffer fails past `int.MaxValue` bytes
      if |readBuffer| + |bytes| > I32_MAX {
        return Err(StreamTooLong);
      }
      AppendedConsistent(ctx, init, streamType, file.streamingHeader, isHeaderStreamed, readBuffer, allowSeekBack, trace,
                         src, pos, bytes, SessionOf(streamInfo));
      readBuffer, readPos := readBuffer + bytes, |readBuffer| + |bytes|;
      trace := Appended(trace, src, pos, bytes, SessionOf(streamInfo));
      return Ok(());
    }

    /**
     * One pass of `Read`'s fill loop past the header: a packet read from the file. A short
     * read reports `false` and appends nothing; a full one is parsed, treated and appended
     * to the memory buffer. Within a short segment the packet is the one right after the
     * previous packets.
     */
    method NextPacket(packetBuffer: array<u8>) returns (r: Result<bool, StreamError>)
      requires Valid() && readPos == |readBuffer|
      requires isHeaderStreamed || streamType == AsfUnaltered
      requires packetBuffer.Length == asfConfig.asfPacketSize
      requires packetBuffer != streamInfo.mediaObjectId && packetBuffer != streamInfo.prevMediaObjectId
      modifies this`readBuffer, this`readPos, this`isFirstPacket, this`trace, file`fileStream, packetBuffer
      modifies streamInfo, streamInfo.mediaObjectId, streamInfo.prevMediaObjectId
      ensures r.Ok? ==> Valid() && readPos == |readBuffer|
      ensures streamInfo.mediaObjectId == old(streamInfo.mediaObjectId) || fresh(streamInfo.mediaObjectId)
      ensures streamInfo.prevMediaObjectId == old(streamInfo.prevMediaObjectId) || fresh(streamInfo.prevMediaObjectId)
      ensures r == Ok(false) ==> trace == old(trace)
      ensures r == Ok(true) ==>
        && Extends(old(trace), trace) && |old(trace.emitted)| < |trace.emitted|
        && Remaining(file.startOffset, file.endOffset, file.fileStream)
           < Remaining(file.startOffset, file.endOffset, old(file.fileStream))
    {
      var got, pos := ReadPacket(packetBuffer);
      if got.Err? {
        return Err(got.error);
      }
      if !got.value {
        return Ok(false);
      }
      var absorbed := Absorb(packetBuffer, pos);
      if absorbed.Err? {
        return Err(absorbed.error);
      }
      return Ok(true);
    }

    /**
     * The fill loop's pass for the header: the file's streaming header written to the
     * memory buffer, which is still empty, and marked as streamed. A file without one
     * makes the write throw.
     */
    method EmitHeader() returns (r: Result<(), StreamError>)
      requires Valid() && readPos == |readBuffer|
      requires !isHeaderStreamed && streamType != AsfUnaltered
      modifies this`readBuffer, this`readPos, this`isHeaderStreamed, this`trace
      ensures file.streamingHeader.None? ==> r == Err(NoStreamingHeader)
      ensures file.streamingHeader.Some? && |file.streamingHeader.value| > I32_MAX ==> r == Err(StreamTooLong)
      ensures r.Err? ==> readBuffer == old(readBuffer) && !isHeaderStreamed && trace == old(trace)
      ensures r.Ok? ==> Valid() && readPos == |readBuffer| && isHeaderStreamed
      ensures r.Ok? ==>
        && old(trace.emitted) == [] && old(trace.sources) == []
        && readBuffer == file.streamingHeader.value
        && trace == old(trace).(header := readBuffer, emitted := readBuffer)
    {
      var headerData := file.GetStreamingHeader();
      if headerData.None? {
        return Err(NoStreamingHeader);
      }
      var header := headerData.value[..];
      if |header| > I32_MAX {
        return Err(StreamTooLong);
      }
      HeaderConsistent(ctx, init, streamType, header, readBuffer, allowSeekBack, trace);
      readBuffer, readPos := header, |header|;
      isHeaderStreamed := true;
      trace := trace.(header := header, emitted := header);
      return Ok(());
    }

    /**
     * One pass of `Read`'s fill loop: the header when it is still due, a packet from the
     * file otherwise. `false` when the file read came back short; each pass that goes on
     * has streamed the header or brought the file stream closer to the end offset.
     */
    method FillStep(packetBuffer: array<u8>) returns (r: Result<bool, StreamError>)
      requires Valid() && readPos == |readBuffer|
      requires packetBuffer.Length == asfConfig.asfPacketSize
      requires packetBuffer != streamInfo.mediaObjectId && packetBuffer != streamInfo.prevMediaObjectId
      modifies this`readBuffer, this`readPos, this`isHeaderStreamed, this`isFirstPacket, this`trace, file`fileStream
      modifies packetBuffer, streamInfo, streamInfo.mediaObjectId, streamInfo.prevMediaObjectId
      ensures streamInfo.mediaObjectId == old(streamInfo.mediaObjectId) || fresh(streamInfo.mediaObjectId)
      ensures streamInfo.prevMediaObjectId == old(streamInfo.prevMediaObjectId) || fresh(streamInfo.prevMediaObjectId)
      ensures r.Ok? ==> Valid() && readPos == |readBuffer|
      ensures r.Ok? ==> Extends(old(trace), trace)
      ensures r == Ok(false) ==> isHeaderStreamed || streamType == AsfUnaltered
      ensures r == Ok(true) ==>
        if old(!isHeaderStreamed && streamType != AsfUnaltered) then isHeaderStreamed
        else isHeaderStreamed == old(isHeaderStreamed)
             && Remaining(file.startOffset, file.endOffset, file.fileStream)
                < Remaining(file.startOffset, file.endOffset, old(file.fileStream))
    {
      if !isHeaderStreamed && streamType != AsfUnaltered {
        var emitted := EmitHeader();
        if emitted.Err? {
          return Err(emitted.error);
        }
        return Ok(true);
      }
      r := NextPacket(packetBuffer);
      if r.Ok? && !r.value {
        assert r == Ok(false);
      } else if r.Ok? {
        assert r == Ok(true);
      }
    }

    /**
     * `Read`'s fill loop, from the memory buffer's end: the header first, unless the stream
     * is unaltered, then packet after packet appended to the memory buffer until it holds
     * `count` bytes from `base` or a file read comes back short. Nothing produced before is
     * lost. Each call makes one pass of the loop and calls itself for the next; the header
     * pass comes first, then the file shrinks what is left to read.
     */
    method Fill(packetBuffer: array<u8>, base: int, count: int) returns (r: Result<(), StreamError>)
      requires Valid() && readPos == |readBuffer|
      requires packetBuffer.Length == asfConfig.asfPacketSize
      requires packetBuffer != streamInfo.mediaObjectId && packetBuffer != streamInfo.prevMediaObjectId
      modifies this`readBuffer, this`readPos, this`isHeaderStreamed, this`isFirstPacket, this`trace, file`fileStream
      modifies packetBuffer, streamInfo, streamInfo.mediaObjectId, streamInfo.prevMediaObjectId
      ensures streamInfo.mediaObjectId == old(streamInfo.mediaObjectId) || fresh(streamInfo.mediaObjectId)
      ensures streamInfo.prevMediaObjectId == old(streamInfo.prevMediaObjectId) || fresh(streamInfo.prevMediaObjectId)
      ensures r.Ok? ==> Valid() && readPos == |readBuffer|
      ensures r.Ok? ==> Extends(old(trace), trace)
      ensures r.Ok? && |readBuffer| - base < count ==> isHeaderStreamed || streamType == AsfUnaltered
      decreases if isHeaderStreamed || streamType == AsfUnaltered then 0 else 1,
                Remaining(file.startOffset, file.endOffset, file.fileStream)
    {
      if |readBuffer| - base >= count {
        return Ok(());
      }
      var more := FillStep(packetBuffer);
      if more.Err? {
        return Err(more.error);
      }
      if !more.value {
        return Ok(());
      }
      ghost var mid := trace;
      r := Fill(packetBuffer, base, count);
      if r.Ok? {
        ExtendsTrans(old(trace), mid, trace);
      }
    }

    /**
     * The compaction at the end of `Read`: the bytes from the position on become the whole
     * memory buffer, read from its start, and seeking back is off for good. The dropped
     * bytes are counted; a position past the end makes the copy's length negative, which
     * overflows.
     */
    method Compact() returns (r: Result<(), StreamError>)
      requires Valid()
      modifies this`readBuffer, this`readPos, this`allowSeekBack, this`trace
      ensures r.Ok? <==> old(readPos) <= old(|readBuffer|)
      ensures r.Err? ==>
        && r.error == Overflow && readBuffer == old(readBuffer) && readPos == old(readPos) && trace == old(trace)
        && allowSeekBack == old(allowSeekBack)
      ensures r.Ok? ==>
        && Valid() && readPos == 0 && !allowSeekBack
        && readBuffer == old(readBuffer[readPos..])
        && trace == Compacted(old(trace), old(readPos))
    {
      if readPos > |readBuffer| {
        return Err(Overflow);
      }
      CompactedConsistent(ctx, init, streamType, file.streamingHeader, isHeaderStreamed, readPos, readBuffer,
                          allowSeekBack, trace);
      ghost var t0 := trace;
      trace := Compacted(trace, readPos);
      readBuffer, readPos := readBuffer[readPos..], 0;
      allowSeekBack := false;
      assert trace.sources == t0.sources && trace.positions == t0.positions && trace.session == t0.session;
      assert Linked() && FileOrder() && Holds(streamInfo, trace.session);
      return Ok(());
    }

    /** `Seek(0, SeekOrigin.End)` on the memory buffer. */
    method SeekEnd()
      requires Valid()
      modifies this`readPos
      ensures Valid() && readPos == |readBuffer|
    {
      readPos := |readBuffer|;
    }

    /**
     * The memory-buffer read of `Read`, from `pos`: what `ReadBuffered` delivers is the
     * stretch of everything the stream produced that starts there, past the dropped bytes.
     */
    method Deliver(buffer: array<u8>, offset: i32, count: i32, pos: int, ghost start: nat) returns (r: Result<int, StreamError>)
      requires Valid() && 0 <= pos <= I32_MAX && start == trace.dropped + pos
      requires buffer != streamInfo.mediaObjectId && buffer != streamInfo.prevMediaObjectId
      modifies this`readPos, buffer
      ensures Valid() && trace == old(trace)
      ensures offset < 0 || count < 0 || buffer.Length - offset < count ==>
                r == Err(InvalidArguments) && readPos == pos && unchanged(buffer)
      ensures !(offset < 0 || count < 0 || buffer.Length - offset < count) ==>
                var bytes := Unread(trace.emitted, start, count);
                && r == Ok(|bytes|) && readPos == pos + |bytes|
                && (|bytes| < count ==> |readBuffer| - pos < count)
                && forall i :: 0 <= i < buffer.Length ==> buffer[i] == DeliveredAt(old(buffer[i]), i, offset as int, bytes)
    {
      readPos := pos;
      UnreadDropped(trace.emitted, trace.dropped, readBuffer, pos, count as int);
      r := ReadBuffered(buffer, offset, count);
    }

    /** The fill loop with a fresh packet buffer of one packet's size. */
    method Refill(count: int) returns (r: Result<(), StreamError>)
      requires Valid()
      modifies this`readBuffer, this`readPos, this`isHeaderStreamed, this`isFirstPacket, this`trace, file`fileStream
      modifies streamInfo, streamInfo.mediaObjectId, streamInfo.prevMediaObjectId
      ensures streamInfo.mediaObjectId == old(streamInfo.mediaObjectId) || fresh(streamInfo.mediaObjectId)
      ensures streamInfo.prevMediaObjectId == old(streamInfo.prevMediaObjectId) || fresh(streamInfo.prevMediaObjectId)
      ensures r.Ok? ==> Valid()
      ensures r.Ok? ==> Extends(old(trace), trace)
      ensures r.Ok? && |readBuffer| - old(readPos) < count ==> isHeaderStreamed || streamType == AsfUnaltered
    {
      var packetBuffer := new u8[asfConfig.asfPacketSize];
      var base := readPos;
      SeekEnd();
      r := Fill(packetBuffer, base, count);
    }

    /**
     * `Read` when the memory buffer does not hold `count` bytes from the position: the
     * fill loop from the buffer's end, then the memory-buffer read from the saved position.
     */
    method ReadThrough(buffer: array<u8>, offset: i32, count: i32) returns (r: Result<int, StreamError>)
      requires Valid()
      requires buffer != streamInfo.mediaObjectId && buffer != streamInfo.prevMediaObjectId
      modifies this`readBuffer, this`readPos, this`isHeaderStreamed, this`isFirstPacket, this`trace
      modifies file`fileStream, buffer, streamInfo, streamInfo.mediaObjectId, streamInfo.prevMediaObjectId
      ensures offset < 0 || count < 0 || buffer.Length - offset < count ==> r.Err?
      ensures r.Ok? ==> Valid()
      ensures r.Ok? ==>
        var start := old(trace.dropped + readPos);
        var bytes := Unread(trace.emitted, start, count as int);
        && r == Ok(|bytes|) && Extends(old(trace), trace) && readPos == old(readPos) + |bytes|
        && (forall i :: 0 <= i < buffer.Length ==> buffer[i] == DeliveredAt(old(buffer[i]), i, offset as int, bytes))
        && (|bytes| < count ==> isHeaderStreamed || streamType == AsfUnaltered)
    {
      var base := readPos;
      ghost var start := trace.dropped + readPos;
      var filled := Refill(count as int);
      if filled.Err? {
        return Err(filled.error);
      }
      r := Deliver(buffer, offset, count, base, start);
    }

    /**
     * `Read`: `count` bytes into `buffer` at `offset`, from the memory buffer alone when it
     * holds them; otherwise the fill loop runs first, then the read from the old position,
     * then the memory buffer is compacted when it holds more than 500000 bytes. What is
     * delivered is the next stretch of everything the stream produces (the header, then
     * the renormalised packets in file order); a short read delivers all of it there is.
     * The arguments are checked only by the memory-buffer read, after the fill.
     */
    method Read(buffer: array<u8>, offset: i32, count: i32) returns (r: Result<int, StreamError>)
      requires Valid()
      requires buffer != streamInfo.mediaObjectId && buffer != streamInfo.prevMediaObjectId
      modifies this`readBuffer, this`readPos, this`isHeaderStreamed, this`isFirstPacket, this`allowSeekBack, this`trace
      modifies file`fileStream, buffer, streamInfo, streamInfo.mediaObjectId, streamInfo.prevMediaObjectId
      ensures offset < 0 || count < 0 || buffer.Length - offset < count ==> r.Err?
      ensures (offset < 0 || count < 0 || buffer.Length - offset < count) && old(|readBuffer| - readPos) >= count ==>
                r == Err(InvalidArguments) && readPos == old(readPos) && trace == old(trace) && unchanged(buffer)
      ensures allowSeekBack ==> old(allowSeekBack)
      ensures r.Ok? ==> Valid()
      ensures r.Ok? ==>
        var start := old(trace.dropped + readPos);
        var bytes := Unread(trace.emitted, start, count as int);
        && r == Ok(|bytes|) && trace.dropped + readPos == start + |bytes| && old(trace.emitted) <= trace.emitted
        && (forall i :: 0 <= i < buffer.Length ==> buffer[i] == DeliveredAt(old(buffer[i]), i, offset as int, bytes))
        && (|bytes| < count ==> isHeaderStreamed || streamType == AsfUnaltered)
      ensures r.Ok? && old(|readBuffer| - readPos) >= count ==> trace == old(trace) && allowSeekBack == old(allowSeekBack)
      ensures r.Ok? && old(|readBuffer| - readPos) < count ==>
        if |trace.emitted| - old(trace.dropped) > MAX_INTERNAL_BUFFER_LENGTH then
          readPos == 0 && !allowSeekBack && Kept(trace.emitted, trace.dropped, readBuffer)
          && trace.dropped == old(trace.dropped + readPos) + r.value
        else
          trace.dropped == old(trace.dropped) && allowSeekBack == old(allowSeekBack)
    {
      if |readBuffer| - readPos >= count as int {
        r := Deliver(buffer, offset, count, readPos, trace.dropped + readPos);
        return;
      }
      r := ReadThrough(buffer, offset, count);
      if r.Err? {
        return;
      }
      if |readBuffer| > MAX_INTERNAL_BUFFER_LENGTH {
        var compacted := Compact();
        if compacted.Err? {
          return Err(compacted.error);
        }
      }
    }
  }
}

/**
 * `AsfIStream`: the COM `IStream` face of an `AsfStream`, the form in which the Windows
 * Media reader takes a stream as its source. A read fills the caller's buffer from its
 * start through the wrapped stream. A seek computes its target from the origin, clamps it
 * to the stream's last byte, and moves the wrapped stream only when the target lies
 * within the largest header; otherwise the seek does nothing and reports no new position.
 */
module AsfIStreams {
  import opened Bytes
  import opened Wrappers
  import opened FilePositions
  import Configuration
  import AsfFiles
  import AsfStreams
  import StreamInfos

  /** The values of `dwOrigin` that `SeekOrigin` names; every other value names no origin. */
  const SEEK_BEGIN: int := 0
  const SEEK_CURRENT: int := 1
  const SEEK_END: int := 2

  /**
   * The offset a seek asks for before clamping: `move` from the beginning, `move` past the
   * position (a `long` sum, which wraps), the last byte for the end, and the position
   * itself for an origin that names none of these.
   */
  function Requested(position: int, length: int, move: int, origin: int): (r: int)
    requires IsInt64(position) && IsInt64(move) && 0 <= length <= I64_MAX
    ensures IsInt64(r)
    ensures origin == SEEK_BEGIN ==> r == move
    ensures origin == SEEK_CURRENT ==> (r - (position + move)) % 0x1_0000_0000_0000_0000 == 0
    ensures origin == SEEK_CURRENT && IsInt64(position + move) ==> r == position + move
    ensures origin == SEEK_END ==> r == length - 1
    ensures origin !in {SEEK_BEGIN, SEEK_CURRENT, SEEK_END} ==> r == position
  {
    if origin == SEEK_BEGIN then move
    else if origin == SEEK_CURRENT then AsfFiles.ToInt64(position + move)
    else if origin == SEEK_END then length - 1
    else position
  }

  /**
   * The target of a seek: the requested offset, or the last byte when the request is at
   * or past the end. The target never passes the last byte, and a request before the
   * end is kept as it is.
   */
  function SeekTarget(position: int, length: int, move: int, origin: int): (target: int)
    requires IsInt64(position) && IsInt64(move) && 0 <= length <= I64_MAX
    ensures IsInt64(target) && target < length
    ensures var req := Requested(position, length, move, origin);
            (req < length ==> target == req) && (req >= length ==> target == length - 1)
  {
    var req := Requested(position, length, move, origin);
    if req >= length then length - 1 else req
  }

  /** A seek from the beginning by `move` lands on `move` exactly when `move` is before the end. */
  lemma SeekFromBegin(position: int, length: int, move: int)
    requires IsInt64(position) && IsInt64(move) && 0 <= length <= I64_MAX
    ensures SeekTarget(position, length, move, SEEK_BEGIN) == move <==> move < length
  {
  }

  class AsfIStream {
    const baseStream: AsfStreams.AsfStream

    /** The wrapped stream is consistent and its `Position` and `Length` are `long` values. */
    ghost predicate Valid()
      reads baseStream, baseStream.file, baseStream.asfConfig, baseStream.streamInfo
      reads baseStream.streamInfo.mediaObjectId, baseStream.streamInfo.prevMediaObjectId
    {
      baseStream.Valid() && IsInt64(baseStream.position) && 0 <= baseStream.length <= I64_MAX
    }

    constructor(stream: AsfStreams.AsfStream)
      requires stream.Valid() && IsInt64(stream.position) && 0 <= stream.length <= I64_MAX
      ensures baseStream == stream && Valid()
    {
      baseStream := stream;
    }

    /**
     * `Read`: the wrapped stream's read of `cb` bytes into `pv` from its start; the
     * count read is what `pcbRead` receives. The bytes are the next ones the wrapped
     * stream produced after its position, as many as it holds up to `cb`.
     */
    method Read(pv: array<u8>, cb: i32) returns (r: Result<int, AsfStreams.StreamError>)
      requires Valid()
      requires pv != baseStream.streamInfo.mediaObjectId && pv != baseStream.streamInfo.prevMediaObjectId
      modifies baseStream, baseStream.file, baseStream.streamInfo
      modifies baseStream.streamInfo.mediaObjectId, baseStream.streamInfo.prevMediaObjectId, pv
      ensures cb < 0 || pv.Length < cb ==> r.Err?
      ensures r.Ok? ==> Valid()
      ensures r.Ok? ==>
        var s := baseStream;
        var start := old(s.trace.dropped + s.readPos);
        var bytes := AsfStreams.Unread(s.trace.emitted, start, cb as int);
        && r == Ok(|bytes|) && s.trace.dropped + s.readPos == start + |bytes|
        && old(s.trace.emitted) <= s.trace.emitted
        && (forall i :: 0 <= i < pv.Length ==> pv[i] == AsfStreams.DeliveredAt(old(pv[i]), i, 0, bytes))
    {
      r := baseStream.Read(pv, 0, cb);
    }

    /**
     * `Seek`: the target from `SeekTarget`; a target within the largest header moves the
     * wrapped stream there from its beginning and is reported as the new position, with
     * the wrapped stream's refusals passed on; a target past it changes nothing.
     */
    method Seek(move: int, origin: int) returns (r: Result<Option<int>, AsfStreams.StreamError>)
      requires Valid() && IsInt64(move)
      modifies baseStream`readPos
      ensures Valid()
      ensures
        var s := baseStream;
        var target := SeekTarget(s.position, s.length, move, origin);
        && (target > Configuration.ASF_MAX_HEADER_SIZE as int ==> r == Ok(None) && s.readPos == old(s.readPos))
        && (target <= Configuration.ASF_MAX_HEADER_SIZE as int ==>
              && (r.Ok? <==> (s.streamType == StreamInfos.AsfImage || s.streamType == StreamInfos.AsfAudio)
                             && s.allowSeekBack && 0 <= target)
              && (r.Ok? ==> r.value == Some(target) && s.trace.dropped + s.readPos == target)
              && (r.Err? ==> s.readPos == old(s.readPos)))
    {
      var target := SeekTarget(baseStream.position, baseStream.length, move, origin);
      if target <= Configuration.ASF_MAX_HEADER_SIZE as int {
        var moved := baseStream.Seek(target, AsfStreams.Begin);
        if moved.Err? {
          return Err(moved.error);
        }
        return Ok(Some(target));
      }
      return Ok(None);
    }
  }
}

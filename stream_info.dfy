/**
 * Per-stream renormalisation state (`AsfStreamInfo`) and the record kept for
 * every payload of a parsed packet (`PayloadInfo`).
 */
module StreamInfos {
  import opened Bytes

  /** What kind of segment a stream produces. */
  datatype AsfStreamType = AsfStream | AsfUnaltered | AsfFile | AsfImage | AsfAudio

  /**
   * One payload of a data packet: its decoded fields and the byte offset, inside
   * the packet buffer, of every field that is later patched in place.
   * A payload without replicated data keeps presentation time 0 at offset 0.
   */
  datatype PayloadInfo = PayloadInfo(
    payloadId: int,
    streamId: u8,
    streamIdOffset: nat,
    mediaOffset: nat,
    mediaObjectNumberOffset: nat,
    isKeyframeStart: bool,
    mediaObjectNumber: u8,
    offsetIntoMedia: u64,
    presentationTimeOffset: nat,
    presentationTime: u32,
    payloadLength: u16)

  /** Number of media-object counters: one per possible stream-id byte. */
  const COUNTER_COUNT: nat := 256

  /** A fresh counter array: 256 zero bytes. */
  method NewCounters() returns (a: array<u8>)
    ensures fresh(a) && a.Length == COUNTER_COUNT
    ensures forall k :: 0 <= k < a.Length ==> a[k] == 0
  {
    a := new u8[COUNTER_COUNT](_ => 0);
  }

  /** `Array.Copy` into a fresh array of the same length. */
  method CopyCounters(src: array<u8>) returns (dst: array<u8>)
    ensures fresh(dst) && dst[..] == src[..]
  {
    dst := new u8[src.Length];
    var k := 0;
    while k < src.Length
      invariant 0 <= k <= src.Length
      invariant dst[..k] == src[..k]
    {
      dst[k] := src[k];
      k := k + 1;
    }
  }

  class AsfStreamInfo {
    var streamType: AsfStreamType
    var startSendTime: u32
    var minPacketSendTime: u32
    var startTimeOffset: u32
    var endTimeOffset: u32
    /** Next media object number to hand out, per stream id (bytes: they wrap at 256). */
    var mediaObjectId: array<u8>
    /** Media object number last seen in the input, per stream id. */
    var prevMediaObjectId: array<u8>
    var maxPresentationTime: map<u8, u32>

    /** The two counter arrays are distinct and have one entry per stream-id byte. */
    ghost predicate Valid()
      reads this
    {
      mediaObjectId.Length == COUNTER_COUNT && prevMediaObjectId.Length == COUNTER_COUNT
      && mediaObjectId != prevMediaObjectId
    }

    constructor (streamType: AsfStreamType)
      ensures Valid() && fresh(mediaObjectId) && fresh(prevMediaObjectId)
      ensures this.streamType == streamType
      ensures startSendTime == 0 && minPacketSendTime == 0
      ensures startTimeOffset == 0 && endTimeOffset == 0
      ensures maxPresentationTime == map[]
      ensures forall k :: 0 <= k < COUNTER_COUNT ==> mediaObjectId[k] == 0 && prevMediaObjectId[k] == 0
    {
      var ids := NewCounters();
      var prev := NewCounters();
      this.streamType := streamType;
      maxPresentationTime := map[];
      startSendTime := 0;
      minPacketSendTime := 0;
      startTimeOffset := 0;
      endTimeOffset := 0;
      mediaObjectId := ids;
      prevMediaObjectId := prev;
    }

    /** The copy constructor: same type and times, private copies of the counters and the map. */
    constructor Copy(info: AsfStreamInfo)
      ensures fresh(mediaObjectId) && fresh(prevMediaObjectId)
      ensures info.Valid() ==> Valid()
      ensures streamType == info.streamType
      ensures startSendTime == info.startSendTime && minPacketSendTime == info.minPacketSendTime
      ensures startTimeOffset == info.startTimeOffset && endTimeOffset == info.endTimeOffset
      ensures mediaObjectId[..] == info.mediaObjectId[..]
      ensures prevMediaObjectId[..] == info.prevMediaObjectId[..]
      ensures maxPresentationTime == info.maxPresentationTime
    {
      var ids := CopyCounters(info.mediaObjectId);
      var prev := CopyCounters(info.prevMediaObjectId);
      streamType := info.streamType;
      startSendTime := info.startSendTime;
      minPacketSendTime := info.minPacketSendTime;
      startTimeOffset := info.startTimeOffset;
      endTimeOffset := info.endTimeOffset;
      maxPresentationTime := info.maxPresentationTime;
      mediaObjectId := ids;
      prevMediaObjectId := prev;
    }

    /** Both counter arrays are replaced by fresh all-zero arrays; nothing else changes. */
    method ResetMediaObjects()
      modifies this
      ensures Valid() && fresh(mediaObjectId) && fresh(prevMediaObjectId)
      ensures forall k :: 0 <= k < COUNTER_COUNT ==> mediaObjectId[k] == 0 && prevMediaObjectId[k] == 0
      ensures streamType == old(streamType) && maxPresentationTime == old(maxPresentationTime)
      ensures startSendTime == old(startSendTime) && minPacketSendTime == old(minPacketSendTime)
      ensures startTimeOffset == old(startTimeOffset) && endTimeOffset == old(endTimeOffset)
    {
      mediaObjectId := NewCounters();
      prevMediaObjectId := NewCounters();
    }

    /**
     * Takes private copies of another info's counters and map: the arrays are
     * fresh, so later writes to either side are not seen by the other.
     */
    method UpdateFromStream(info: AsfStreamInfo)
      modifies this
      ensures fresh(mediaObjectId) && fresh(prevMediaObjectId)
      ensures mediaObjectId[..] == old(info.mediaObjectId[..])
      ensures prevMediaObjectId[..] == old(info.prevMediaObjectId[..])
      ensures maxPresentationTime == old(info.maxPresentationTime)
      ensures old(info.Valid()) ==> Valid()
      ensures streamType == old(streamType)
      ensures startSendTime == old(startSendTime) && minPacketSendTime == old(minPacketSendTime)
      ensures startTimeOffset == old(startTimeOffset) && endTimeOffset == old(endTimeOffset)
    {
      var ids := CopyCounters(info.mediaObjectId);
      var prev := CopyCounters(info.prevMediaObjectId);
      mediaObjectId := ids;
      prevMediaObjectId := prev;
      maxPresentationTime := info.maxPresentationTime;
    }
  }
}

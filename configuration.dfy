/** Parsing constants and the file configuration filled in while a header is read. */
module Configuration {
  import opened Bytes
  import PacketCodec

  /** Longest streamed header accepted. */
  const ASF_MAX_HEADER_SIZE: u32 := 10000
  /** Added to a stream id to move a payload to a stream no renderer plays. */
  const ASF_PRIVATE_STREAM_OFFSET: u8 := 50
  /** Subtracted from every renormalised send time (milliseconds). */
  const ASF_SEND_SAFETY_THRESHOLD: u32 := 2000
  /** Seek tolerance for video and images (milliseconds). */
  const ASF_TIME_THRESHOLD: u32 := 100
  /** Seek tolerance for audio (milliseconds). */
  const ASF_TIME_THRESHOLD_START_AUDIO: u32 := 250

  /** The configuration's fields as one value, in the class's field order. */
  datatype Settings = Settings(
    packets: seq<PacketCodec.DecodedPacket>,
    asfPreroll: u32, asfHeaderSize: u32, asfPacketSize: u32, asfPacketCount: u32,
    asfPacketHeaderSize: u32, asfIndexSize: u32, asfVideoStreamId: u32, asfAudioStreamId: u32,
    asfBitRate: u32, imageWidth: i32, imageHeight: i32,
    audioChannels: u16, audioBitsPerSample: u16, audioSampleRate: u32)

  /** A new configuration's values: no packets, everything 0 but one audio channel. */
  const RESET_SETTINGS: Settings := Settings([], 0, 0, 0, 0, 0, 0, 0, 0, 0, 0, 0, 1, 0, 0)

  class AsfFileConfiguration {
    /** The data packets decoded while the Data Object was read (empty until then). */
    var packets: seq<PacketCodec.DecodedPacket>
    var asfPreroll: u32
    var asfHeaderSize: u32
    var asfPacketSize: u32
    var asfPacketCount: u32
    var asfPacketHeaderSize: u32
    var asfIndexSize: u32
    var asfVideoStreamId: u32
    var asfAudioStreamId: u32
    var asfBitRate: u32
    var imageWidth: i32
    var imageHeight: i32
    var audioChannels: u16
    var audioBitsPerSample: u16
    var audioSampleRate: u32

    /** The defaults: every size, time, id and image dimension 0, one audio channel. */
    ghost predicate IsReset()
      reads this
    {
      && asfPreroll == 0 && asfHeaderSize == 0 && asfPacketSize == 0 && asfPacketCount == 0
      && asfPacketHeaderSize == 0 && asfIndexSize == 0 && asfBitRate == 0
      && imageWidth == 0 && imageHeight == 0
      && asfVideoStreamId == 0 && asfAudioStreamId == 0
      && audioChannels == 1 && audioSampleRate == 0 && audioBitsPerSample == 0
    }

    /** The current values of every field. */
    function Snapshot(): Settings
      reads this
    {
      Settings(packets, asfPreroll, asfHeaderSize, asfPacketSize, asfPacketCount,
               asfPacketHeaderSize, asfIndexSize, asfVideoStreamId, asfAudioStreamId,
               asfBitRate, imageWidth, imageHeight, audioChannels, audioBitsPerSample, audioSampleRate)
    }

    /** A new configuration is a reset one, with no packets yet. */
    constructor ()
      ensures IsReset() && packets == []
      ensures Snapshot() == RESET_SETTINGS
    {
      packets := [];
      new;
      Reset();
    }

    /** Back to the defaults; the packet list is left as it is. */
    method Reset()
      modifies this
      ensures IsReset() && packets == old(packets)
    {
      ResetFileProperties();
      ResetStreamProperties();
    }

    /** The first half of Reset: sizes, counts, preroll and bit rate. */
    method ResetFileProperties()
      modifies this`asfPreroll, this`asfHeaderSize, this`asfPacketSize, this`asfPacketCount,
               this`asfPacketHeaderSize, this`asfIndexSize, this`asfBitRate
      ensures asfPreroll == 0 && asfHeaderSize == 0 && asfPacketSize == 0 && asfPacketCount == 0
      ensures asfPacketHeaderSize == 0 && asfIndexSize == 0 && asfBitRate == 0
    {
      asfPreroll := 0;
      asfHeaderSize := 0;
      asfPacketSize := 0;
      asfPacketCount := 0;
      asfPacketHeaderSize := 0;
      asfIndexSize := 0;
      asfBitRate := 0;
    }

    /** The second half of Reset: image size, stream ids and audio format. */
    method ResetStreamProperties()
      modifies this`imageWidth, this`imageHeight, this`asfVideoStreamId, this`asfAudioStreamId,
               this`audioChannels, this`audioSampleRate, this`audioBitsPerSample
      ensures imageWidth == 0 && imageHeight == 0 && asfVideoStreamId == 0 && asfAudioStreamId == 0
      ensures audioChannels == 1 && audioSampleRate == 0 && audioBitsPerSample == 0
    {
      imageWidth := 0;
      imageHeight := 0;
      asfVideoStreamId := 0;
      asfAudioStreamId := 0;
      audioChannels := 1;
      audioSampleRate := 0;
      audioBitsPerSample := 0;
    }
  }
}

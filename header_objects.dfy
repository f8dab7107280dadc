// The objects of an ASF file as the header walk builds them: the base object every kind
// starts as, the factory that picks a kind by id, each kind's constructor (what it decodes,
// where it leaves the stream, what it sets in the configuration), and what each kind
// writes back and how long it says it is.

module AsfObjects {
  import opened Bytes
  import opened Wrappers
  import opened AsfStruct
  import opened AsfGuids
  import opened Configuration
  import PacketCodec
  import FP = FileProperties
  import CD = ContentDescription
  import AsfIndex

  datatype ObjectError =
    | Truncated                                  // the object's bytes run past the end of the file
    | DuplicateBitrate(streamNumber: nat)        // a second bitrate record for one stream
    | FormatDataTooShort                         // a video format size below its own 40-byte struct
    | InvalidPacket(packetError: PacketCodec.PacketError)
    | InvalidFileProperties(propertiesError: FP.PropertiesError)
    | InvalidIndex(indexError: AsfIndex.IndexError)
    | DuplicateStreamName(languageIndex: nat)    // a second stream name for one language index

  /** Where a read of n bytes at `at` leaves the stream: it stops at the end of the file. */
  function After(b: seq<u8>, at: nat, n: nat): (r: nat)
    ensures at + n <= |b| ==> r == at + n
    ensures at <= r <= at + n
    ensures at <= |b| ==> r <= |b|
  {
    if at >= |b| then at else if at + n > |b| then |b| else at + n
  }

  // ------------------------------------------------------------ the base object

  /** The id and size every object starts with. */
  datatype ObjectHeader = ObjectHeader(id: Guid, size: nat)

  /** The object header at `pos`, zeros past the end of the file. */
  function HeaderAt(b: seq<u8>, pos: nat): (h: ObjectHeader)
    ensures |h.id.data4| == 8 && h.size < 0x1_0000_0000_0000_0000
  {
    Pow256Widths();
    var fields := ReadStruct(OBJECT, b, pos);
    assert FitsField(OBJECT[0], fields[0]) && FitsField(OBJECT[1], fields[1]);
    ObjectHeader(ToGuid(fields[0].bytes, 0), NumField(fields, OBJECT_SIZE))
  }

  /** The header is decided by the 24 bytes at `pos` alone. */
  lemma HeaderOfBytes(b: seq<u8>, pos: nat, c: seq<u8>, q: nat)
    requires ReadPadded(b, pos, 24) == ReadPadded(c, q, 24)
    ensures HeaderAt(b, pos) == HeaderAt(c, q)
  {
    ObjectSize();
  }

  /** An object as the base constructor leaves it: its id, where it starts, its size, its bytes. */
  datatype BaseObject = BaseObject(id: Guid, position: nat, size: nat, rawData: seq<u8>)

  /** A Data Object keeps no bytes; every other object keeps all of them. */
  predicate IsData(id: Guid)
  {
    id == GuidOf(DataType)
  }

  /**
   * The base constructor at `pos`: the header, then, except for the Data Object, a copy of
   * the object's whole extent. A non-empty extent past the end of the file never completes
   * the copy.
   */
  function ReadBase(b: seq<u8>, pos: nat): (r: Result<BaseObject, ObjectError>)
    ensures var h := HeaderAt(b, pos);
      r.Ok? <==> IsData(h.id) || h.size == 0 || pos + h.size <= |b|
    ensures r.Ok? ==> r.value.id == HeaderAt(b, pos).id && r.value.size == HeaderAt(b, pos).size
    ensures r.Ok? ==> r.value.position == pos
    ensures r.Ok? ==> |r.value.rawData| == if IsData(r.value.id) then 0 else r.value.size
    ensures r.Ok? && !IsData(r.value.id) && r.value.size > 0 ==> r.value.rawData == b[pos..pos + r.value.size]
  {
    var h := HeaderAt(b, pos);
    if IsData(h.id) || h.size == 0 then Ok(BaseObject(h.id, pos, h.size, []))
    else if pos + h.size > |b| then Err(Truncated)
    else Ok(BaseObject(h.id, pos, h.size, b[pos..pos + h.size]))
  }

  /**
   * The bytes an object keeps are the object: written anywhere, they are read back as the
   * same object, header included.
   */
  lemma BaseRoundTrip(b: seq<u8>, pos: nat, pre: seq<u8>, post: seq<u8>)
    requires ReadBase(b, pos).Ok? && !IsData(ReadBase(b, pos).value.id)
    requires ReadBase(b, pos).value.size >= 24
    ensures var o := ReadBase(b, pos).value;
      ReadBase(pre + o.rawData + post, |pre|) == Ok(o.(position := |pre|))
  {
    var o := ReadBase(b, pos).value;
    var c := pre + o.rawData + post;
    assert c[|pre|..|pre| + o.size] == o.rawData;
    ReadPaddedInside(b, pos, 24);
    ReadPaddedInside(c, |pre|, 24);
    assert b[pos..pos + 24] == o.rawData[..24] == c[|pre|..|pre| + 24];
    HeaderOfBytes(b, pos, c, |pre|);
  }

  // ------------------------------------------------------------ Header Object

  /** The Header Object's struct and the header size it reports. */
  datatype FileHeader = FileHeader(fields: seq<FieldValue>, headerSize: u32)

  /** The constructor: the header size is the object size cast to 32 bits. */
  function ParseFileHeader(b: seq<u8>, pos: nat): (h: FileHeader)
    ensures Fits(FILE_HEADER, h.fields) && h.fields == ReadStruct(FILE_HEADER, b, pos)
    ensures h.headerSize == NumField(h.fields, OBJECT_SIZE) % 0x1_0000_0000
  {
    var fields := ReadStruct(FILE_HEADER, b, pos);
    FileHeader(fields, Wrap32(NumField(fields, OBJECT_SIZE)))
  }

  /** The struct `Serialize` writes: the object size replaced by the header size. */
  function StoredFileHeader(h: FileHeader): (r: seq<FieldValue>)
    requires Fits(FILE_HEADER, h.fields)
    ensures Fits(FILE_HEADER, r)
  {
    Pow256Widths();
    h.fields[OBJECT_SIZE := NumValue(h.headerSize)]
  }

  /** `Serialize`: the struct alone; the objects it contains are written one by one after it. */
  function SerializeFileHeader(h: FileHeader): (r: seq<u8>)
    requires Fits(FILE_HEADER, h.fields)
    ensures |r| == 30
  {
    FileHeaderSize();
    Encode(FILE_HEADER, StoredFileHeader(h))
  }

  /** A written Header Object reads back with the header size it was given, other fields kept. */
  lemma FileHeaderRoundTrip(h: FileHeader, pre: seq<u8>, post: seq<u8>)
    requires Fits(FILE_HEADER, h.fields)
    ensures var back := ParseFileHeader(pre + SerializeFileHeader(h) + post, |pre|);
      && back.headerSize == h.headerSize
      && back.fields == h.fields[OBJECT_SIZE := NumValue(h.headerSize)]
  {
    ReadStructEncoded(FILE_HEADER, StoredFileHeader(h), pre, post);
  }

  // ------------------------------------------------------------ Stream Bitrate Properties

  /** Record k: the stream number in the low byte of its flags, and its average bitrate. */
  function BitrateRecord(b: seq<u8>, at: nat): (r: (nat, u32))
    ensures r.0 < 256
  {
    Pow256Widths();
    var fields := ReadStruct(BITRATE_RECORD, b, at);
    assert FitsField(BITRATE_RECORD[1], fields[1]);
    (NumField(fields, BR_FLAGS) % 256, NumField(fields, BR_AVERAGE_BITRATE))
  }

  /** The `count` records, six bytes apart from `start`. */
  function Records(b: seq<u8>, start: nat, count: nat): (r: seq<(nat, u32)>)
    ensures |r| == count
  {
    seq(count, k requires 0 <= k < count => BitrateRecord(b, start + 6 * k))
  }

  /** The first n records as a map from stream to bitrate; a repeated stream is an error. */
  function Bitrates(records: seq<(nat, u32)>, n: nat): (r: Result<map<nat, u32>, ObjectError>)
    requires n <= |records|
  {
    if n == 0 then Ok(map[])
    else
      var m :- Bitrates(records, n - 1);
      var (streamNumber, rate) := records[n - 1];
      if streamNumber in m then Err(DuplicateBitrate(streamNumber)) else Ok(m[streamNumber := rate])
  }

  /**
   * A successful read has one key per record: every record's stream maps to its bitrate,
   * every key is some record's stream, and so no two records share a stream.
   */
  lemma {:induction false} BitratesShape(records: seq<(nat, u32)>, n: nat)
    requires n <= |records| && Bitrates(records, n).Ok?
    ensures var m := Bitrates(records, n).value;
      && |m| == n
      && (forall k :: 0 <= k < n ==> records[k].0 in m && m[records[k].0] == records[k].1)
      && (forall sn :: sn in m ==> exists k :: 0 <= k < n && records[k].0 == sn)
  {
    if n > 0 {
      BitratesShape(records, n - 1);
      var m := Bitrates(records, n - 1).value;
      var rec := records[n - 1];
      assert rec.0 !in m;
      assert |m[rec.0 := rec.1]| == |m| + 1;
    }
  }

  /** A read fails exactly when some record repeats the stream of an earlier one. */
  lemma {:induction false} BitratesFail(records: seq<(nat, u32)>, n: nat)
    requires n <= |records|
    ensures Bitrates(records, n).Err? <==> exists i, j :: 0 <= i < j < n && records[i].0 == records[j].0
  {
    if n > 0 {
      BitratesFail(records, n - 1);
      var before := Bitrates(records, n - 1);
      if before.Ok? {
        BitratesShape(records, n - 1);
        if records[n - 1].0 in before.value {
          var i :| 0 <= i < n - 1 && records[i].0 == records[n - 1].0;
          assert 0 <= i < n - 1 < n && records[i].0 == records[n - 1].0;
        } else {
          forall i, j | 0 <= i < j < n
            ensures records[i].0 != records[j].0
          {
            if j == n - 1 {
              assert records[i].0 in before.value;
            }
          }
        }
      }
    }
  }

  /** Once record i repeats a stream, every longer read fails the same way. */
  lemma {:induction false} BitratesStop(records: seq<(nat, u32)>, i: nat, n: nat)
    requires i < n <= |records| && Bitrates(records, i + 1).Err?
    ensures Bitrates(records, n) == Bitrates(records, i + 1)
  {
    if n - 1 > i {
      BitratesStop(records, i, n - 1);
    }
  }

  /** The constructor's record loop, adding each record as it is read. */
  method ReadBitrates(b: seq<u8>, start: nat, count: nat) returns (r: Result<map<nat, u32>, ObjectError>)
    ensures r == Bitrates(Records(b, start, count), count)
  {
    var records := Records(b, start, count);
    var m: map<nat, u32> := map[];
    var i := 0;
    while i < count
      invariant 0 <= i <= count
      invariant Bitrates(records, i) == Ok(m)
    {
      var (streamNumber, rate) := records[i];
      if streamNumber in m {
        BitratesStop(records, i, count);
        return Err(DuplicateBitrate(streamNumber));
      }
      m := m[streamNumber := rate];
      i := i + 1;
    }
    return Ok(m);
  }

  // ------------------------------------------------------------ Stream Properties

  /** The type-specific data the constructor reads for the two media types it knows. */
  datatype Media =
    | AudioMedia(audio: seq<FieldValue>)
    | VideoMedia(video: seq<FieldValue>, format: seq<FieldValue>, codecData: seq<u8>)
    | OtherMedia

  datatype StreamProperties = StreamProperties(
    fields: seq<FieldValue>, streamNumber: u16, isEncrypted: bool, streamType: Guid, media: Media)

  /** The stream number is the low byte of the flags; bit 15 marks an encrypted stream. */
  function StreamNumberOf(flags: nat): (r: u16)
    ensures r < 256 && r == flags % 256
  {
    flags % 256
  }

  /**
   * The fixed 78-byte part: the stream number is the low byte of the flags, bit 15 marks an
   * encrypted stream, and the stream type is the GUID at field 2.
   */
  function StreamHead(b: seq<u8>, pos: nat): (sp: StreamProperties)
    ensures var fields := ReadStruct(STREAM_PROPERTIES_OBJECT, b, pos);
      && sp.fields == fields
      && sp.streamNumber == NumField(fields, SP_FLAGS) % 256
      && (sp.isEncrypted <==> HasBit(NumField(fields, SP_FLAGS), 0x8000))
      && sp.streamType == ToGuid(fields[SP_STREAM_TYPE].bytes, 0)
      && sp.media.OtherMedia?
  {
    var fields := ReadStruct(STREAM_PROPERTIES_OBJECT, b, pos);
    assert FitsField(STREAM_PROPERTIES_OBJECT[SP_STREAM_TYPE], fields[SP_STREAM_TYPE]);
    var flags := NumField(fields, SP_FLAGS);
    StreamProperties(fields, StreamNumberOf(flags), HasBit(flags, 0x8000), ToGuid(fields[SP_STREAM_TYPE].bytes, 0), OtherMedia)
  }

  /** Audio: the 18-byte audio data, then a skip over the codec data and the error-correction data. */
  function ParseAudio(b: seq<u8>, typeData: nat, errorCorrection: nat): (r: (Media, nat))
    ensures r.0.AudioMedia? && r.0.audio == ReadStruct(AUDIO_STREAM_PROPERTIES, b, typeData)
    ensures r.1 >= typeData
  {
    var audio := ReadStruct(AUDIO_STREAM_PROPERTIES, b, typeData);
    var end: nat := After(b, typeData, 18) + NumField(audio, AUDIO_CODEC_DATA_SIZE) + errorCorrection;
    (AudioMedia(audio), end)
  }

  /** The 40-byte format data, read after the 11-byte video data. */
  function VideoFormat(b: seq<u8>, typeData: nat): (r: seq<FieldValue>)
    ensures Fits(VIDEO_FORMAT_DATA, r)
  {
    ReadStruct(VIDEO_FORMAT_DATA, b, After(b, typeData, 11))
  }

  /** The codec data that follows the format data, then a skip over the error-correction data. */
  function CodecData(b: seq<u8>, codecAt: nat, codecSize: nat, errorCorrection: nat): (r: (seq<u8>, nat))
    ensures |r.0| == codecSize && r.1 >= codecAt
  {
    (ReadPadded(b, codecAt, codecSize), After(b, codecAt, codecSize) + errorCorrection)
  }

  /**
   * Video: the 11-byte video data and the 40-byte format data, then the codec data, whose
   * size is the format size less 40 (a smaller format size is an error), then a skip over
   * the error-correction data.
   */
  function ParseVideo(b: seq<u8>, typeData: nat, errorCorrection: nat): (r: Result<(Media, nat), ObjectError>)
    ensures var format := VideoFormat(b, typeData);
      && (r.Err? <==> NumField(format, VF_FORMAT_DATA_SIZE) < 40)
      && (r.Ok? ==> r.value.0.VideoMedia? && r.value.0.format == format
                    && |r.value.0.codecData| == NumField(format, VF_FORMAT_DATA_SIZE) - 40
                    && r.value.1 >= typeData)
  {
    var video := ReadStruct(VIDEO_STREAM_PROPERTIES, b, typeData);
    var format := VideoFormat(b, typeData);
    var formatSize := NumField(format, VF_FORMAT_DATA_SIZE);
    if formatSize < 40 then Err(FormatDataTooShort)
    else
      var codec := CodecData(b, After(b, After(b, typeData, 11), 40), formatSize - 40, errorCorrection);
      Ok((VideoMedia(video, format, codec.0), codec.1))
  }

  /**
   * The constructor at `pos`, and where it leaves the stream: the fixed part, then the
   * type-specific data for audio or video; any other stream type reads nothing more.
   */
  function ParseStreamProperties(b: seq<u8>, pos: nat): (r: Result<(StreamProperties, nat), ObjectError>)
    ensures var head := StreamHead(b, pos);
      && (r.Err? <==> head.streamType == VIDEO_MEDIA && ParseVideo(b, After(b, pos, 78), 0).Err?)
      && (r.Ok? ==> var sp := r.value.0;
           && sp == head.(media := sp.media)
           && (sp.media.AudioMedia? <==> sp.streamType == AUDIO_MEDIA)
           && (sp.media.VideoMedia? <==> sp.streamType == VIDEO_MEDIA)
           && (sp.media.OtherMedia? ==> r.value.1 == After(b, pos, 78))
           && r.value.1 >= pos)
  {
    var head := StreamHead(b, pos);
    var errorCorrection := NumField(head.fields, SP_ERROR_CORRECTION_LENGTH);
    var typeData := After(b, pos, 78);
    if head.streamType == AUDIO_MEDIA then
      var (media, end) := ParseAudio(b, typeData, errorCorrection);
      Ok((head.(media := media), end))
    else if head.streamType == VIDEO_MEDIA then
      var v := ParseVideo(b, typeData, errorCorrection);
      if v.Err? then Err(v.error) else Ok((head.(media := v.value.0), v.value.1))
    else
      Ok((head, typeData))
  }

  /**
   * The configuration updates: for audio the audio stream id, channels, sample rate and bits
   * per sample; for video the video stream id and the image size (cast to signed 32 bits);
   * nothing for other streams, and nothing else.
   */
  function StreamApplied(sp: StreamProperties, s: Settings): (r: Settings)
    ensures sp.media.OtherMedia? ==> r == s
    ensures sp.media.AudioMedia? ==>
      && r.asfAudioStreamId == sp.streamNumber
      && r.(asfAudioStreamId := s.asfAudioStreamId, audioChannels := s.audioChannels,
            audioSampleRate := s.audioSampleRate, audioBitsPerSample := s.audioBitsPerSample) == s
    ensures sp.media.VideoMedia? ==>
      && r.asfVideoStreamId == sp.streamNumber
      && r.imageWidth == ToInt32(NumField(sp.media.format, VF_IMAGE_WIDTH))
      && r.imageHeight == ToInt32(NumField(sp.media.format, VF_IMAGE_HEIGHT))
      && r.(asfVideoStreamId := s.asfVideoStreamId, imageWidth := s.imageWidth, imageHeight := s.imageHeight) == s
  {
    match sp.media
    case AudioMedia(audio) =>
      s.(asfAudioStreamId := sp.streamNumber,
         audioChannels := NumField(audio, AUDIO_CHANNELS) % 0x1_0000,
         audioSampleRate := Wrap32(NumField(audio, AUDIO_SAMPLE_RATE)),
         audioBitsPerSample := NumField(audio, AUDIO_BITS_PER_SAMPLE) % 0x1_0000)
    case VideoMedia(_, format, _) =>
      s.(asfVideoStreamId := sp.streamNumber,
         imageWidth := ToInt32(NumField(format, VF_IMAGE_WIDTH)),
         imageHeight := ToInt32(NumField(format, VF_IMAGE_HEIGHT)))
    case OtherMedia => s
  }

  // ------------------------------------------------------------ Header Extension

  /** The constructor reads the 46-byte struct only; the objects it contains are walked on their own. */
  function ParseHeaderExtension(b: seq<u8>, pos: nat): (r: (seq<FieldValue>, nat))
    ensures Fits(HEADER_EXTENSION, r.0) && r.1 == After(b, pos, 46)
  {
    (ReadStruct(HEADER_EXTENSION, b, pos), After(b, pos, 46))
  }

  // ------------------------------------------------------------ Data Object

  /** The Data Object: its struct, where its packets start, and the packets decoded. */
  datatype DataObject = DataObject(fields: seq<FieldValue>, headerSize: u32, packets: seq<PacketCodec.DecodedPacket>)

  /** A read of `size` bytes at `at` returns fewer than asked for. */
  predicate ShortRead(b: seq<u8>, at: nat, size: nat)
  {
    size > 0 && at + size > |b|
  }

  /** The bytes taken by `count` reads of `size` bytes, one read after another. */
  function Span(count: nat, size: nat): nat
  {
    if count == 0 then 0 else Span(count - 1, size) + size
  }

  /** `count` reads of `size` bytes take count * size bytes. */
  lemma {:induction false} SpanProduct(count: nat, size: nat)
    ensures Span(count, size) == count * size
  {
    if count > 0 {
      SpanProduct(count - 1, size);
    }
  }

  /** The buffer a read of `size` bytes at `at` fills, when it is not short. */
  function Chunk(b: seq<u8>, at: nat, size: nat): (r: seq<u8>)
    requires !ShortRead(b, at, size)
    ensures |r| == size
  {
    if size == 0 then [] else b[at..at + size]
  }

  /**
   * The packet buffers the loop reads from `at`: at most `remaining` reads of `size` bytes,
   * stopping at the first short read.
   */
  function Chunks(b: seq<u8>, at: nat, size: nat, remaining: nat): (r: seq<seq<u8>>)
    ensures |r| <= remaining
    decreases remaining
  {
    if remaining == 0 || ShortRead(b, at, size) then []
    else [Chunk(b, at, size)] + Chunks(b, at + size, size, remaining - 1)
  }

  /** Buffer k is the k-th run of `size` bytes after `at`, read whole. */
  lemma {:induction false} ChunkAt(b: seq<u8>, at: nat, size: nat, remaining: nat, k: nat)
    requires k < |Chunks(b, at, size, remaining)|
    ensures !ShortRead(b, at + Span(k, size), size)
    ensures Chunks(b, at, size, remaining)[k] == Chunk(b, at + Span(k, size), size)
    decreases k
  {
    if k > 0 {
      ChunkAt(b, at + size, size, remaining - 1, k - 1);
    }
  }

  /** Fewer buffers than reads allowed means the read after the last buffer was short. */
  lemma {:induction false} ChunksEnd(b: seq<u8>, at: nat, size: nat, remaining: nat)
    ensures var n := |Chunks(b, at, size, remaining)|;
      n < remaining ==> ShortRead(b, at + Span(n, size), size)
    decreases remaining
  {
    if remaining > 0 && !ShortRead(b, at, size) {
      ChunksEnd(b, at + size, size, remaining - 1);
    }
  }

  /** A packet decoder: a buffer and the id of its first payload. */
  type Decoder = (seq<u8>, int) -> Result<PacketCodec.DecodedPacket, PacketCodec.PacketError>

  /** Decodes the buffers in order, each numbering its payloads on from the previous one's. */
  function DecodeAll(decode: Decoder, chunks: seq<seq<u8>>, idBase: int): (r: Result<seq<PacketCodec.DecodedPacket>, ObjectError>)
    ensures r.Ok? ==> |r.value| == |chunks|
  {
    if chunks == [] then Ok([])
    else
      match decode(chunks[0], idBase)
      case Err(e) => Err(InvalidPacket(e))
      case Ok(p) =>
        var rest :- DecodeAll(decode, chunks[1..], idBase + |p.payload|);
        Ok([p] + rest)
  }

  /** The packet codec with the configured packet size. */
  function PacketDecoder(size: nat): Decoder
  {
    (chunk, idBase) => PacketCodec.Decode(size, chunk, idBase)
  }

  /** The packet loop from `at`: the buffers it reads, decoded. */
  function DataPackets(decode: Decoder, b: seq<u8>, at: nat, size: nat, remaining: nat, idBase: int)
    : (r: Result<seq<PacketCodec.DecodedPacket>, ObjectError>)
  {
    DecodeAll(decode, Chunks(b, at, size, remaining), idBase)
  }

  /** The number of payloads in the first k packets. */
  function PayloadsBefore(ps: seq<PacketCodec.DecodedPacket>, k: nat): nat
    requires k <= |ps|
  {
    if k == 0 then 0 else PayloadsBefore(ps, k - 1) + |ps[k - 1].payload|
  }

  lemma {:induction false} PayloadsBeforeCons(p: PacketCodec.DecodedPacket, ps: seq<PacketCodec.DecodedPacket>, k: nat)
    requires k <= |ps|
    ensures PayloadsBefore([p] + ps, k + 1) == |p.payload| + PayloadsBefore(ps, k)
  {
    if k > 0 {
      PayloadsBeforeCons(p, ps, k - 1);
      assert ([p] + ps)[k] == ps[k - 1];
    }
  }

  /**
   * Packet k of a successful decode comes from buffer k, its first payload numbered
   * `idBase` plus the payloads of the packets before it.
   */
  lemma {:induction false} DecodeAllAt(decode: Decoder, chunks: seq<seq<u8>>, idBase: int, k: nat)
    requires DecodeAll(decode, chunks, idBase).Ok? && k < |chunks|
    ensures var ps := DecodeAll(decode, chunks, idBase).value;
      decode(chunks[k], idBase + PayloadsBefore(ps, k)) == Ok(ps[k])
    decreases k
  {
    if k > 0 {
      var ps := DecodeAll(decode, chunks, idBase).value;
      var p := ps[0];
      var rest := DecodeAll(decode, chunks[1..], idBase + |p.payload|).value;
      assert ps == [p] + rest;
      DecodeAllAt(decode, chunks[1..], idBase + |p.payload|, k - 1);
      PayloadsBeforeCons(p, rest, k - 1);
    }
  }

  /**
   * Packet k of the loop was decoded from the k-th `size` bytes after `at`, read whole, with
   * its first payload numbered `idBase` plus the payloads of the packets before it.
   */
  lemma DataPacketAt(decode: Decoder, b: seq<u8>, at: nat, size: nat, remaining: nat, idBase: int, k: nat)
    requires DataPackets(decode, b, at, size, remaining, idBase).Ok?
    requires k < |DataPackets(decode, b, at, size, remaining, idBase).value|
    ensures var ps := DataPackets(decode, b, at, size, remaining, idBase).value;
      && !ShortRead(b, at + Span(k, size), size)
      && decode(Chunk(b, at + Span(k, size), size), idBase + PayloadsBefore(ps, k)) == Ok(ps[k])
  {
    ChunkAt(b, at, size, remaining, k);
    DecodeAllAt(decode, Chunks(b, at, size, remaining), idBase, k);
  }

  /** `DecodeAll` with the packets before it put in front. */
  function Prefixed(ps: seq<PacketCodec.DecodedPacket>, r: Result<seq<PacketCodec.DecodedPacket>, ObjectError>)
    : Result<seq<PacketCodec.DecodedPacket>, ObjectError>
  {
    if r.Ok? then Ok(ps + r.value) else r
  }

  /** The constructor's packet loop, with the packet decoder it is given. */
  method ReadPackets(decode: Decoder, b: seq<u8>, start: nat, size: nat, total: nat)
    returns (r: Result<seq<PacketCodec.DecodedPacket>, ObjectError>)
    ensures r == DataPackets(decode, b, start, size, total, 0)
  {
    var packets: seq<PacketCodec.DecodedPacket> := [];
    var packetId: nat := 0;
    var payloadIdOffset := 0;
    var at: nat := start;
    ghost var all := DataPackets(decode, b, start, size, total, 0);
    assert all.Ok? ==> [] + all.value == all.value;
    while packetId < total
      invariant packetId <= total
      invariant DataPackets(decode, b, start, size, total, 0)
                == Prefixed(packets, DataPackets(decode, b, at, size, total - packetId, payloadIdOffset))
      decreases total - packetId
    {
      if ShortRead(b, at, size) {
        break;
      }
      var packetData := Chunk(b, at, size);
      ghost var chunks := Chunks(b, at, size, total - packetId);
      assert chunks == [packetData] + Chunks(b, at + size, size, total - packetId - 1);
      var packet := decode(packetData, payloadIdOffset);
      if packet.Err? {
        return Err(InvalidPacket(packet.error));
      }
      ghost var rest := DecodeAll(decode, chunks[1..], payloadIdOffset + |packet.value.payload|);
      assert rest.Ok? ==> packets + ([packet.value] + rest.value) == (packets + [packet.value]) + rest.value;
      packetId := packetId + 1;
      payloadIdOffset := payloadIdOffset + |packet.value.payload|;
      packets := packets + [packet.value];
      at := at + size;
    }
    assert packets + [] == packets;
    return Ok(packets);
  }

  /**
   * The constructor at `pos` with the configured packet size: the 50-byte struct, then the
   * packets that follow it. The header size is where the packets start, cast to 32 bits.
   */
  function ParseDataObject(b: seq<u8>, pos: nat, packetSize: u32): (r: Result<DataObject, ObjectError>)
    ensures r.Ok? ==> var d := r.value;
      && d.fields == ReadStruct(DATA_OBJECT, b, pos)
      && d.headerSize == After(b, pos, 50) % 0x1_0000_0000
      && DataPackets(PacketDecoder(packetSize), b, After(b, pos, 50), packetSize, NumField(d.fields, DO_TOTAL_PACKETS), 0) == Ok(d.packets)
  {
    var fields := ReadStruct(DATA_OBJECT, b, pos);
    var start := After(b, pos, 50);
    var packets :- DataPackets(PacketDecoder(packetSize), b, start, packetSize, NumField(fields, DO_TOTAL_PACKETS), 0);
    Ok(DataObject(fields, Wrap32(start), packets))
  }

  /** The configuration updates: header size, packet count (cast to 32 bits) and the packets. */
  function DataApplied(d: DataObject, s: Settings): (r: Settings)
    ensures r.asfHeaderSize == d.headerSize && r.packets == d.packets
    ensures r.asfPacketCount == NumField(d.fields, DO_TOTAL_PACKETS) % 0x1_0000_0000
    ensures r.(asfHeaderSize := s.asfHeaderSize, asfPacketCount := s.asfPacketCount, packets := s.packets) == s
  {
    s.(asfHeaderSize := d.headerSize, asfPacketCount := Wrap32(NumField(d.fields, DO_TOTAL_PACKETS)), packets := d.packets)
  }

  // ------------------------------------------------------------ the factory

  /** What each kind decodes; kinds whose constructors only skip their bytes keep their type. */
  datatype Body =
    | HeaderBody(header: FileHeader)
    | FilePropertiesBody(properties: FP.FileProperties)
    | ContentDescriptionBody(description: CD.Parsed)
    | StreamBitrateBody(bitrates: map<nat, u32>)
    | StreamPropertiesBody(streamProperties: StreamProperties)
    | HeaderExtensionBody(extension: seq<FieldValue>)
    | DataBody(data: DataObject)
    | IndexBody(index: AsfIndex.Index)
    | SimpleIndexBody(simpleIndex: AsfIndex.SimpleIndex)
    | SkippedBody(kind: ObjectType)

  datatype AsfObject = AsfObject(base: BaseObject, body: Body)

  /** The structs a body writes back are whole: every field within its width. */
  predicate Writable(body: Body)
  {
    && (body.HeaderBody? ==> Fits(FILE_HEADER, body.header.fields))
    && (body.HeaderExtensionBody? ==> Fits(HEADER_EXTENSION, body.extension))
    && (body.DataBody? ==> Fits(DATA_OBJECT, body.data.fields))
    && (body.ContentDescriptionBody? ==> Fits(CONTENT_DESCRIPTION, body.description.header))
    && (body.FilePropertiesBody? ==> FP.WellFormed(body.properties))
  }

  /** The Stream Bitrate Properties constructor: the struct, then its records. */
  function DecodeStreamBitrate(b: seq<u8>, pos: nat): (r: Result<(map<nat, u32>, nat), ObjectError>)
    ensures var recordsAt := After(b, pos, 26);
      var count := NumField(ReadStruct(STREAM_BITRATE_PROPERTIES, b, pos), SB_RECORDS_COUNT);
      && var m := Bitrates(Records(b, recordsAt, count), count);
      && (r.Ok? <==> m.Ok?)
      && (r.Ok? ==> r.value == (m.value, After(b, recordsAt, 6 * count)))
  {
    var count := NumField(ReadStruct(STREAM_BITRATE_PROPERTIES, b, pos), SB_RECORDS_COUNT);
    var recordsAt := After(b, pos, 26);
    var m :- Bitrates(Records(b, recordsAt, count), count);
    Ok((m, After(b, recordsAt, 6 * count)))
  }

  /**
   * The Data Object constructor; the stream is left after the last packet, or at the end of
   * the file when a short read ended the loop early.
   */
  function DecodeData(b: seq<u8>, pos: nat, packetSize: u32): (r: Result<(DataObject, nat), ObjectError>)
    ensures r.Ok? <==> ParseDataObject(b, pos, packetSize).Ok?
    ensures r.Ok? ==> r.value.0 == ParseDataObject(b, pos, packetSize).value
  {
    var d :- ParseDataObject(b, pos, packetSize);
    var next := After(b, pos, 50) + Span(|d.packets|, packetSize);
    Ok((d, if |d.packets| < NumField(d.fields, DO_TOTAL_PACKETS) then After(b, next, packetSize) else next))
  }

  /** The Index Object constructor, with the configured packet size and packets. */
  function DecodeIndex(b: seq<u8>, pos: nat, s: Settings): (r: Result<(AsfIndex.Index, nat), ObjectError>)
    ensures var ix := AsfIndex.ParseIndex(b, pos, s.asfPacketSize, s.packets);
      && (r.Ok? <==> ix.Ok?)
      && (r.Ok? ==> r.value == (ix.value, ix.value.end))
  {
    match AsfIndex.ParseIndex(b, pos, s.asfPacketSize, s.packets)
    case Ok(ix) => Ok((ix, ix.end))
    case Err(e) => Err(InvalidIndex(e))
  }

  /** The Simple Index Object constructor, with the configured packets. */
  function DecodeSimpleIndex(b: seq<u8>, pos: nat, s: Settings): (r: Result<(AsfIndex.SimpleIndex, nat), ObjectError>)
    ensures var si := AsfIndex.ParseSimpleIndex(b, pos, s.packets);
      && (r.Ok? <==> si.Ok?)
      && (r.Ok? ==> r.value == (si.value, After(b, After(b, pos, 56), 6 * si.value.entryCount)))
  {
    match AsfIndex.ParseSimpleIndex(b, pos, s.packets)
    case Ok(si) => Ok((si, After(b, After(b, pos, 56), 6 * si.entryCount)))
    case Err(e) => Err(InvalidIndex(e))
  }

  /** The Header Object constructor; the stream is left after its 30-byte struct. */
  function HeaderBodyAt(b: seq<u8>, pos: nat): (r: Result<(Body, nat), ObjectError>)
    ensures r.Ok? ==> Writable(r.value.0)
  {
    Ok((HeaderBody(ParseFileHeader(b, pos)), After(b, pos, 30)))
  }

  function ContentDescriptionBodyAt(b: seq<u8>, pos: nat): (r: Result<(Body, nat), ObjectError>)
    ensures r.Ok? ==> Writable(r.value.0)
  {
    var parsed := CD.ParseContent(b, pos);
    Ok((ContentDescriptionBody(parsed), parsed.end))
  }

  function HeaderExtensionBodyAt(b: seq<u8>, pos: nat): (r: Result<(Body, nat), ObjectError>)
    ensures r.Ok? ==> Writable(r.value.0)
  {
    var (fields, end) := ParseHeaderExtension(b, pos);
    Ok((HeaderExtensionBody(fields), end))
  }

  /** The File Properties constructor; the stream is left after its 104-byte struct. */
  function FilePropertiesBodyAt(b: seq<u8>, pos: nat): (r: Result<(Body, nat), ObjectError>)
    ensures r.Ok? ==> Writable(r.value.0)
  {
    var p := FP.Parse(b, pos);
    if p.Ok? then Ok((FilePropertiesBody(p.value), After(b, pos, 104))) else Err(InvalidFileProperties(p.error))
  }

  function StreamBitrateBodyAt(b: seq<u8>, pos: nat): (r: Result<(Body, nat), ObjectError>)
    ensures r.Ok? ==> Writable(r.value.0)
  {
    var (m, end) :- DecodeStreamBitrate(b, pos);
    Ok((StreamBitrateBody(m), end))
  }

  function StreamPropertiesBodyAt(b: seq<u8>, pos: nat): (r: Result<(Body, nat), ObjectError>)
    ensures r.Ok? ==> Writable(r.value.0)
  {
    var (sp, end) :- ParseStreamProperties(b, pos);
    Ok((StreamPropertiesBody(sp), end))
  }

  function DataBodyAt(b: seq<u8>, pos: nat, packetSize: u32): (r: Result<(Body, nat), ObjectError>)
    ensures r.Ok? ==> Writable(r.value.0)
  {
    var (d, end) :- DecodeData(b, pos, packetSize);
    Ok((DataBody(d), end))
  }

  function IndexBodyAt(b: seq<u8>, pos: nat, s: Settings): (r: Result<(Body, nat), ObjectError>)
    ensures r.Ok? ==> Writable(r.value.0)
  {
    var (ix, end) :- DecodeIndex(b, pos, s);
    Ok((IndexBody(ix), end))
  }

  function SimpleIndexBodyAt(b: seq<u8>, pos: nat, s: Settings): (r: Result<(Body, nat), ObjectError>)
    ensures r.Ok? ==> Writable(r.value.0)
  {
    var (si, end) :- DecodeSimpleIndex(b, pos, s);
    Ok((SimpleIndexBody(si), end))
  }

  // ------------------------------------------------ Extended Stream Properties

  /** The Extended Stream Properties struct, up to and with its two record counts. */
  const ESP_STRUCT_SIZE: nat := 88
  /** A payload extension system's struct: its id, data size and info length. */
  const PAYLOAD_EXTENSION_SIZE: nat := 22
  /** The two payload extension systems whose two-byte info the constructor reads. */
  const PIXEL_ASPECT_RATIO: Guid := Guid(0x1B1EE554, 0xF9EA, 0x4BC8, [0x82, 0x1A, 0x37, 0x6B, 0x74, 0xE4, 0xC4, 0xB8])
  const SAMPLE_DURATION: Guid := Guid(0xC6BD9450, 0x867F, 0x4907, [0x83, 0xA3, 0xC7, 0x79, 0x21, 0xB7, 0x33, 0xAD])

  /**
   * Where `count` stream names from `pos` leave the stream: each is a two-byte language
   * index, a two-byte length and that many bytes of name. The names are kept by language
   * index, so an index already in `seen` fails; a record running past the end of the file
   * is truncated.
   */
  function StreamNamesEnd(b: seq<u8>, pos: nat, count: nat, seen: set<nat>): (r: Result<nat, ObjectError>)
    ensures r.Ok? ==> pos + 4 * count <= r.value <= |b|
    ensures r.Err? ==> r.error == Truncated || r.error.DuplicateStreamName?
    ensures count > 0 && pos + 4 <= |b| && ReadLE(b, pos, 2) in seen ==> r == Err(DuplicateStreamName(ReadLE(b, pos, 2)))
    decreases count
  {
    if count == 0 then (if pos <= |b| then Ok(pos) else Err(Truncated))
    else if pos + 4 > |b| then Err(Truncated)
    else if ReadLE(b, pos, 2) in seen then Err(DuplicateStreamName(ReadLE(b, pos, 2)))
    else
      var next := pos + 4 + ReadLE(b, pos + 2, 2);
      if next > |b| then Err(Truncated) else StreamNamesEnd(b, next, count - 1, seen + {ReadLE(b, pos, 2)})
  }

  /** The bytes of info the constructor reads after a payload extension system's struct. */
  function ExtensionInfoRead(id: Guid, infoLength: nat): (n: nat)
    ensures n == 0 || n == 2
    ensures n == 2 <==> (id == PIXEL_ASPECT_RATIO || id == SAMPLE_DURATION) && infoLength == 2
  {
    if (id == PIXEL_ASPECT_RATIO || id == SAMPLE_DURATION) && infoLength == 2 then 2 else 0
  }

  /**
   * Where `count` payload extension systems from `pos` leave the stream: each struct, then
   * two bytes of info for the pixel aspect ratio and sample duration systems whose info
   * length is 2; every other info is left unread.
   */
  function PayloadExtensionsEnd(b: seq<u8>, pos: nat, count: nat): (r: Result<nat, ObjectError>)
    ensures r.Ok? ==> pos + PAYLOAD_EXTENSION_SIZE * count <= r.value <= |b|
    ensures r.Err? ==> r.error == Truncated
    decreases count
  {
    if count == 0 then (if pos <= |b| then Ok(pos) else Err(Truncated))
    else if pos + PAYLOAD_EXTENSION_SIZE > |b| then Err(Truncated)
    else
      var next := pos + PAYLOAD_EXTENSION_SIZE + ExtensionInfoRead(ToGuid(b, pos), ReadLE(b, pos + 18, 4));
      if next > |b| then Err(Truncated) else PayloadExtensionsEnd(b, next, count - 1)
  }

  /**
   * Where the Extended Stream Properties constructor leaves the stream: after its struct,
   * its stream names and its payload extension systems. A Stream Properties Object
   * embedded after them is not skipped, so the header walk reads it next.
   */
  function ExtendedStreamPropertiesEnd(b: seq<u8>, pos: nat): (r: Result<nat, ObjectError>)
    ensures r.Ok? ==> pos + ESP_STRUCT_SIZE <= r.value <= |b|
    ensures r.Ok? ==> r.value >= pos + ESP_STRUCT_SIZE + 4 * ReadLE(b, pos + 84, 2)
                                   + PAYLOAD_EXTENSION_SIZE * ReadLE(b, pos + 86, 2)
    ensures pos + ESP_STRUCT_SIZE > |b| ==> r == Err(Truncated)
  {
    if pos + ESP_STRUCT_SIZE > |b| then Err(Truncated)
    else
      var names :- StreamNamesEnd(b, pos + ESP_STRUCT_SIZE, ReadLE(b, pos + 84, 2), {});
      PayloadExtensionsEnd(b, names, ReadLE(b, pos + 86, 2))
  }

  function ExtendedStreamPropertiesBodyAt(b: seq<u8>, pos: nat): (r: Result<(Body, nat), ObjectError>)
    ensures r.Ok? ==> Writable(r.value.0)
  {
    var end :- ExtendedStreamPropertiesEnd(b, pos);
    Ok((SkippedBody(ExtendedStreamPropertiesType), end))
  }

  /**
   * The decoding half of the factory for an object of type `kind` at `pos`: the body, of
   * that kind, and where the constructor leaves the stream. It reads the configured packet
   * size and the packets decoded so far. The Extended Stream Properties Object ends where its
   * records end. Every other kind without a decoder here, and an unknown id, ends where
   * its size says.
   */
  function DecodeBody(b: seq<u8>, pos: nat, size: nat, kind: ObjectType, s: Settings): (r: Result<(Body, nat), ObjectError>)
    ensures r.Ok? ==> Writable(r.value.0)
  {
    match kind
    case HeaderType => HeaderBodyAt(b, pos)
    case FilePropertiesType => FilePropertiesBodyAt(b, pos)
    case ContentDescriptionType => ContentDescriptionBodyAt(b, pos)
    case StreamBitratePropertiesType => StreamBitrateBodyAt(b, pos)
    case StreamPropertiesType => StreamPropertiesBodyAt(b, pos)
    case HeaderExtensionType => HeaderExtensionBodyAt(b, pos)
    case DataType => DataBodyAt(b, pos, s.asfPacketSize)
    case IndexType => IndexBodyAt(b, pos, s)
    case SimpleIndexType => SimpleIndexBodyAt(b, pos, s)
    case ExtendedStreamPropertiesType => ExtendedStreamPropertiesBodyAt(b, pos)
    case _ => Ok((SkippedBody(kind), pos + size))
  }

  /** The configuration updates of a decoded body; kinds not listed change nothing. */
  function Applied(body: Body, size: nat, s: Settings): (r: Settings)
    ensures body.HeaderBody? ==> r == s.(asfPacketHeaderSize := body.header.headerSize)
    ensures body.SimpleIndexBody? ==> r == s.(asfIndexSize := Wrap32(size))
    ensures (|| body.ContentDescriptionBody? || body.StreamBitrateBody? || body.HeaderExtensionBody?
             || body.IndexBody? || body.SkippedBody?) ==> r == s
  {
    match body
    case HeaderBody(h) => s.(asfPacketHeaderSize := h.headerSize)
    case FilePropertiesBody(p) => FP.Applied(p, s)
    case StreamPropertiesBody(sp) => StreamApplied(sp, s)
    case DataBody(d) => DataApplied(d, s)
    case SimpleIndexBody(_) => s.(asfIndexSize := Wrap32(size))
    case _ => s
  }

  /**
   * The factory for the object at `pos`: the base object, the constructor its id selects,
   * where the stream is left, and the configuration afterwards.
   */
  function Create(b: seq<u8>, pos: nat, s: Settings): (r: Result<(AsfObject, nat, Settings), ObjectError>)
    ensures ReadBase(b, pos).Err? ==> r.Err?
    ensures r.Ok? ==> var (o, end, s') := r.value;
      && ReadBase(b, pos) == Ok(o.base)
      && DecodeBody(b, pos, o.base.size, ObjectTypeOf(o.base.id), s) == Ok((o.body, end))
      && s' == Applied(o.body, o.base.size, s)
  {
    var base :- ReadBase(b, pos);
    var decoded :- DecodeBody(b, pos, base.size, ObjectTypeOf(base.id), s);
    var (body, end) := decoded;
    Ok((AsfObject(base, body), end, Applied(body, base.size, s)))
  }

  /** `Applied` on the configuration object: the object's updates and nothing else. */
  method ApplyToConfiguration(body: Body, size: nat, config: AsfFileConfiguration)
    modifies config
    ensures config.Snapshot() == Applied(body, size, old(config.Snapshot()))
  {
    match body {
      case HeaderBody(h) =>
        config.asfPacketHeaderSize := h.headerSize;
      case FilePropertiesBody(p) =>
        FP.ApplyToConfiguration(p, config);
      case StreamPropertiesBody(sp) =>
        ApplyStream(sp, config);
      case DataBody(d) =>
        config.asfHeaderSize := d.headerSize;
        config.asfPacketCount := Wrap32(NumField(d.fields, DO_TOTAL_PACKETS));
        config.packets := d.packets;
      case SimpleIndexBody(_) =>
        config.asfIndexSize := Wrap32(size);
      case _ =>
    }
  }

  /** The Stream Properties Object's part of `ApplyToConfiguration`. */
  method ApplyStream(sp: StreamProperties, config: AsfFileConfiguration)
    modifies config
    ensures config.Snapshot() == StreamApplied(sp, old(config.Snapshot()))
  {
    match sp.media {
      case AudioMedia(audio) =>
        config.asfAudioStreamId := sp.streamNumber;
        config.audioChannels := NumField(audio, AUDIO_CHANNELS) % 0x1_0000;
        config.audioSampleRate := Wrap32(NumField(audio, AUDIO_SAMPLE_RATE));
        config.audioBitsPerSample := NumField(audio, AUDIO_BITS_PER_SAMPLE) % 0x1_0000;
      case VideoMedia(_, format, _) =>
        config.asfVideoStreamId := sp.streamNumber;
        config.imageWidth := ToInt32(NumField(format, VF_IMAGE_WIDTH));
        config.imageHeight := ToInt32(NumField(format, VF_IMAGE_HEIGHT));
      case OtherMedia =>
    }
  }

  /** `CreateAsfObject`: the object at `pos`, the stream position after it, the configuration updated. */
  method CreateAsfObject(b: seq<u8>, pos: nat, config: AsfFileConfiguration) returns (r: Result<(AsfObject, nat), ObjectError>)
    modifies config
    ensures var c := Create(b, pos, old(config.Snapshot()));
      && (r.Ok? <==> c.Ok?)
      && (r.Err? ==> r.error == c.error && config.Snapshot() == old(config.Snapshot()))
      && (r.Ok? ==> r.value == (c.value.0, c.value.1) && config.Snapshot() == c.value.2)
  {
    var c := Create(b, pos, config.Snapshot());
    if c.Err? {
      return Err(c.error);
    }
    var (o, end, _) := c.value;
    ApplyToConfiguration(o.body, o.base.size, config);
    return Ok((o, end));
  }

  // ------------------------------------------------------------ writing back

  /**
   * `GetLength`: the struct size for the kinds that write only their struct, the strings'
   * stored length for the Content Description, the bytes kept for every other kind.
   */
  function Length(o: AsfObject): (n: nat)
    ensures o.body.HeaderBody? ==> n == 30
    ensures o.body.HeaderExtensionBody? ==> n == 46
    ensures o.body.DataBody? ==> n == 50
    ensures !(o.body.HeaderBody? || o.body.HeaderExtensionBody? || o.body.DataBody? || o.body.ContentDescriptionBody?)
            ==> n == |o.base.rawData|
  {
    FileHeaderSize();
    HeaderExtensionSize();
    DataObjectSize();
    match o.body
    case HeaderBody(_) => Size(FILE_HEADER)
    case HeaderExtensionBody(_) => Size(HEADER_EXTENSION)
    case DataBody(_) => Size(DATA_OBJECT)
    case ContentDescriptionBody(parsed) => CD.ContentLength(parsed.content)
    case _ => |o.base.rawData|
  }

  datatype WriteError = ContentTooLong | PropertiesTooShort

  /** A writer's result with its error replaced by `e`. */
  function WriteFailure<E>(r: Result<seq<u8>, E>, e: WriteError): (w: Result<seq<u8>, WriteError>)
    ensures w.Ok? <==> r.Ok?
    ensures w.Ok? ==> w.value == r.value
  {
    if r.Ok? then Ok(r.value) else Err(e)
  }

  /**
   * `Serialize`, with the configured packet size: the struct alone for the Header, Header
   * Extension and Data Objects (the Header with its recorded header size), the rewritten
   * bytes for File Properties and Content Description, the bytes kept for every other kind.
   */
  function Serialize(o: AsfObject, packetSize: u32): (r: Result<seq<u8>, WriteError>)
    requires Writable(o.body)
    ensures r.Ok? ==> |r.value| == Length(o)
    ensures r.Err? <==> (o.body.ContentDescriptionBody? && !CD.LengthsFit(o.body.description.content))
                        || (o.body.FilePropertiesBody? && |o.base.rawData| < Size(FILE_PROPERTIES))
  {
    FileHeaderSize();
    HeaderExtensionSize();
    DataObjectSize();
    match o.body
    case HeaderBody(h) => Ok(Encode(FILE_HEADER, StoredFileHeader(h)))
    case HeaderExtensionBody(fields) => Ok(Encode(HEADER_EXTENSION, fields))
    case DataBody(d) => Ok(Encode(DATA_OBJECT, d.fields))
    case ContentDescriptionBody(parsed) => WriteFailure(CD.Serialize(parsed.header, parsed.content), ContentTooLong)
    case FilePropertiesBody(p) => WriteFailure(FP.Serialize(o.base.rawData, p, packetSize), PropertiesTooShort)
    case _ => Ok(o.base.rawData)
  }
}

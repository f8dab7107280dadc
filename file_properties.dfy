/**
 * The File Properties Object: the file id and size, the creation time, the packet
 * count and sizes, and the broadcast and seekable flags. Times are DateTime ticks
 * (100 ns units counted from 0001-01-01).
 */
module FileProperties {
  import opened Bytes
  import opened Wrappers
  import opened AsfStruct
  import opened AsfGuids
  import Configuration

  /** The ticks of 1601-01-01 00:00 UTC, where the stored creation date counts from. */
  const EPOCH_TICKS: nat := 504911232000000000
  /** The largest tick count a DateTime holds (the last tick of 9999-12-31). */
  const MAX_TICKS: nat := 3155378975999999999

  const TWO_TO_63: int := 0x8000_0000_0000_0000
  const TWO_TO_64: int := 0x1_0000_0000_0000_0000

  /** A DateTime, as its tick count. */
  type Ticks = t: nat | t <= MAX_TICKS

  datatype PropertiesError =
    | CreationTimeOutOfRange   // AddTicks left the DateTime range
    | RawDataTooShort          // the struct does not fit the fixed-size raw buffer

  /** `(long)x` for an unsigned 64-bit x: the same bits read as two's complement. */
  function ToInt64(x: u64): (r: int)
    ensures -TWO_TO_63 <= r < TWO_TO_63
    ensures Wrap64(r) == x
  {
    if x < TWO_TO_63 then x else x - TWO_TO_64
  }

  /**
   * The constructor's creation time: 1601-01-01 plus the stored date read as a signed
   * tick count. It fails exactly when that leaves the DateTime range, and a stored date
   * with the top bit set is a time before 1601.
   */
  function CreationTimeOf(creationDate: u64): (r: Result<Ticks, PropertiesError>)
    ensures r.Ok? <==> creationDate <= MAX_TICKS - EPOCH_TICKS || creationDate >= TWO_TO_64 - EPOCH_TICKS
    ensures r.Ok? ==> (r.value >= EPOCH_TICKS <==> creationDate < TWO_TO_63)
  {
    var t := EPOCH_TICKS + ToInt64(creationDate);
    if 0 <= t <= MAX_TICKS then Ok(t) else Err(CreationTimeOutOfRange)
  }

  /** What `Serialize` stores: the ticks since 1601 as a signed number, cast to unsigned. */
  function CreationDateOf(t: Ticks): (r: u64)
    ensures t >= EPOCH_TICKS ==> r == t - EPOCH_TICKS
    ensures t < EPOCH_TICKS ==> r >= TWO_TO_63
  {
    Wrap64(t - EPOCH_TICKS)
  }

  /** Every creation time survives being stored and read back. */
  lemma CreationTimeRoundTrip(t: Ticks)
    ensures CreationTimeOf(CreationDateOf(t)) == Ok(t)
  {
    var d := CreationDateOf(t);
    if t < EPOCH_TICKS {
      assert d == t - EPOCH_TICKS + TWO_TO_64;
      assert ToInt64(d) == t - EPOCH_TICKS;
    }
  }

  /** Every stored date the constructor accepts is stored back unchanged. */
  lemma CreationDateRoundTrip(d: u64)
    requires CreationTimeOf(d).Ok?
    ensures CreationDateOf(CreationTimeOf(d).value) == d
  {
    var t := CreationTimeOf(d).value;
    if d >= TWO_TO_63 {
      assert t == EPOCH_TICKS + d - TWO_TO_64;
      assert t - EPOCH_TICKS + TWO_TO_64 == d;
    }
  }

  /** The flags `Serialize` rebuilds: bit 0 for broadcast, bit 1 for seekable, nothing else. */
  function FlagsOf(isBroadcast: bool, isSeekable: bool): (r: u32)
    ensures r < 4
    ensures HasBit(r, 1) <==> isBroadcast
    ensures HasBit(r, 2) <==> isSeekable
  {
    (if isBroadcast then 1 else 0) + (if isSeekable then 2 else 0)
  }

  /** Rebuilding the flags from the two decoded bits keeps those bits and clears the others. */
  lemma FlagsRebuilt(flags: u32)
    ensures FlagsOf(HasBit(flags, 1), HasBit(flags, 2)) == flags % 4
  {
    var q := flags / 4;
    var low := flags % 4;
    assert flags == 4 * q + low;
    assert flags / 2 == 2 * q + low / 2;
    assert (flags / 2) % 2 == low / 2;
    assert flags % 2 == low % 2;
  }

  /** The decoded object: the struct as read plus the properties the object exposes. */
  datatype FileProperties = FileProperties(
    fields: seq<FieldValue>,
    fileId: Guid,
    fileSize: u64,
    creationTime: Ticks,
    packetCount: u64,
    playDuration: u64,
    sendDuration: u64,
    preroll: u64,
    flags: u32,
    minPacketSize: u32,
    maxPacketSize: u32,
    maxBitRate: u32,
    isBroadcast: bool,
    isSeekable: bool)

  /** The structure the rest of the model relies on: a whole struct and a 16-byte file id. */
  predicate WellFormed(p: FileProperties)
  {
    Fits(FILE_PROPERTIES, p.fields) && |p.fileId.data4| == 8
  }

  /** The numeric fields of a File Properties struct, each within its width. */
  lemma FieldRanges(fields: seq<FieldValue>)
    requires Fits(FILE_PROPERTIES, fields)
    ensures fields[FP_FILE_SIZE].NumValue? && fields[FP_FILE_SIZE].n < TWO_TO_64
    ensures fields[FP_CREATION_DATE].NumValue? && fields[FP_CREATION_DATE].n < TWO_TO_64
    ensures fields[FP_PACKET_COUNT].NumValue? && fields[FP_PACKET_COUNT].n < TWO_TO_64
    ensures fields[6].NumValue? && fields[6].n < TWO_TO_64
    ensures fields[7].NumValue? && fields[7].n < TWO_TO_64
    ensures fields[FP_PREROLL].NumValue? && fields[FP_PREROLL].n < TWO_TO_64
    ensures fields[FP_FLAGS].NumValue? && fields[FP_FLAGS].n < 0x1_0000_0000
    ensures fields[10].NumValue? && fields[10].n < 0x1_0000_0000
    ensures fields[FP_MAX_PACKET_SIZE].NumValue? && fields[FP_MAX_PACKET_SIZE].n < 0x1_0000_0000
    ensures fields[FP_MAX_BITRATE].NumValue? && fields[FP_MAX_BITRATE].n < 0x1_0000_0000
    ensures fields[FP_FILE_ID].RawValue? && |fields[FP_FILE_ID].bytes| == 16
  {
    Pow256Widths();
    assert FitsField(FILE_PROPERTIES[3], fields[3]) && FitsField(FILE_PROPERTIES[4], fields[4]);
    assert FitsField(FILE_PROPERTIES[5], fields[5]) && FitsField(FILE_PROPERTIES[6], fields[6]);
    assert FitsField(FILE_PROPERTIES[7], fields[7]) && FitsField(FILE_PROPERTIES[8], fields[8]);
    assert FitsField(FILE_PROPERTIES[9], fields[9]) && FitsField(FILE_PROPERTIES[10], fields[10]);
    assert FitsField(FILE_PROPERTIES[11], fields[11]) && FitsField(FILE_PROPERTIES[12], fields[12]);
    assert FitsField(FILE_PROPERTIES[2], fields[2]);
  }

  /** The properties of a struct whose creation date is in range. */
  function FromFields(fields: seq<FieldValue>, creationTime: Ticks): (p: FileProperties)
    requires Fits(FILE_PROPERTIES, fields)
    ensures WellFormed(p) && p.fields == fields && p.creationTime == creationTime
    ensures p.isBroadcast <==> HasBit(p.flags, 1)
    ensures p.isSeekable <==> HasBit(p.flags, 2)
  {
    FieldRanges(fields);
    var flags := fields[FP_FLAGS].n;
    FileProperties(
      fields,
      ToGuid(fields[FP_FILE_ID].bytes, 0),
      fields[FP_FILE_SIZE].n,
      creationTime,
      fields[FP_PACKET_COUNT].n,
      fields[6].n,
      fields[7].n,
      fields[FP_PREROLL].n,
      flags,
      fields[10].n,
      fields[FP_MAX_PACKET_SIZE].n,
      fields[FP_MAX_BITRATE].n,
      HasBit(flags, 1),
      HasBit(flags, 2))
  }

  /**
   * The constructor: the struct at `pos`, zeros past the end of the file; it fails
   * exactly when the creation date is out of the DateTime range.
   */
  function Parse(b: seq<u8>, pos: nat): (r: Result<FileProperties, PropertiesError>)
    ensures var fields := ReadStruct(FILE_PROPERTIES, b, pos);
      && (r.Ok? <==> CreationTimeOf(StoredCreationDate(fields)).Ok?)
      && (r.Ok? ==> WellFormed(r.value) && r.value.fields == fields)
  {
    var fields := ReadStruct(FILE_PROPERTIES, b, pos);
    var t :- CreationTimeOf(StoredCreationDate(fields));
    Ok(FromFields(fields, t))
  }

  /** The stored creation date of a File Properties struct. */
  function StoredCreationDate(fields: seq<FieldValue>): u64
    requires Fits(FILE_PROPERTIES, fields)
  {
    FieldRanges(fields);
    fields[FP_CREATION_DATE].n
  }

  /** The struct `Serialize` writes: the exposed properties put back, the packet size from the configuration. */
  function SerializedFields(p: FileProperties, packetSize: u32): (r: seq<FieldValue>)
    requires WellFormed(p)
    ensures Fits(FILE_PROPERTIES, r)
  {
    Pow256Widths();
    FieldRanges(p.fields);
    var r := p.fields[FP_CREATION_DATE := NumValue(CreationDateOf(p.creationTime))]
                     [FP_PACKET_COUNT := NumValue(p.packetCount)]
                     [FP_FILE_ID := RawValue(GuidBytes(p.fileId))]
                     [FP_FILE_SIZE := NumValue(p.fileSize)]
                     [FP_FLAGS := NumValue(FlagsOf(p.isBroadcast, p.isSeekable))]
                     [FP_MAX_BITRATE := NumValue(p.maxBitRate)]
                     [FP_MAX_PACKET_SIZE := NumValue(packetSize)];
    assert forall i :: 0 <= i < |FILE_PROPERTIES| ==> FitsField(FILE_PROPERTIES[i], r[i]);
    r
  }

  /**
   * `Serialize`: the struct is written over the start of the object's raw bytes, which
   * cannot grow; the raw bytes after the struct are written out as they were read.
   */
  function Serialize(rawData: seq<u8>, p: FileProperties, packetSize: u32): (r: Result<seq<u8>, PropertiesError>)
    requires WellFormed(p)
    ensures r.Ok? <==> |rawData| >= Size(FILE_PROPERTIES)
    ensures r.Ok? ==> |r.value| == |rawData| && r.value[Size(FILE_PROPERTIES)..] == rawData[Size(FILE_PROPERTIES)..]
  {
    var e := Encode(FILE_PROPERTIES, SerializedFields(p, packetSize));
    if |rawData| < |e| then Err(RawDataTooShort)
    else
      PatchFront(rawData, e);
      Ok(Patch(rawData, 0, e))
  }

  /** A patch at the front is the patch followed by the untouched tail. */
  lemma PatchFront(s: seq<u8>, w: seq<u8>)
    requires |w| <= |s|
    ensures Patch(s, 0, w) == w + s[|w|..]
  {
  }

  /**
   * Reading back what `Serialize` wrote, wherever it sits in the file, gives the same
   * creation time, file id, size, packet count, bit rate and flag bits, and the packet
   * size of the configuration.
   */
  lemma SerializeRoundTrip(rawData: seq<u8>, p: FileProperties, packetSize: u32, pre: seq<u8>, post: seq<u8>)
    requires WellFormed(p) && Serialize(rawData, p, packetSize).Ok?
    ensures var q := Parse(pre + Serialize(rawData, p, packetSize).value + post, |pre|);
      && q.Ok?
      && q.value.fields == SerializedFields(p, packetSize)
      && q.value.creationTime == p.creationTime
      && q.value.fileId == p.fileId && q.value.fileSize == p.fileSize
      && q.value.packetCount == p.packetCount && q.value.maxBitRate == p.maxBitRate
      && q.value.maxPacketSize == packetSize
      && q.value.isBroadcast == p.isBroadcast && q.value.isSeekable == p.isSeekable
  {
    var b := pre + Serialize(rawData, p, packetSize).value + post;
    SerializedStruct(rawData, p, packetSize, pre, post);
    ParseSerialized(b, |pre|, p, packetSize);
  }

  /** Parsing a struct holding the fields `Serialize` sets gives back the properties. */
  lemma ParseSerialized(b: seq<u8>, pos: nat, p: FileProperties, packetSize: u32)
    requires WellFormed(p) && ReadStruct(FILE_PROPERTIES, b, pos) == SerializedFields(p, packetSize)
    ensures var q := Parse(b, pos);
      && q.Ok?
      && q.value.fields == SerializedFields(p, packetSize)
      && q.value.creationTime == p.creationTime
      && q.value.fileId == p.fileId && q.value.fileSize == p.fileSize
      && q.value.packetCount == p.packetCount && q.value.maxBitRate == p.maxBitRate
      && q.value.maxPacketSize == packetSize
      && q.value.isBroadcast == p.isBroadcast && q.value.isSeekable == p.isSeekable
  {
    var values := SerializedFields(p, packetSize);
    SerializedValues(p, packetSize);
    CreationTimeRoundTrip(p.creationTime);
    assert Parse(b, pos) == Ok(FromFields(values, p.creationTime));
    ToGuidBytes(p.fileId);
  }

  /** The struct at the front of what `Serialize` wrote reads back as the fields it set. */
  lemma SerializedStruct(rawData: seq<u8>, p: FileProperties, packetSize: u32, pre: seq<u8>, post: seq<u8>)
    requires WellFormed(p) && Serialize(rawData, p, packetSize).Ok?
    ensures ReadStruct(FILE_PROPERTIES, pre + Serialize(rawData, p, packetSize).value + post, |pre|)
         == SerializedFields(p, packetSize)
  {
    var values := SerializedFields(p, packetSize);
    var e := Encode(FILE_PROPERTIES, values);
    var tail := rawData[|e|..];
    var out := Serialize(rawData, p, packetSize).value;
    assert out == Patch(rawData, 0, e);
    PatchFront(rawData, e);
    assert out == e + tail;
    Regroup(pre, e, tail, post);
    ReadStructEncoded(FILE_PROPERTIES, values, pre, tail + post);
  }

  /** The fields `Serialize` sets, each holding its property. */
  lemma SerializedValues(p: FileProperties, packetSize: u32)
    requires WellFormed(p)
    ensures var r := SerializedFields(p, packetSize);
      && r[FP_CREATION_DATE] == NumValue(CreationDateOf(p.creationTime))
      && r[FP_PACKET_COUNT] == NumValue(p.packetCount)
      && r[FP_FILE_ID] == RawValue(GuidBytes(p.fileId))
      && r[FP_FILE_SIZE] == NumValue(p.fileSize)
      && r[FP_FLAGS] == NumValue(FlagsOf(p.isBroadcast, p.isSeekable))
      && r[FP_MAX_BITRATE] == NumValue(p.maxBitRate)
      && r[FP_MAX_PACKET_SIZE] == NumValue(packetSize)
      && StoredCreationDate(r) == CreationDateOf(p.creationTime)
  {
  }

  /**
   * The constructor's configuration updates: packet size, preroll and packet count (both
   * cast to 32 bits) and maximum bit rate; nothing else.
   */
  function Applied(p: FileProperties, s: Configuration.Settings): (r: Configuration.Settings)
    ensures r.asfPacketSize == p.maxPacketSize && r.asfBitRate == p.maxBitRate
    ensures r.asfPreroll == p.preroll % 0x1_0000_0000 && r.asfPacketCount == p.packetCount % 0x1_0000_0000
    ensures r.(asfPacketSize := s.asfPacketSize, asfPreroll := s.asfPreroll,
               asfPacketCount := s.asfPacketCount, asfBitRate := s.asfBitRate) == s
  {
    s.(asfPacketSize := p.maxPacketSize, asfPreroll := Wrap32(p.preroll),
       asfPacketCount := Wrap32(p.packetCount), asfBitRate := p.maxBitRate)
  }

  /** `Applied`, on the configuration object. */
  method ApplyToConfiguration(p: FileProperties, config: Configuration.AsfFileConfiguration)
    modifies config`asfPacketSize, config`asfPreroll, config`asfPacketCount, config`asfBitRate
    ensures config.Snapshot() == Applied(p, old(config.Snapshot()))
  {
    config.asfPacketSize := p.maxPacketSize;
    config.asfPreroll := Wrap32(p.preroll);
    config.asfPacketCount := Wrap32(p.packetCount);
    config.asfBitRate := p.maxBitRate;
  }
}

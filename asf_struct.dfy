// The packed byte layouts of the ASF header objects. Every layout is sequential with no
// padding, so a struct is the concatenation of its fields: GUIDs and reserved arrays as raw
// bytes, integers as unsigned little-endian numbers.

module AsfStruct {
  import opened Bytes

  datatype FieldKind =
    | Raw(rawWidth: nat)   // a fixed-size byte array (a GUID, a reserved block)
    | Num(numWidth: nat)   // an unsigned little-endian integer

  datatype FieldValue = RawValue(bytes: seq<u8>) | NumValue(n: nat)

  type Layout = seq<FieldKind>

  function Width(k: FieldKind): nat
  {
    match k
    case Raw(w) => w
    case Num(w) => w
  }

  /** The size of a packed struct: the plain sum of its field widths. */
  function Size(layout: Layout): nat
  {
    if |layout| == 0 then 0 else Width(layout[0]) + Size(layout[1..])
  }

  /** The byte offset of field i: the size of the fields before it. */
  function Offset(layout: Layout, i: nat): nat
    requires i <= |layout|
  {
    Size(layout[..i])
  }

  predicate FitsField(k: FieldKind, v: FieldValue)
  {
    match k
    case Raw(w) => v.RawValue? && |v.bytes| == w
    case Num(w) => v.NumValue? && v.n < Pow256(w)
  }

  /** The values can be stored in the layout: one per field, each of the field's kind and width. */
  predicate Fits(layout: Layout, values: seq<FieldValue>)
  {
    |values| == |layout| && forall i :: 0 <= i < |layout| ==> FitsField(layout[i], values[i])
  }

  /** The number in field i, or 0 when there is no such number. */
  function NumField(values: seq<FieldValue>, i: nat): nat
  {
    if i < |values| && values[i].NumValue? then values[i].n else 0
  }

  function EncodeField(k: FieldKind, v: FieldValue): (r: seq<u8>)
    requires FitsField(k, v)
    ensures |r| == Width(k)
  {
    match k
    case Raw(w) => v.bytes
    case Num(w) => EncodeLE(v.n, w)
  }

  /** The bytes of a struct: its fields' bytes one after another. */
  function Encode(layout: Layout, values: seq<FieldValue>): (r: seq<u8>)
    requires Fits(layout, values)
    ensures |r| == Size(layout)
  {
    if |layout| == 0 then []
    else EncodeField(layout[0], values[0]) + Encode(layout[1..], values[1..])
  }

  function DecodeField(k: FieldKind, b: seq<u8>, off: nat): (r: FieldValue)
    requires off + Width(k) <= |b|
    ensures FitsField(k, r)
  {
    match k
    case Raw(w) => RawValue(b[off..off + w])
    case Num(w) => NumValue(ReadLE(b, off, w))
  }

  /** The struct stored at `off`: each field read from its own slice, in order. */
  function Decode(layout: Layout, b: seq<u8>, off: nat): (r: seq<FieldValue>)
    requires off + Size(layout) <= |b|
    ensures Fits(layout, r)
    decreases |layout|
  {
    if |layout| == 0 then []
    else [DecodeField(layout[0], b, off)] + Decode(layout[1..], b, off + Width(layout[0]))
  }

  /** A stored field reads back as the value written, wherever the struct sits. */
  lemma DecodeEncodeField(k: FieldKind, v: FieldValue, pre: seq<u8>, post: seq<u8>)
    requires FitsField(k, v)
    ensures DecodeField(k, pre + EncodeField(k, v) + post, |pre|) == v
  {
    var e := EncodeField(k, v);
    var b := pre + e + post;
    assert b[|pre|..|pre| + |e|] == e;
    if k.Num? {
      ReadSlice(b, |pre|, k.numWidth);
      ReadEncode(v.n, k.numWidth);
    }
  }

  /** The values after the first fit the layout after the first field. */
  lemma FitsTail(layout: Layout, values: seq<FieldValue>)
    requires Fits(layout, values) && |layout| > 0
    ensures Fits(layout[1..], values[1..])
  {
    forall i | 0 <= i < |layout| - 1 ensures FitsField(layout[1..][i], values[1..][i]) {
      assert FitsField(layout[i + 1], values[i + 1]);
    }
  }

  /** The first field and the rest of a stored struct. */
  lemma DecodeCons(layout: Layout, b: seq<u8>, off: nat)
    requires off + Size(layout) <= |b| && |layout| > 0
    ensures Decode(layout, b, off)[0] == DecodeField(layout[0], b, off)
    ensures Decode(layout, b, off)[1..] == Decode(layout[1..], b, off + Width(layout[0]))
  {
  }

  lemma Regroup(pre: seq<u8>, e0: seq<u8>, rest: seq<u8>, post: seq<u8>)
    ensures pre + (e0 + rest) + post == pre + e0 + (rest + post)
    ensures pre + (e0 + rest) + post == (pre + e0) + rest + post
  {
  }

  /** Reading a struct back from its bytes gives the stored values, wherever it sits. */
  lemma {:induction false} DecodeEncode(layout: Layout, values: seq<FieldValue>, pre: seq<u8>, post: seq<u8>)
    requires Fits(layout, values)
    ensures Decode(layout, pre + Encode(layout, values) + post, |pre|) == values
    decreases |layout|
  {
    if |layout| > 0 {
      FitsTail(layout, values);
      var e0 := EncodeField(layout[0], values[0]);
      var rest := Encode(layout[1..], values[1..]);
      assert Encode(layout, values) == e0 + rest;
      Regroup(pre, e0, rest, post);
      var b := pre + (e0 + rest) + post;
      DecodeEncodeField(layout[0], values[0], pre, rest + post);
      DecodeEncode(layout[1..], values[1..], pre + e0, post);
      DecodeCons(layout, b, |pre|);
      var d := Decode(layout, b, |pre|);
      assert |e0| == Width(layout[0]);
      assert d[0] == values[0] && d[1..] == values[1..];
      assert d == [d[0]] + d[1..];
      assert values == [values[0]] + values[1..];
    }
  }

  /** Writing back what was read reproduces the struct's bytes. */
  lemma {:induction false} EncodeDecode(layout: Layout, b: seq<u8>, off: nat)
    requires off + Size(layout) <= |b|
    ensures Encode(layout, Decode(layout, b, off)) == b[off..off + Size(layout)]
    decreases |layout|
  {
    if |layout| > 0 {
      var w := Width(layout[0]);
      var values := Decode(layout, b, off);
      EncodeDecode(layout[1..], b, off + w);
      assert values[1..] == Decode(layout[1..], b, off + w);
      if layout[0].Num? {
        EncodeRead(b, off, w);
      }
      assert b[off..off + Size(layout)] == b[off..off + w] + b[off + w..off + Size(layout)];
    }
  }

  /** Field i of a stored struct is read from the struct's start plus the field's offset. */
  lemma {:induction false} DecodeAt(layout: Layout, b: seq<u8>, off: nat, i: nat)
    requires off + Size(layout) <= |b| && i < |layout|
    ensures Offset(layout, i) + Width(layout[i]) <= Size(layout)
    ensures Decode(layout, b, off)[i] == DecodeField(layout[i], b, off + Offset(layout, i))
    decreases i
  {
    if i > 0 {
      DecodeAt(layout[1..], b, off + Width(layout[0]), i - 1);
      assert layout[..i][1..] == layout[1..][..i - 1];
    }
  }

  // ------------------------------------------------------------ stream reads

  /**
   * The n bytes a stream read at `off` leaves in a fresh buffer: the bytes the file still
   * holds there, then zeros where the file ends first.
   */
  function ReadPadded(b: seq<u8>, off: nat, n: nat): (r: seq<u8>)
    ensures |r| == n
  {
    seq(n, k requires 0 <= k < n => if off + k < |b| then b[off + k] else 0)
  }

  /** Inside the file a read returns the file's own bytes. */
  lemma ReadPaddedInside(b: seq<u8>, off: nat, n: nat)
    requires off + n <= |b|
    ensures ReadPadded(b, off, n) == b[off..off + n]
  {
  }

  /** `ReadStruct`: the struct read from the stream at `off`, zeros past the end of the file. */
  function ReadStruct(layout: Layout, b: seq<u8>, off: nat): (r: seq<FieldValue>)
    ensures Fits(layout, r)
  {
    Decode(layout, ReadPadded(b, off, Size(layout)), 0)
  }

  /** A struct written in full is read back as written. */
  lemma ReadStructEncoded(layout: Layout, values: seq<FieldValue>, pre: seq<u8>, post: seq<u8>)
    requires Fits(layout, values)
    ensures ReadStruct(layout, pre + Encode(layout, values) + post, |pre|) == values
  {
    var b := pre + Encode(layout, values) + post;
    ReadPaddedInside(b, |pre|, Size(layout));
    assert b[|pre|..|pre| + Size(layout)] == [] + Encode(layout, values) + [];
    DecodeEncode(layout, values, [], []);
  }

  // ------------------------------------------------------------------ layouts

  /** The generic object header: a 16-byte id and an 8-byte size. */
  const OBJECT: Layout := [Raw(16), Num(8)]
  /** The Header Object: object count and two reserved bytes. */
  const FILE_HEADER: Layout := [Raw(16), Num(8), Num(4), Num(1), Num(1)]
  const STREAM_BITRATE_PROPERTIES: Layout := [Raw(16), Num(8), Num(2)]
  /** One bitrate record: flags (stream number in the low bits) and average bitrate. */
  const BITRATE_RECORD: Layout := [Num(2), Num(4)]
  const SIMPLE_INDEX_OBJECT: Layout := [Raw(16), Num(8), Raw(16), Num(8), Num(4), Num(4)]
  const INDEX_OBJECT: Layout := [Raw(16), Num(8), Num(4), Num(2), Num(4)]
  /** The Content Description fixed part: five string lengths in bytes. */
  const CONTENT_DESCRIPTION: Layout := [Raw(16), Num(8), Num(2), Num(2), Num(2), Num(2), Num(2)]
  /**
   * File Properties: file id, file size, creation date, packet count, play and send
   * duration, preroll, flags, minimum and maximum packet size, maximum bitrate.
   */
  const FILE_PROPERTIES: Layout :=
    [Raw(16), Num(8), Raw(16), Num(8), Num(8), Num(8), Num(8), Num(8), Num(8), Num(4), Num(4), Num(4), Num(4)]
  const HEADER_EXTENSION: Layout := [Raw(16), Num(8), Raw(16), Num(2), Num(4)]
  /** Stream Properties: stream type, error correction type, time offset, two lengths, flags. */
  const STREAM_PROPERTIES_OBJECT: Layout :=
    [Raw(16), Num(8), Raw(16), Raw(16), Num(8), Num(4), Num(4), Num(2), Num(4)]
  /** The Data Object header: file id, total packet count and two reserved bytes. */
  const DATA_OBJECT: Layout := [Raw(16), Num(8), Raw(16), Num(8), Num(2)]
  /**
   * The audio type-specific data: format tag, channels, samples per second, average bytes
   * per second, block alignment, bits per sample, codec-specific data size.
   */
  const AUDIO_STREAM_PROPERTIES: Layout := [Num(2), Num(2), Num(4), Num(4), Num(2), Num(2), Num(2)]
  /** The video type-specific data: encoded width and height, reserved flags, format data size. */
  const VIDEO_STREAM_PROPERTIES: Layout := [Num(4), Num(4), Num(1), Num(2)]
  /**
   * The video format data: its size, image width and height, reserved, bits per pixel,
   * compression id, image size, two resolutions and two colour counts.
   */
  const VIDEO_FORMAT_DATA: Layout :=
    [Num(4), Num(4), Num(4), Num(2), Num(2), Raw(4), Num(4), Num(4), Num(4), Num(4), Num(4)]

  // Field indexes used by the header objects.
  const OBJECT_SIZE: nat := 1
  const FP_FILE_ID: nat := 2
  const FP_FILE_SIZE: nat := 3
  const FP_CREATION_DATE: nat := 4
  const FP_PACKET_COUNT: nat := 5
  const FP_PREROLL: nat := 8
  const FP_FLAGS: nat := 9
  const FP_MAX_PACKET_SIZE: nat := 11
  const FP_MAX_BITRATE: nat := 12
  const CD_TITLE_LENGTH: nat := 2
  const DO_TOTAL_PACKETS: nat := 3
  const SP_STREAM_TYPE: nat := 2
  const SP_ERROR_CORRECTION_LENGTH: nat := 6
  const SP_FLAGS: nat := 7
  const AUDIO_CHANNELS: nat := 1
  const AUDIO_SAMPLE_RATE: nat := 2
  const AUDIO_BITS_PER_SAMPLE: nat := 5
  const AUDIO_CODEC_DATA_SIZE: nat := 6
  const VF_FORMAT_DATA_SIZE: nat := 0
  const VF_IMAGE_WIDTH: nat := 1
  const VF_IMAGE_HEIGHT: nat := 2
  const SB_RECORDS_COUNT: nat := 2
  const SI_INTERVAL: nat := 3
  const SI_ENTRY_COUNT: nat := 5
  const IX_SPECIFIERS_COUNT: nat := 3
  const IX_BLOCKS_COUNT: nat := 4
  const BR_FLAGS: nat := 0
  const BR_AVERAGE_BITRATE: nat := 1

  /** The sizes of the fixed parts the header objects write back, as the packed layouts give them. */
  lemma ObjectSize()
    ensures Size(OBJECT) == 24
  {
  }

  lemma FileHeaderSize()
    ensures Size(FILE_HEADER) == 30
  {
  }

  lemma HeaderExtensionSize()
    ensures Size(HEADER_EXTENSION) == 46
  {
  }

  lemma DataObjectSize()
    ensures Size(DATA_OBJECT) == 50
  {
  }

  /** Where the fields the header objects use sit in their structs. */
  lemma FieldOffsets()
    ensures Offset(OBJECT, OBJECT_SIZE) == 16
    ensures Offset(FILE_PROPERTIES, FP_CREATION_DATE) == 48
    ensures Offset(FILE_PROPERTIES, FP_FLAGS) == 88
    ensures Offset(FILE_PROPERTIES, FP_MAX_PACKET_SIZE) == 96
    ensures Offset(CONTENT_DESCRIPTION, CD_TITLE_LENGTH) == 24
    ensures Offset(DATA_OBJECT, DO_TOTAL_PACKETS) == 40
  {
    assert FILE_PROPERTIES[..FP_CREATION_DATE] == [Raw(16), Num(8), Raw(16), Num(8)];
    assert FILE_PROPERTIES[..FP_FLAGS] == [Raw(16), Num(8), Raw(16), Num(8), Num(8), Num(8), Num(8), Num(8), Num(8)];
    assert FILE_PROPERTIES[..FP_MAX_PACKET_SIZE] ==
      [Raw(16), Num(8), Raw(16), Num(8), Num(8), Num(8), Num(8), Num(8), Num(8), Num(4), Num(4)];
    assert CONTENT_DESCRIPTION[..CD_TITLE_LENGTH] == [Raw(16), Num(8)];
    assert DATA_OBJECT[..DO_TOTAL_PACKETS] == [Raw(16), Num(8), Raw(16)];
  }
}

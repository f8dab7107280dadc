// Object type ids. A GUID is kept in its textual structure: a 32-bit and two 16-bit
// groups stored little-endian, then eight bytes stored as they are.

module AsfGuids {
  import opened Bytes

  datatype Guid = Guid(data1: u32, data2: u16, data3: u16, data4: seq<u8>)

  /** The GUID stored in the 16 bytes at `off`. */
  function ToGuid(b: seq<u8>, off: nat): (g: Guid)
    requires off + 16 <= |b|
    ensures |g.data4| == 8
  {
    Guid(ReadLE(b, off, 4), ReadLE(b, off + 4, 2), ReadLE(b, off + 6, 2), b[off + 8..off + 16])
  }

  /** The 16 stored bytes of a GUID. */
  function GuidBytes(g: Guid): (r: seq<u8>)
    requires |g.data4| == 8
    ensures |r| == 16
  {
    LE32(g.data1) + LE16(g.data2) + LE16(g.data3) + g.data4
  }

  /** Reading back the stored bytes of a GUID gives the GUID. */
  lemma ToGuidBytes(g: Guid)
    requires |g.data4| == 8
    ensures ToGuid(GuidBytes(g), 0) == g
  {
    var b := GuidBytes(g);
    assert b[0..4] == LE32(g.data1) && b[4..6] == LE16(g.data2) && b[6..8] == LE16(g.data3);
    ReadSlice(b, 0, 4);
    ReadSlice(b, 4, 2);
    ReadSlice(b, 6, 2);
    ReadEncode(g.data1, 4);
    ReadEncode(g.data2, 2);
    ReadEncode(g.data3, 2);
  }

  /** Storing a GUID that was read reproduces its 16 bytes. */
  lemma GuidBytesTo(b: seq<u8>, off: nat)
    requires off + 16 <= |b|
    ensures GuidBytes(ToGuid(b, off)) == b[off..off + 16]
  {
    EncodeRead(b, off, 4);
    EncodeRead(b, off + 4, 2);
    EncodeRead(b, off + 6, 2);
    assert b[off..off + 16] == b[off..off + 4] + b[off + 4..off + 6] + b[off + 6..off + 8] + b[off + 8..off + 16];
  }

  /** The object kinds the factory builds; `UnknownType` for every other id. */
  datatype ObjectType =
    | BitrateMutualExclusionType
    | CodecListType
    | CompatibilityType
    | ContentDescriptionType
    | DataType
    | ExtendedContentDescriptionType
    | ExtendedStreamPropertiesType
    | FilePropertiesType
    | HeaderExtensionType
    | HeaderType
    | IndexType
    | IndexParametersPlaceholderType
    | LanguageListType
    | MetadataType
    | PaddingType
    | ScriptCommandType
    | SimpleIndexType
    | StreamBitratePropertiesType
    | StreamPrioritizationType
    | StreamPropertiesType
    | TimecodeIndexParametersType
    | UnknownType

  /** The id of each recognised object type. */
  function GuidOf(t: ObjectType): Guid
    requires t != UnknownType
  {
    match t
    case BitrateMutualExclusionType => Guid(0xD6E229DC, 0x35DA, 0x11D1, [0x90, 0x34, 0x00, 0xA0, 0xC9, 0x03, 0x49, 0xBE])
    case CodecListType => Guid(0x86D15240, 0x311D, 0x11D0, [0xA3, 0xA4, 0x00, 0xA0, 0xC9, 0x03, 0x48, 0xF6])
    case CompatibilityType => Guid(0x26F18B5D, 0x4584, 0x47EC, [0x9F, 0x5F, 0x0E, 0x65, 0x1F, 0x04, 0x52, 0xC9])
    case ContentDescriptionType => Guid(0x75B22633, 0x668E, 0x11CF, [0xA6, 0xD9, 0x00, 0xAA, 0x00, 0x62, 0xCE, 0x6C])
    case DataType => Guid(0x75B22636, 0x668E, 0x11CF, [0xA6, 0xD9, 0x00, 0xAA, 0x00, 0x62, 0xCE, 0x6C])
    case ExtendedContentDescriptionType => Guid(0xD2D0A440, 0xE307, 0x11D2, [0x97, 0xF0, 0x00, 0xA0, 0xC9, 0x5E, 0xA8, 0x50])
    case ExtendedStreamPropertiesType => Guid(0x14E6A5CB, 0xC672, 0x4332, [0x83, 0x99, 0xA9, 0x69, 0x52, 0x06, 0x5B, 0x5A])
    case FilePropertiesType => Guid(0x8CABDCA1, 0xA947, 0x11CF, [0x8E, 0xE4, 0x00, 0xC0, 0x0C, 0x20, 0x53, 0x65])
    case HeaderExtensionType => Guid(0x5FBF03B5, 0xA92E, 0x11CF, [0x8E, 0xE3, 0x00, 0xC0, 0x0C, 0x20, 0x53, 0x65])
    case HeaderType => Guid(0x75B22630, 0x668E, 0x11CF, [0xA6, 0xD9, 0x00, 0xAA, 0x00, 0x62, 0xCE, 0x6C])
    case IndexType => Guid(0xD6E229D3, 0x35DA, 0x11D1, [0x90, 0x34, 0x00, 0xA0, 0xC9, 0x03, 0x49, 0xBE])
    case IndexParametersPlaceholderType => Guid(0xD9AADE20, 0x7C17, 0x4F9C, [0xBC, 0x28, 0x85, 0x55, 0xDD, 0x98, 0xE2, 0xA2])
    case LanguageListType => Guid(0x7C4346A9, 0xEFE0, 0x4BFC, [0xB2, 0x29, 0x39, 0x3E, 0xDE, 0x41, 0x5C, 0x85])
    case MetadataType => Guid(0xC5F8CBEA, 0x5BAF, 0x4877, [0x84, 0x67, 0xAA, 0x8C, 0x44, 0xFA, 0x4C, 0xCA])
    case PaddingType => Guid(0x1806D474, 0xCADF, 0x4509, [0xA4, 0xBA, 0x9A, 0xAB, 0xCB, 0x96, 0xAA, 0xE8])
    case ScriptCommandType => Guid(0x1EFB1A30, 0x0B62, 0x11D0, [0xA3, 0x9B, 0x00, 0xA0, 0xC9, 0x03, 0x48, 0xF6])
    case SimpleIndexType => Guid(0x33000890, 0xE5B1, 0x11CF, [0x89, 0xF4, 0x00, 0xA0, 0xC9, 0x03, 0x49, 0xCB])
    case StreamBitratePropertiesType => Guid(0x7BF875CE, 0x468D, 0x11D1, [0x8D, 0x82, 0x00, 0x60, 0x97, 0xC9, 0xA2, 0xB2])
    case StreamPrioritizationType => Guid(0xD4FED15B, 0x88D3, 0x454F, [0x81, 0xF0, 0xED, 0x5C, 0x45, 0x99, 0x9E, 0x24])
    case StreamPropertiesType => Guid(0xB7DC0791, 0xA9B7, 0x11CF, [0x8E, 0xE6, 0x00, 0xC0, 0x0C, 0x20, 0x53, 0x65])
    case TimecodeIndexParametersType => Guid(0xF55E496D, 0x9797, 0x4B5D, [0x8C, 0x8B, 0x60, 0x4D, 0xFE, 0x9B, 0xFB, 0x24])
  }

  /** The media types a Stream Properties Object distinguishes. */
  const AUDIO_MEDIA: Guid := Guid(0xF8699E40, 0x5B4D, 0x11CF, [0xA8, 0xFD, 0x00, 0x80, 0x5F, 0x5C, 0x44, 0x2B])
  const VIDEO_MEDIA: Guid := Guid(0xBC19EFC0, 0x5B4D, 0x11CF, [0xA8, 0xFD, 0x00, 0x80, 0x5F, 0x5C, 0x44, 0x2B])

  /**
   * The factory's dispatch: the ids are compared in the factory's order and the first equal
   * one decides; an id equal to none of them is unknown.
   */
  function ObjectTypeOf(id: Guid): (t: ObjectType)
    ensures t != UnknownType ==> GuidOf(t) == id
  {
    if id == GuidOf(BitrateMutualExclusionType) then BitrateMutualExclusionType else
    if id == GuidOf(CodecListType) then CodecListType else
    if id == GuidOf(CompatibilityType) then CompatibilityType else
    if id == GuidOf(ContentDescriptionType) then ContentDescriptionType else
    if id == GuidOf(DataType) then DataType else
    if id == GuidOf(ExtendedContentDescriptionType) then ExtendedContentDescriptionType else
    if id == GuidOf(ExtendedStreamPropertiesType) then ExtendedStreamPropertiesType else
    if id == GuidOf(FilePropertiesType) then FilePropertiesType else
    if id == GuidOf(HeaderExtensionType) then HeaderExtensionType else
    if id == GuidOf(HeaderType) then HeaderType else
    if id == GuidOf(IndexType) then IndexType else
    if id == GuidOf(IndexParametersPlaceholderType) then IndexParametersPlaceholderType else
    if id == GuidOf(LanguageListType) then LanguageListType else
    if id == GuidOf(MetadataType) then MetadataType else
    if id == GuidOf(PaddingType) then PaddingType else
    if id == GuidOf(ScriptCommandType) then ScriptCommandType else
    if id == GuidOf(SimpleIndexType) then SimpleIndexType else
    if id == GuidOf(StreamBitratePropertiesType) then StreamBitratePropertiesType else
    if id == GuidOf(StreamPrioritizationType) then StreamPrioritizationType else
    if id == GuidOf(StreamPropertiesType) then StreamPropertiesType else
    if id == GuidOf(TimecodeIndexParametersType) then TimecodeIndexParametersType else
    UnknownType
  }

  /**
   * Every recognised id is dispatched to its own type: no two ids are equal. The proof goes
   * by the factory's order, a few types at a time.
   */
  lemma DispatchKnown(t: ObjectType)
    requires t != UnknownType
    ensures ObjectTypeOf(GuidOf(t)) == t
  {
    if t == BitrateMutualExclusionType || t == CodecListType || t == CompatibilityType || t == ContentDescriptionType || t == DataType || t == ExtendedContentDescriptionType || t == ExtendedStreamPropertiesType {
      DispatchUpTo7(t);
    } else if t == FilePropertiesType || t == HeaderExtensionType || t == HeaderType || t == IndexType || t == IndexParametersPlaceholderType {
      DispatchUpTo12(t);
    } else if t == LanguageListType || t == MetadataType || t == PaddingType || t == ScriptCommandType {
      DispatchUpTo16(t);
    } else if t == SimpleIndexType || t == StreamBitratePropertiesType || t == StreamPrioritizationType {
      DispatchUpTo19(t);
    } else {
      DispatchUpTo21(t);
    }
  }

  /** `DispatchKnown` for the types 1 to 7 in the factory's order. */
  lemma DispatchUpTo7(t: ObjectType)
    requires t == BitrateMutualExclusionType || t == CodecListType || t == CompatibilityType || t == ContentDescriptionType || t == DataType || t == ExtendedContentDescriptionType || t == ExtendedStreamPropertiesType
    ensures ObjectTypeOf(GuidOf(t)) == t
  {
    match t
    case BitrateMutualExclusionType =>
    case CodecListType =>
    case CompatibilityType =>
    case ContentDescriptionType =>
    case DataType =>
    case ExtendedContentDescriptionType =>
    case ExtendedStreamPropertiesType =>
  }

  /** `DispatchKnown` for the types 8 to 12 in the factory's order. */
  lemma DispatchUpTo12(t: ObjectType)
    requires t == FilePropertiesType || t == HeaderExtensionType || t == HeaderType || t == IndexType || t == IndexParametersPlaceholderType
    ensures ObjectTypeOf(GuidOf(t)) == t
  {
    match t
    case FilePropertiesType =>
    case HeaderExtensionType =>
    case HeaderType =>
    case IndexType =>
    case IndexParametersPlaceholderType =>
  }

  /** `DispatchKnown` for the types 13 to 16 in the factory's order. */
  lemma DispatchUpTo16(t: ObjectType)
    requires t == LanguageListType || t == MetadataType || t == PaddingType || t == ScriptCommandType
    ensures ObjectTypeOf(GuidOf(t)) == t
  {
    match t
    case LanguageListType =>
    case MetadataType =>
    case PaddingType =>
    case ScriptCommandType =>
  }

  /** `DispatchKnown` for the types 17 to 19 in the factory's order. */
  lemma DispatchUpTo19(t: ObjectType)
    requires t == SimpleIndexType || t == StreamBitratePropertiesType || t == StreamPrioritizationType
    ensures ObjectTypeOf(GuidOf(t)) == t
  {
    match t
    case SimpleIndexType =>
    case StreamBitratePropertiesType =>
    case StreamPrioritizationType =>
  }

  /** `DispatchKnown` for the types 20 to 21 in the factory's order. */
  lemma DispatchUpTo21(t: ObjectType)
    requires t == StreamPropertiesType || t == TimecodeIndexParametersType
    ensures ObjectTypeOf(GuidOf(t)) == t
  {
    match t
    case StreamPropertiesType =>
    case TimecodeIndexParametersType =>
  }
}

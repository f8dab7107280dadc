/** The result of a seek: where in which file a requested time was found. */
module FilePositions {
  import opened Bytes

  /** Which kind of stream decided the file's timing. */
  datatype FileMediaType = Audio | Video

  /**
   * A position is a value: every property is fixed when it is built. `fileOffset` is a
   * signed 64-bit byte offset; `delta` is the signed residual in milliseconds between the
   * requested time and the time found, negative when the match lies after the request.
   */
  datatype FilePosition = FilePosition(
    fileName: string,
    mediaType: FileMediaType,
    fileOffset: int,
    timeOffset: u32,
    delta: i32)

  const I64_MIN: int := -0x8000_0000_0000_0000
  const I64_MAX: int := 0x7FFF_FFFF_FFFF_FFFF

  /** A value of the source's `long`. */
  predicate IsInt64(x: int) { I64_MIN <= x <= I64_MAX }

  /**
   * The constructor with its defaults left out: media type Video and delta 0, every
   * argument stored as given.
   */
  function NewPosition(fileName: string, timeOffset: u32, fileOffset: int): (p: FilePosition)
    requires IsInt64(fileOffset)
    ensures p.fileName == fileName && p.timeOffset == timeOffset && p.fileOffset == fileOffset
    ensures p.mediaType == Video && p.delta == 0
  {
    FilePosition(fileName, Video, fileOffset, timeOffset, 0)
  }

  /** The constructor with every argument given: each stored unchanged. */
  function NewPositionWith(fileName: string, timeOffset: u32, fileOffset: int, mediaType: FileMediaType, delta: i32)
    : (p: FilePosition)
    requires IsInt64(fileOffset)
    ensures p.fileName == fileName && p.timeOffset == timeOffset && p.fileOffset == fileOffset
    ensures p.mediaType == mediaType && p.delta == delta
  {
    FilePosition(fileName, mediaType, fileOffset, timeOffset, delta)
  }
}

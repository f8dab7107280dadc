# AsfMojo core, modelled in Dafny

AsfMojo is a C# library that reads Advanced Systems Format (ASF, Windows Media) files.
It walks the header objects into an object list and a file configuration, and decodes
the fixed-size data packets with their payloads. It maps a requested time to a packet
offset by a converging search, and streams a time segment of the file. A streamed segment
is the streaming header followed by packets renormalised so that the segment starts at
time zero. It also rewrites a file with edited creation time and content description.

This project models that core:

| module (file) | what it models |
|---|---|
| `Bytes` (bytes.dfy) | fixed-width integers, C# casts, little-endian `BitConverter` reads and writes |
| `Utf16` (utf16.dfy) | `Encoding.Unicode` decoding and encoding, and `Trim('\0')` |
| `AsfGuids` (asf_guid.dfy) | GUID byte layout and the factory's dispatch by object id |
| `AsfStruct` (asf_struct.dfy) | the packed struct layouts and their field decoders and encoders |
| `Configuration`, `FilePositions`, `StreamInfos` | the file configuration, seek results and per-stream renormalisation state |
| `PacketCodec`, `AsfPackets` (packet_codec.dfy, asf_packet.dfy) | data packet parsing, and the packet class whose setters patch its buffer in place |
| `Renormalisation` (renormalisation.dfy) | what `SetStart` and `SetFollowup` do to a packet, as functions |
| `AsfObjects`, `FileProperties`, `ContentDescription`, `AsfIndex` | the header object constructors, what they set in the configuration, and what they write back |
| `AsfFiles` (asf_file.dfy) | the header walk, the time search, the offset range, the average packet duration and the rewrite |
| `UpdateOptions` (asf_update_options.dfy) | the fluent edit builder and its `Update` |
| `Segments`, `AsfStreams`, `AsfIStreams` | the segment stream, its buffer and its `IStream` face |
| `ListHelper` (list_helper.dfy) | the viewer's binary, full and linear list searches |

Imperative source code stays imperative: `AsfPacket`, `AsfStreamInfo`,
`AsfFileConfiguration`, `AsfFile`, `AsfStream`, `AsfIStream` and `AsfFileUpdateOptions`
are classes whose methods update their fields. Each method is proved against a function
that specifies it, and the lemmas state what the source promises about those functions.
A file is a byte sequence. An open file stream is a position in it. The packet decoder
is a parameter wherever the source passes packets through `new AsfPacket`.

## Model

| member | source | states |
|---|---|---|
| ListHelper.BinarySearchForMatch | AsfMojoUI/Model/ExtensionHelper.cs:36-60 | an index inside the list (0 for an empty one); on a list the comparer orders (negatives, matches, positives) with a match, the index of a match |
| ListHelper.FullSearchForMatch | AsfMojoUI/Model/ExtensionHelper.cs:62-72 | -1 exactly when no element matches, otherwise the smallest matching index |
| ListHelper.LinearSearchForMatch | AsfMojoUI/Model/ExtensionHelper.cs:74-87 | the loop, bounded by a fuel count, gives the result of the walk `LinearWalk` that moves by each comparison |
| ListHelper.LinearWalkResult | AsfMojoUI/Model/ExtensionHelper.cs:79-86 | a finished walk returns -1 or the index of a matching element |
| ListHelper.LinearWalkMoreFuel | AsfMojoUI/Model/ExtensionHelper.cs:79-86 | more iterations never change the result of a walk that has finished |
| ListHelper.LinearWalkCycle | AsfMojoUI/Model/ExtensionHelper.cs:79-86 | two neighbours answering +1 and -1 trap the walk: the search does not finish with any fuel |
| StreamInfos.NewCounters | asfMojo/Media/AsfStreamInfo.cs:57-58 | a fresh array of 256 zero counters |
| StreamInfos.CopyCounters | asfMojo/Media/AsfStreamInfo.cs:63-66 | a fresh array with the same contents as the source array |
| StreamInfos.AsfStreamInfo.constructor | asfMojo/Media/AsfStreamInfo.cs:43-53 | the given type, all times 0, an empty presentation-time map, two fresh zeroed counter arrays |
| StreamInfos.AsfStreamInfo.Copy | asfMojo/Media/AsfStreamInfo.cs:30-41 | same type and times, an equal map, fresh counter arrays with equal contents |
| StreamInfos.AsfStreamInfo.ResetMediaObjects | asfMojo/Media/AsfStreamInfo.cs:55-59 | both counter arrays replaced by fresh zeroed ones; every other field unchanged |
| StreamInfos.AsfStreamInfo.UpdateFromStream | asfMojo/Media/AsfStreamInfo.cs:61-69 | fresh arrays holding the other info's counters, its map, the rest unchanged |
| FilePositions.NewPosition | asfMojo/File/FilePosition.cs:16-23 | each argument stored as given; media type Video and delta 0 by default |
| FilePositions.NewPositionWith | asfMojo/File/FilePosition.cs:16-23 | every argument stored as given |
| Configuration.AsfFileConfiguration.constructor | asfMojo/Configuration/AsfConfiguration.cs:45-48 | a new configuration equals the reset values, with no packets |
| Configuration.AsfFileConfiguration.Reset | asfMojo/Configuration/AsfConfiguration.cs:53-72 | every size, count, id and image dimension 0, one audio channel; the packet list kept |
| Configuration.AsfFileConfiguration.ResetFileProperties | asfMojo/Configuration/AsfConfiguration.cs:55-61 | preroll, header, packet and index sizes, packet count and bit rate set to 0 |
| Configuration.AsfFileConfiguration.ResetStreamProperties | asfMojo/Configuration/AsfConfiguration.cs:62-70 | image size and stream ids 0, one audio channel, sample rate and bits per sample 0 |
| Bytes.Patch | asfMojo/Media/AsfPacket.cs:351 | the bytes copied in replace exactly the bytes at the offset; every other byte and the length are kept |
| Bytes.ReadEncode | asfMojo/Media/AsfPacket.cs:38 | a value that fits `n` bytes, written little-endian and read back, is the value |
| Bytes.EncodeRead | asfMojo/Media/AsfPacket.cs:146 | reading `n` little-endian bytes and writing the value back gives the same bytes |
| Bytes.ReadAfterPatch | asfMojo/Media/AsfPacket.cs:363 | a value patched into a buffer reads back from that place |
| Bytes.ReadOutsidePatch | asfMojo/Media/AsfPacket.cs:264 | a field that does not overlap the patched bytes reads the same before and after |
| Bytes.PatchSameValue | asfMojo/Media/AsfPacket.cs:351 | patching a field with the value it already holds leaves the buffer unchanged |
| Utf16.TrimStart | asfMojo/Parsing/AsfObjects.cs:1053 | a suffix of the text that does not start with a NUL |
| Utf16.TrimEnd | asfMojo/Parsing/AsfObjects.cs:1053 | a prefix of the text that does not end with a NUL |
| Utf16.Trim | asfMojo/Parsing/AsfObjects.cs:1053 | the result has no NUL at either end |
| Utf16.UnitsOfBytes | asfMojo/Parsing/AsfObjects.cs:1103 | the code units of a text's little-endian bytes are the text |
| Utf16.TrimTerminated | asfMojo/Parsing/AsfObjects.cs:1053 | trimming a NUL-terminated text that had no NUL at its ends gives the text |
| Utf16.TextRoundTrip | asfMojo/Parsing/AsfObjects.cs:1100-1106 | a well-formed text with no NUL at its ends, encoded with its terminator and decoded and trimmed, is the text |
| AsfGuids.ToGuidBytes | asfMojo/Utils/ExtensionHelper.cs:13-16 | the guid read from the 16 bytes a guid is written as is that guid |
| AsfGuids.GuidBytesTo | asfMojo/Parsing/AsfObjects.cs:257 | writing back the guid read at an offset gives the 16 bytes found there |
| AsfGuids.ObjectTypeOf | asfMojo/Parsing/AsfObjects.cs:76-100 | any type the factory recognises has the id it was given; every other id is the unknown kind |
| AsfGuids.DispatchKnown | asfMojo/Parsing/AsfObjects.cs:78-98 | each object type's own id is dispatched to that type: no two of the ids are equal |
| AsfStruct.Encode | asfMojo/Parsing/AsfObjects.cs:113-120 | a packed struct takes exactly the sum of its field widths |
| AsfStruct.DecodeField | asfMojo/Parsing/AsfObjects.cs:103-111 | a decoded field fits its width |
| AsfStruct.DecodeEncode | asfMojo/Parsing/AsfObjects.cs:103-120 | values that fit the layout, written as a packed struct and read back from any surrounding bytes, are the values |
| AsfStruct.EncodeDecode | asfMojo/Parsing/AsfObjects.cs:103-120 | a struct read and written back gives the bytes it was read from |
| AsfStruct.DecodeAt | asfMojo/Parsing/AsfObjects.cs:103-111 | each field of a read struct is the field read at that field's offset |
| AsfStruct.ReadPadded | asfMojo/Parsing/AsfObjects.cs:105-106 | the buffer always has the struct's size; past the end of the stream it keeps zeros |
| AsfStruct.ReadPaddedInside | asfMojo/Parsing/AsfObjects.cs:105-106 | when the stream holds the whole struct, the buffer is those bytes |
| AsfStruct.ReadStruct | asfMojo/Parsing/AsfObjects.cs:103-111 | every field read fits its width, even past the end of the stream |
| AsfStruct.ReadStructEncoded | asfMojo/Parsing/AsfObjects.cs:103-120 | reading a struct where one was written gives back its values |
| AsfStruct.ObjectSize | asfMojo/Parsing/AsfStruct.cs:277-282 | the object header (id and size) takes 24 bytes |
| AsfStruct.FileHeaderSize | asfMojo/Parsing/AsfStruct.cs:8-16 | the Header Object's fixed part takes 30 bytes |
| AsfStruct.HeaderExtensionSize | asfMojo/Parsing/AsfStruct.cs:185-194 | the Header Extension Object's fixed part takes 46 bytes |
| AsfStruct.DataObjectSize | asfMojo/Parsing/AsfStruct.cs:394-403 | the Data Object's header takes 50 bytes |
| AsfStruct.FieldOffsets | asfMojo/Parsing/AsfStruct.cs:135-153 | the offsets of the size, creation date, flags, maximum packet size, title length and packet count fields in their packed structs |
| Bytes.Wrap32 | asfMojo/Parsing/AsfObjects.cs:880 | a cast to 32 bits keeps a value that fits and is otherwise congruent modulo 2^32 |
| Bytes.ToInt32 | asfMojo/Parsing/AsfObjects.cs:492 | a cast to `int` keeps a value that fits and is otherwise congruent modulo 2^32 |
| AsfGuids.ToGuid | asfMojo/Utils/ExtensionHelper.cs:13-16 | sixteen bytes make a GUID with its eight trailing bytes |
| AsfGuids.GuidBytes | asfMojo/Parsing/AsfObjects.cs:257 | a GUID's byte array is sixteen bytes |
| Utf16.GetString | asfMojo/Parsing/AsfObjects.cs:1055 | decoding UTF-16 bytes gives one unit per two bytes, and one more for an odd trailing byte |
| Utf16.GetBytes | asfMojo/Parsing/AsfObjects.cs:1103 | encoding gives two bytes per unit |
| PacketCodec.ErrorCorrectionLengthType | asfMojo/Media/AsfPacket.cs:65 | with the error-correction bit set, the length type is bits 5-6 of the first byte |
| PacketCodec.CheckErrorCorrection | asfMojo/Media/AsfPacket.cs:63-76 | the opaque-data bit is refused first; otherwise the byte passes exactly when, with error correction present, the data size is 2 for length type 0 and 0 for any other |
| PacketCodec.FieldWidth | asfMojo/Media/AsfPacket.cs:97-143 | a one-byte field when the low flag bit is set, two bytes when only the high one is, none otherwise (the 4-byte branch is unreachable) |
| PacketCodec.ReadU8 | asfMojo/Media/AsfPacket.cs:99 | a byte inside the packet is read as it is; past the end is an error |
| PacketCodec.ReadU16 | asfMojo/Media/AsfPacket.cs:104 | two little-endian bytes inside the packet; past the end is an error |
| PacketCodec.ReadU32 | asfMojo/Media/AsfPacket.cs:109 | four little-endian bytes inside the packet; past the end is an error |
| PacketCodec.ReadField | asfMojo/Media/AsfPacket.cs:97-143 | an absent field reads 0; a present one reads its bytes when they are inside the packet |
| PacketCodec.DecodeHeader | asfMojo/Media/AsfPacket.cs:60-82 | opaque data and bad error-correction flags are refused, non-zero error-correction type or cycle bytes are refused, and an accepted header is the layout decoded from the length-type flags |
| PacketCodec.DecodeLayout | asfMojo/Media/AsfPacket.cs:84-159 | the send time sits past the three optional fields, the duration right after it; multiple payloads carry a count in the low 6 bits of the next byte, a single payload counts 1 |
| PacketCodec.DecodeReplicated | asfMojo/Media/AsfPacket.cs:196-215 | replicated data of length `len` is skipped entirely; when present its second word is the presentation time, at `off + 4` |
| PacketCodec.DecodePayload | asfMojo/Media/AsfPacket.cs:168-231 | stream id (low 7 bits), object number, media offset and their offsets as read; keyframe start exactly for a set high bit with offset 0; the length read for multiple payloads, the rest of the packet less the padding (as a 16-bit value) for a single one |
| PacketCodec.Decode | asfMojo/Media/AsfPacket.cs:43-55 | a packet whose length is not the configured size is refused; an accepted one has the header, one payload per counted entry with consecutive payload ids, every field inside the packet, and is a keyframe exactly when some payload starts one |
| PacketCodec.PayloadsShape | asfMojo/Media/AsfPacket.cs:161-165 | the payload loop gives the remaining count of payloads, each fitting the packet, with consecutive ids |
| AsfPackets.ParseHeader | asfMojo/Media/AsfPacket.cs:60-82 | the array's header checks give `DecodeHeader` of its contents |
| AsfPackets.ParseLayout | asfMojo/Media/AsfPacket.cs:84-159 | the parsing offsets and fields read from the array give `DecodeLayout` of its contents |
| AsfPackets.ParsePayload | asfMojo/Media/AsfPacket.cs:168-231 | the payload parsed from the array is `DecodePayload` of its contents, with the next offset |
| AsfPackets.ParsePayloads | asfMojo/Media/AsfPacket.cs:161-165 | the loop's payload list is `DecodePayloads`, and the keyframe flag it accumulates holds exactly when one of them starts a keyframe |
| AsfPackets.KeyframeAppend | asfMojo/Media/AsfPacket.cs:194 | or-ing each payload's keyframe start into the flag keeps it equal to "some payload so far starts a keyframe" |
| AsfPackets.AsfPacket.Create | asfMojo/Media/AsfPacket.cs:43-55 | a packet object exists exactly when its bytes decode; its fields are the decoded header and payload, over the given array |
| AsfPackets.AsfPacket.WriteU32 | asfMojo/Media/AsfPacket.cs:38 | the four little-endian bytes of the value are copied at the offset, nothing else changes |
| AsfPackets.AsfPacket.WriteU8 | asfMojo/Media/AsfPacket.cs:373 | the byte is set at the offset, nothing else changes |
| AsfPackets.AsfPacket.UpdateSendTime | asfMojo/Media/AsfPacket.cs:35-39 | the send time changes and its bytes are written at the send-time offset |
| AsfPackets.AsfPacket.SetSendTime | asfMojo/Media/AsfPacket.cs:349-353 | the send-time bytes are overwritten, the field is not, and it answers true |
| AsfPackets.AsfPacket.SetPayloadPresentationTime | asfMojo/Media/AsfPacket.cs:359-365 | the payload's time changes and its bytes are written at its presentation-time offset |
| AsfPackets.AsfPacket.MovePayloadPrivate | asfMojo/Media/AsfPacket.cs:370-376 | the stream id byte gets the private offset (the payload record keeps its id) and the time is written |
| AsfPackets.AsfPacket.SetMediaObjectNumber | asfMojo/Media/AsfPacket.cs:381-393 | true and the byte and record updated exactly for an index inside the payload list; false and nothing changed otherwise |
| AsfPackets.AsfPacket.StartPayload | asfMojo/Media/AsfPacket.cs:251-265 | one pass of the start loop: packet and payloads become `StartStep` of them |
| AsfPackets.AsfPacket.SetStart | asfMojo/Media/AsfPacket.cs:238-269 | the answer and the new packet and payloads are `Start` of the old ones |
| AsfPackets.AsfPacket.PrerollCorrection | asfMojo/Media/AsfPacket.cs:290-304 | the corrected time; an early audio payload is moved to the private stream, other payloads keep their bytes |
| AsfPackets.AsfPacket.FollowupEarly | asfMojo/Media/AsfPacket.cs:290-311 | the corrected time, and the bytes `EarlyMoves` gives, including the image stream's audio move |
| AsfPackets.AsfPacket.LowerSendTime | asfMojo/Media/AsfPacket.cs:314-315 | a time below the send time lowers it to the larger of the time and the minimum, with its bytes; otherwise nothing changes |
| AsfPackets.AsfPacket.CropPayload | asfMojo/Media/AsfPacket.cs:319-324 | a payload past the segment end is moved private at the crop time; others are untouched |
| AsfPackets.AsfPacket.FollowupTime | asfMojo/Media/AsfPacket.cs:290-324 | send time, payload time and bytes are the single-step functions of the old ones |
| AsfPackets.AsfPacket.FollowupNumber | asfMojo/Media/AsfPacket.cs:326-338 | the maximum time is raised, the stream's counter advances by `NextObjectId`, the previous number is recorded and written into the packet |
| AsfPackets.AsfPacket.FollowupPayload | asfMojo/Media/AsfPacket.cs:290-338 | one pass of the follow-up loop: payload, carried state and bytes are `StepPayload`, `StepState` and `StepBytes` |
| AsfPackets.AsfPacket.FollowupLoop | asfMojo/Media/AsfPacket.cs:288-339 | the whole loop gives `RunPayloads`, `RunState` and `RunBytes` of the old values |
| AsfPackets.AsfPacket.SetFollowup | asfMojo/Media/AsfPacket.cs:276-343 | the shifted send time, then the loop; the new bytes, payloads and counters are the `Followup` functions, and the stream's minimum send time is the packet's final send time |
| Renormalisation.SetTimeBytes | asfMojo/Media/AsfPacket.cs:359-365 | the packet keeps its length |
| Renormalisation.PrivateByteKeyframeBit | asfMojo/Media/AsfPacket.cs:372 | adding the private offset 50 to a stream id keeps it below 128 exactly for ids below 78, and moves the id by 50 modulo 128 |
| Renormalisation.MovePrivateEffect | asfMojo/Media/AsfPacket.cs:370-376 | the stream byte becomes the private id, the time reads back, every other byte is kept |
| Renormalisation.PatchesIgnoreTime | asfMojo/Media/AsfPacket.cs:359-376 | byte patches depend on the payload's offsets, not on the time it held |
| Renormalisation.LastKeyframe | asfMojo/Media/AsfPacket.cs:244 | the index of the last video keyframe start, or none when there is none |
| Renormalisation.Start | asfMojo/Media/AsfPacket.cs:238-269 | true exactly for audio or when a video keyframe start exists; nothing changes for audio or when it fails; lengths are kept |
| Renormalisation.StartFromEffect | asfMojo/Media/AsfPacket.cs:249-266 | each video payload before the keyframe gets its start stream id and offset 0; every other payload and every byte outside their id and offset fields is kept |
| Renormalisation.ShiftedSendTime | asfMojo/Media/AsfPacket.cs:278-285 | never above the send time; positive exactly when the send time is past start plus the 2000 ms safety threshold, and then that much lower |
| Renormalisation.CorrectedTime | asfMojo/Media/AsfPacket.cs:290-303 | a payload that is not early gets its time less the start offset |
| Renormalisation.StepTime | asfMojo/Media/AsfPacket.cs:317-324 | the corrected time, or the crop time when the corrected time crops |
| Renormalisation.StepSendTime | asfMojo/Media/AsfPacket.cs:314-315 | unchanged, or lowered to the larger of the corrected time and the minimum |
| Renormalisation.NextObjectId | asfMojo/Media/AsfPacket.cs:332-335 | the counter advances by one modulo 256 exactly when it is new or the object number changed |
| Renormalisation.RaiseMaxTime | asfMojo/Media/AsfPacket.cs:327-330 | the stream's maximum becomes the larger of it and the time; other streams are kept |
| Renormalisation.StepPayload | asfMojo/Media/AsfPacket.cs:290-338 | the updated payload keeps its offsets and length |
| Renormalisation.StepBytes | asfMojo/Media/AsfPacket.cs:290-338 | only the send time and the payload's own id, time and number bytes can change |
| Renormalisation.RunSendTime | asfMojo/Media/AsfPacket.cs:313-315 | after the loop the send time has not risen, is the minimum or above once changed, and covers every payload time |
| Renormalisation.FollowupSendTimeBound | asfMojo/Media/AsfPacket.cs:278-342 | the same for the whole follow-up, from the shifted send time |
| Renormalisation.RunBytesPreserves | asfMojo/Media/AsfPacket.cs:288-339 | the loop changes only bytes in the send time and the payloads' fields |
| Renormalisation.FollowupPreserves | asfMojo/Media/AsfPacket.cs:276-343 | the whole follow-up changes only those bytes |
| Renormalisation.RunPayloadsAt | asfMojo/Media/AsfPacket.cs:288-339 | payload `j` after the loop is one step from the state the first `j` payloads leave, and keeps its layout |
| Renormalisation.RunCounters | asfMojo/Media/AsfPacket.cs:332-337 | payloads of other streams do not touch a stream's counters |
| Renormalisation.NumberBefore | asfMojo/Media/AsfPacket.cs:332-338 | the number written for payload `j` is the next id from the counters before it |
| Renormalisation.CountersAfter | asfMojo/Media/AsfPacket.cs:334-338 | after payload `j` the counter is its new number and the previous number its old one |
| Renormalisation.NumberingConsecutive | asfMojo/Media/AsfPacket.cs:326-338 | two consecutive payloads of one stream get equal numbers, or the next one modulo 256 when the object changed |
| Renormalisation.NumberingFirst | asfMojo/Media/AsfPacket.cs:326-338 | the first payload of a stream in the packet continues from the incoming counters |
| Renormalisation.RunMaxTime | asfMojo/Media/AsfPacket.cs:327-330 | the loop's maxima never fall and cover every payload time written |
| Renormalisation.NoReplicatedDataPatchesPacketStart | asfMojo/Media/AsfPacket.cs:201-210 | a payload without replicated data has time offset 0, so its time write lands on the first four bytes of the packet |
| Segments.Zeros | asfMojo/Media/AsfStreamInfo.cs:57-58 | `n` zero counters |
| Segments.Entry | asfMojo/Media/AsfStream.cs:157-163 | the first packet resets the counters and records its send time as the start; later packets leave the session unchanged |
| Segments.Started | asfMojo/Media/AsfStream.cs:157-163 | only the first packet goes through `SetStart`; it keeps its length and payload count |
| Segments.Treated | asfMojo/Media/AsfStream.cs:156-165 | the bytes of one renormalised packet have the packet's length; the session's start send time is the first packet's |
| Segments.TreatedSteps | asfMojo/Media/AsfStream.cs:156-165 | a packet's treatment is the reset, then `SetStart` on the first packet, then the follow-up, in that order |
| Segments.Renormalise | asfMojo/Media/AsfStream.cs:153-168 | a packet of the wrong size is refused; a packet is accepted exactly when it decodes, and then its output has its size |
| Segments.SpanIsProduct | asfMojo/Media/AsfStream.cs:142-170 | `n` packets of a given size span `n` times that size |
| Segments.SpanMono | asfMojo/Media/AsfStream.cs:142-170 | fewer packets span no more bytes |
| Segments.Segment | asfMojo/Media/AsfStream.cs:142-170 | no packets give no bytes and the initial session; every result keeps the session well-formed |
| Segments.LastPacket | asfMojo/Media/AsfStream.cs:153-166 | the last packet's output has the packet size |
| Segments.SegmentLength | asfMojo/Media/AsfStream.cs:142-170 | a segment's output is exactly its packet count times the packet size |
| Segments.SegmentAppend | asfMojo/Media/AsfStream.cs:142-170 | one more packet appends its renormalised bytes, continuing the session, or fails exactly when that packet does |
| Segments.SegmentExtends | asfMojo/Media/AsfStream.cs:156-165 | a decodable packet appends its treated bytes and session |
| Segments.LastPacketOf | asfMojo/Media/AsfStream.cs:153-166 | the last packet is renormalised in the session the others leave |
| Segments.SegmentPrefix | asfMojo/Media/AsfStream.cs:142-170 | the output of the first `i` packets is the start of the output of all of them |
| Segments.SegmentBlock | asfMojo/Media/AsfStream.cs:142-170 | packet `i`'s output sits at `i` times the packet size |
| Segments.SegmentStartSendTime | asfMojo/Media/AsfStream.cs:157-160 | the session's start send time is the first packet's send time |
| Segments.SegmentIgnoresCounters | asfMojo/Media/AsfStream.cs:159 | the counters a stream starts with do not matter: the first packet resets them |
| Segments.FirstIgnoresCounters | asfMojo/Media/AsfStream.cs:159 | the same for the first packet alone |
| Segments.CheckRange | asfMojo/Media/AsfStream.cs:87-94 | an image stream reads to the end; negative times are refused, and an end before the start for the unaltered and file types; the end time used |
| Segments.StreamLength | asfMojo/Media/AsfStream.cs:117-122 | a plain stream reports the file length plus the header capped at `int.MaxValue`, an unaltered stream the file length, others the 32-bit sum |
| Segments.StreamLengthWraps | asfMojo/Media/AsfStream.cs:118 | when segment and header pass 2^32 bytes, the plain stream reports their wrapped sum capped at `int.MaxValue`; its length falls below the header exactly when the sum wraps or the header alone passes the cap |
| AsfStreams.InitialSession | asfMojo/Media/AsfStreamInfo.cs:43-53 | a fresh stream info's carried state is well-formed |
| AsfStreams.HoldsSessionOf | asfMojo/Media/AsfStreamInfo.cs:15-28 | a stream info holds a session exactly when that session is the one read off its fields |
| AsfStreams.Unread | asfMojo/Media/AsfStream.cs:132-134 | a read of `count` bytes at a position gives the next bytes there, at most `count`, fewer only at the end of the buffer |
| AsfStreams.RemainingShrinks | asfMojo/Media/AsfStream.cs:142-170 | each full packet read brings the file position nearer the segment end, so the fill loop ends |
| AsfStreams.PacketsAtAppend | asfMojo/File/AsfFile.cs:483-494 | a packet read right after the ones before it extends the record of packets read in file order |
| AsfStreams.PositionsAppend | asfMojo/File/AsfFile.cs:483-494 | the packets' file offsets stay increasing and, on an aligned segment, contiguous |
| AsfStreams.ShortReadInOrder | asfMojo/Media/AsfStream.cs:153-168 | a short read ends the loop without recording a packet and keeps the record in file order |
| AsfStreams.FullReadInOrder | asfMojo/Media/AsfStream.cs:153-156 | a full read is the packet at the file position, which on an aligned segment follows the packets before it |
| AsfStreams.ReadOutcome | asfMojo/Media/AsfStream.cs:153-168 | either kind of file read keeps the packets in file order, and a full one brings the position nearer the end |
| AsfStreams.AppendedConsistent | asfMojo/Media/AsfStream.cs:165 | appending a treated packet's bytes to the memory buffer keeps buffer, output and header consistent with the segment produced |
| AsfStreams.UnreadDropped | asfMojo/Media/AsfStream.cs:176-186 | reading from the compacted buffer gives the same bytes as reading everything produced at the dropped count plus the position |
| AsfStreams.HeaderConsistent | asfMojo/Media/AsfStream.cs:145-150 | the header goes first into an empty buffer and is everything produced until then |
| AsfStreams.CompactedConsistent | asfMojo/Media/AsfStream.cs:176-186 | dropping the read part of the buffer keeps it consistent, with seeking back off |
| AsfStreams.AsfStream.Opened | asfMojo/Media/AsfStream.cs:101-123 | a new stream info of the type with the segment's times, the reported `StreamLength`, nothing read, nothing buffered, seek-back on |
| AsfStreams.AsfStream.Open | asfMojo/Media/AsfStream.cs:85-123 | bad time arguments and an image stream over a file without video are refused before the file is touched; otherwise the file range is the one `SetOffsetRange` finds for the times, and the stream starts from it |
| AsfStreams.AsfStream.ReadBuffered | asfMojo/Media/AsfStream.cs:132-134 | bad buffer arguments are refused with nothing changed; otherwise the next unread bytes of the buffer are copied at the offset and the position moves past them |
| AsfStreams.AsfStream.Seek | asfMojo/Media/AsfStream.cs:214-222 | only an image or audio stream seeking from the beginning with seek-back on moves, to the offset; anything else is refused with the position kept |
| AsfStreams.AsfStream.StartSegment | asfMojo/Media/AsfStream.cs:157-163 | the counters are reset, the start send time recorded and the packet is `Started` |
| AsfStreams.AsfStream.Treat | asfMojo/Media/AsfStream.cs:156-164 | the packet's new bytes and the stream info's carried state are `Treated` of the packet in the current session |
| AsfStreams.AsfStream.ReadFile | asfMojo/Media/AsfStream.cs:153 | the file read starts at the file position and moves it by the count read |
| AsfStreams.AsfStream.ReadPacket | asfMojo/Media/AsfStream.cs:153-154 | a full packet read is the file's bytes at the position, next in file order, with the position nearer the end |
| AsfStreams.AsfStream.Process | asfMojo/Media/AsfStream.cs:156-164 | a packet that does not decode is refused; otherwise the output so far plus the packet's new bytes is the segment of the packets read so far plus this one |
| AsfStreams.AsfStream.Absorb | asfMojo/Media/AsfStream.cs:156-165 | a treated packet extends what the stream produced |
| AsfStreams.AsfStream.Record | asfMojo/Media/AsfStream.cs:165 | the bytes are appended to the buffer and recorded as the packet's output |
| AsfStreams.AsfStream.NextPacket | asfMojo/Media/AsfStream.cs:153-168 | false with nothing produced at the end of the segment; true with more produced and the file position nearer the end |
| AsfStreams.AsfStream.EmitHeader | asfMojo/Media/AsfStream.cs:145-150 | the streaming header becomes the whole buffer and the first thing produced; missing or oversized, it is refused with nothing changed |
| AsfStreams.AsfStream.FillStep | asfMojo/Media/AsfStream.cs:144-169 | one pass: the header once, then one packet; false only when the header is out and the file has no full packet left |
| AsfStreams.AsfStream.Fill | asfMojo/Media/AsfStream.cs:142-170 | the buffer ends up holding `count` bytes past the base, or the file is exhausted |
| AsfStreams.AsfStream.Compact | asfMojo/Media/AsfStream.cs:176-187 | the unread part of the buffer becomes the whole buffer at position 0 and seek-back is off for good; what was produced is unchanged |
| AsfStreams.AsfStream.SeekEnd | asfMojo/Media/AsfStream.cs:140 | the position moves to the end of the buffer |
| AsfStreams.AsfStream.Deliver | asfMojo/Media/AsfStream.cs:173-174 | the bytes delivered from the saved position are the next ones produced, fewer only at the end of the buffer |
| AsfStreams.AsfStream.Refill | asfMojo/Media/AsfStream.cs:137-170 | the buffer is filled for `count` bytes past the saved position, or the file is exhausted |
| AsfStreams.AsfStream.ReadThrough | asfMojo/Media/AsfStream.cs:137-174 | the caller gets the next bytes produced after the position, as many as exist up to `count`, fewer only when the file is exhausted |
| AsfStreams.AsfStream.Read | asfMojo/Media/AsfStream.cs:127-189 | bytes served from the buffer when it holds enough, with nothing produced; otherwise the next bytes of the header and treated packets, as many as exist up to `count`; a buffer past 500000 bytes is compacted, dropping what was read, and seek-back is off |
| AsfIStreams.Requested | asfMojo/Media/AsfIStream.cs:114-131 | from the beginning the move; from the current position the 64-bit sum; from the end the last byte; otherwise the position |
| AsfIStreams.SeekTarget | asfMojo/Media/AsfIStream.cs:132-134 | the requested offset clamped to the last byte: never at or past the length, and a request before the end is kept |
| AsfIStreams.SeekFromBegin | asfMojo/Media/AsfIStream.cs:114-134 | a seek from the beginning lands on the move exactly when the move is before the end |
| AsfIStreams.AsfIStream.constructor | asfMojo/Media/AsfIStream.cs:19-22 | the wrapper holds the stream it was given |
| AsfIStreams.AsfIStream.Read | asfMojo/Media/AsfIStream.cs:80-88 | the wrapped stream's read into the buffer from its start: the next bytes produced, as many as exist up to the count |
| AsfIStreams.AsfIStream.Seek | asfMojo/Media/AsfIStream.cs:114-145 | a target past the largest header changes nothing and reports no position; within it the wrapped stream seeks from its beginning, succeeding exactly for image and audio streams with seek-back on and a non-negative target, and then it is the new position |
| AsfFiles.ReadCount | asfMojo/File/AsfFile.cs:492 | a file read returns at most the count asked for, and fewer only at the end of the file |
| AsfFiles.ReadBytes | asfMojo/File/AsfFile.cs:492 | the bytes read are the file's bytes from the position, as many as the count read |
| AsfFiles.FirstStart | asfMojo/File/AsfFile.cs:604-613 | the first payload of the stream, from `i` on, that starts its media object; none exactly when no payload from `i` on does |
| AsfFiles.LastOf | asfMojo/File/AsfFile.cs:604-613 | a payload of the stream from the packet, present exactly when the packet carries the stream |
| AsfFiles.TimedPayloadOfStream | asfMojo/File/AsfFile.cs:604-613 | a packet gives a timed payload exactly when it carries the stream, and that payload is one of the stream's |
| AsfFiles.ScanPayloads | asfMojo/File/AsfFile.cs:604-613 | the loop over the stream's payloads gives `TimedPayload`: the first payload that starts its media object (`FirstStart`), else the stream's last payload (`LastOf`) |
| AsfFiles.LastPacketInRange | asfMojo/File/AsfFile.cs:589 | when it fits 32 bits, the search limit is the offset of the last packet |
| AsfFiles.LastPacketOfEmptyData | asfMojo/File/AsfFile.cs:589 | with no packets the packet count less one wraps to 2^32 - 1, and the search limit becomes the header size less one packet size, modulo 2^32 |
| AsfFiles.CodecSized | asfMojo/File/AsfFile.cs:597-602 | the packet decoder refuses data that is not one packet long |
| AsfFiles.NextTime | asfMojo/File/AsfFile.cs:585-616 | the search never moves backwards |
| AsfFiles.NextTimeFound | asfMojo/File/AsfFile.cs:593-613 | a found time comes from the first packet at or after the position, before the last packet, that carries the stream; the packets before it do not; the time is the payload's less the preroll and the keyframe flag the packet's; without seeking forward only the first packet is tried |
| AsfFiles.FindNextTimeOffset | asfMojo/File/AsfFile.cs:585-616 | the loop gives `NextTime` from the position |
| AsfFiles.FoundIgnoresStart | asfMojo/File/AsfFile.cs:600-601 | a found result does not depend on the time and flag passed in |
| AsfFiles.RoundedJump | asfMojo/File/AsfFile.cs:309 | the jump is the difference over the average, rounded to the nearest, ties to even; a zero average is refused |
| AsfFiles.Converging | asfMojo/File/AsfFile.cs:310-318 | a jump no shorter than the previous non-zero one is shortened by one (or kept at one), in its own direction; a shorter one is kept |
| AsfFiles.Clamp | asfMojo/File/AsfFile.cs:320-333 | the new offset stays within the header end and the last packet; a jump inside is kept, one past either bound stops at it |
| AsfFiles.TrackBack | asfMojo/File/AsfFile.cs:339-345 | stepping back packet by packet ends at or before the offset, on a packet where the stream's time is found |
| AsfFiles.Converge | asfMojo/File/AsfFile.cs:302-364 | within 500 probes, a packet whose time is within the tolerance, or one past the target reached by a one-packet step; at most the last packet's offset |
| AsfFiles.AdvanceEnd | asfMojo/File/AsfFile.cs:366-388 | the end search moves forward until an audio time at or past the requested end, or past the last packet |
| AsfFiles.BackToKeyframe | asfMojo/File/AsfFile.cs:389-430 | the start search moves back to a keyframe (any packet for audio) at or before the target time, or stops at the header end; none when video without a keyframe reaches it |
| AsfFiles.StartPosition | asfMojo/File/AsfFile.cs:389-442 | a start position at or before the match, at the requested time, placed as `StartPlaced` says |
| AsfFiles.EndPosition | asfMojo/File/AsfFile.cs:366-442 | an end position placed as `EndPlaced` says, including the current packet |
| AsfFiles.Locate | asfMojo/File/AsfFile.cs:302-442 | the search's result is a start or end placement by `isStart` |
| AsfFiles.AfterDataAsWrittenExact | asfMojo/File/AsfFile.cs:214 | the 32-bit sum is the true one exactly when the true one fits 32 bits |
| AsfFiles.AfterDataAsWrittenRewinds | asfMojo/File/AsfFile.cs:214 | 65536 packets of 65536 bytes after a 5000-byte header send the reader back to offset 5000 |
| AsfFiles.AfterDataFollowsLastPacket | asfMojo/File/AsfFile.cs:214 | the objects after the data start right after the last packet |
| AsfFiles.ObjectReaderLawful | asfMojo/File/AsfFile.cs:199-217 | the object reader only advances, and its objects are writable |
| AsfFiles.WalkFrom | asfMojo/File/AsfFile.cs:199-217 | the walk stops with no configuration exactly when the first object is not a Header Object |
| AsfFiles.WalkSettings | asfMojo/File/AsfFile.cs:210 | the configuration the walk builds is every object's effect on it, in order |
| AsfFiles.WalkObjects | asfMojo/File/AsfFile.cs:199-217 | the objects walked are writable, start at the position, and the first is the Header Object |
| AsfFiles.GetConfiguration | asfMojo/File/AsfFile.cs:190-220 | the header objects and configuration are those of the walk from the start of the file; null exactly when the file does not start with a Header Object |
| AsfFiles.ToInt64 | asfMojo/File/AsfFile.cs:248 | a `long` value; exact when it fits |
| AsfFiles.ShortSpan | asfMojo/File/AsfFile.cs:248 | `Convert.ToUInt32` of the span succeeds exactly when the span fits 32 bits |
| AsfFiles.FloorDivision | asfMojo/File/AsfFile.cs:506 | unsigned division rounds down |
| AsfFiles.Average | asfMojo/File/AsfFile.cs:506 | the quotient times the count is at most the duration, and one more is past it |
| AsfFiles.FindLast | asfMojo/File/AsfFile.cs:539-561 | stepping back from the last packet to one that carries the stream, never reaching the header |
| AsfFiles.ScanTimes | asfMojo/File/AsfFile.cs:518-561 | the four times are first and last times of the video (when present) and audio streams |
| AsfFiles.DataEnd | asfMojo/File/AsfFile.cs:578-579 | the end of the first Data Object, when there is one |
| AsfFiles.FirstData | asfMojo/File/AsfFile.cs:185-188 | the first Data Object in the list, or none when there is none |
| AsfFiles.ReadHeader | asfMojo/File/AsfFile.cs:162-170 | the first `size` bytes of the file; a file too short never ends the loop |
| AsfFiles.LoadFileHeader | asfMojo/File/AsfFile.cs:156-173 | the objects, configuration and header bytes of a file that loads; any failure is one of the load's failures |
| AsfFiles.FirstHeader | asfMojo/File/AsfFile.cs:98 | the first Header Object in the list, or none |
| AsfFiles.BeforeData | asfMojo/File/AsfFile.cs:91-96 | the objects before the first Data Object |
| AsfFiles.PatchHeader | asfMojo/File/AsfFile.cs:98-99 | only the Header Object's header size changes |
| AsfFiles.PatchKeeps | asfMojo/File/AsfFile.cs:98-99 | patching the header size keeps the objects writable, the Data Object's place and the header length |
| AsfFiles.PacketBytes | asfMojo/File/AsfFile.cs:116-127 | at most `max` bytes of the file from the start, fewer only at its end |
| AsfFiles.CopyPackets | asfMojo/File/AsfFile.cs:116-127 | the copy loop, in 32768-byte blocks, gives `PacketBytes` |
| AsfFiles.MaxBytesAsWrittenDropsPackets | asfMojo/File/AsfFile.cs:119 | 65536 packets of 65536 bytes give a limit of 0, so no packet is copied |
| AsfFiles.Piece | asfMojo/File/AsfFile.cs:109-129 | an object serialises to its length, plus the packets for the Data Object |
| AsfFiles.WriteAllSplit | asfMojo/File/AsfFile.cs:107-130 | writing two lists is writing each in turn |
| AsfFiles.WrittenLength | asfMojo/File/AsfFile.cs:107-130 | objects without a Data Object write their lengths' sum |
| AsfFiles.DataFollowsHeader | asfMojo/File/AsfFile.cs:107-130 | the objects before the Data Object write exactly the header length |
| AsfFiles.WriteAllFails | asfMojo/File/AsfFile.cs:107-130 | a failure stops the writing |
| AsfFiles.SumHeaderLengths | asfMojo/File/AsfFile.cs:91-96 | the loop adds the lengths up to the first Data Object |
| AsfFiles.WriteObjects | asfMojo/File/AsfFile.cs:107-130 | the output loop gives `WriteAll` of the objects with the copied packets |
| AsfFiles.Patched | asfMojo/File/AsfFile.cs:91-99 | the header size patched to the header length: present exactly when there is a Header Object, keeping the Data Object's place and the header length |
| AsfFiles.DataAfterHeader | asfMojo/File/AsfFile.cs:107-130 | the output is the header, then the Data Object's header, then the packets, then the rest |
| AsfFiles.WriteDataFirst | asfMojo/File/AsfFile.cs:109-129 | a Data Object writes its own bytes and then the packets |
| AsfFiles.RewriteRecordsDataStart | asfMojo/File/AsfFile.cs:79-137 | the rewritten file's header size (mod 2^32) is where the Data Object starts, followed by the packets |
| AsfFiles.RewriteCopiesAllPackets | asfMojo/File/AsfFile.cs:119 | with the exact product every packet byte of the file is copied |
| AsfFiles.CopyInto | asfMojo/File/AsfFile.cs:148 | the bytes land at the offset, the rest of the buffer is kept |
| AsfFiles.AsfFile.Loaded | asfMojo/File/AsfFile.cs:57-64 | the file holds its name, data, configuration, objects and header, with an empty range |
| AsfFiles.AsfFile.GetAveragePacketDuration | asfMojo/File/AsfFile.cs:496-507 | the media type's duration over the packet count, rounded down; no packets is an error |
| AsfFiles.AsfFile.GetFilePosition | asfMojo/File/AsfFile.cs:256-443 | a position placed for the requested time, as start or end |
| AsfFiles.AsfFile.FindRange | asfMojo/File/AsfFile.cs:222-244 | a start position, and the end position or the end of the file for end 0 |
| AsfFiles.AsfFile.StoreRange | asfMojo/File/AsfFile.cs:246-253 | the offsets are stored; the length when the span fits 32 bits and the file stream closed; otherwise an error after the offsets |
| AsfFiles.AsfFile.SetOffsetRange | asfMojo/File/AsfFile.cs:222-254 | a range found for the times sets the offsets and length; none found changes nothing |
| AsfFiles.AsfFile.GetStreamingHeader | asfMojo/File/AsfFile.cs:142-151 | a fresh copy of the header, or none |
| AsfFiles.AsfFile.Open | asfMojo/File/AsfFile.cs:446-458 | the file stream is opened at the start offset, which succeeds exactly for a non-negative offset |
| AsfFiles.AsfFile.Close | asfMojo/File/AsfFile.cs:474-481 | the file stream is closed |
| AsfFiles.AsfFile.Update | asfMojo/File/AsfFile.cs:79-137 | no Header Object is an error with nothing changed; otherwise the header size is patched and the output is the rewrite of the objects and packets, replacing the file when overwriting |
| AsfFiles.AsfFile.Read | asfMojo/File/AsfFile.cs:483-494 | -1 when the file cannot be opened, 0 at the end of the range, otherwise up to the count or the range's end of the file's bytes into the buffer |
| AsfFiles.AsfFile.SetAsfFileProperties | asfMojo/File/AsfFile.cs:510-583 | on success the four times are scanned from the packets, the end offset is the Data Object's end and the media type is video exactly for a positive video end time |
| AsfFiles.AsfFile.StoreProperties | asfMojo/File/AsfFile.cs:573-582 | the times are stored; no Data Object is an error |
| AsfFiles.AsfFile.Load | asfMojo/File/AsfFile.cs:57-76 | a file that loads holds its objects, configuration and header, with an empty range; a failing load reports the failure |
| AsfFiles.AsfFile.ReadProperties | asfMojo/File/AsfFile.cs:74-75 | the properties call's failures surface and its `false` result is ignored; the file stays valid |
| AsfIndex.IntervalMs | asfMojo/Parsing/AsfObjects.cs:990 | the interval in milliseconds fits the 32-bit interval divided by 10000 |
| AsfIndex.SimpleEntry | asfMojo/Parsing/AsfObjects.cs:994-1001 | an entry decodes exactly when its six bytes are there, its packet number is non-negative as an `int` and its range lies within the packets; it then holds its number, count, id, the packets of its range and the time i intervals in 32 bits |
| AsfIndex.SimpleEntriesShape | asfMojo/Parsing/AsfObjects.cs:992-1003 | the entries are, one by one, the entries at their 6-byte steps |
| AsfIndex.SimpleEntriesStop | asfMojo/Parsing/AsfObjects.cs:992-1003 | the first failing entry is the constructor's failure |
| AsfIndex.ReadSimpleEntries | asfMojo/Parsing/AsfObjects.cs:992-1003 | the entry loop gives `SimpleEntries` |
| AsfIndex.ReadSimpleIndex | asfMojo/Parsing/AsfObjects.cs:973-1004 | the constructor gives `ParseSimpleIndex`: the struct, the 32-bit size and the entries from after the struct |
| AsfIndex.ReadSpecifiers | asfMojo/Parsing/AsfObjects.cs:885-894 | the specifiers read exactly when their four bytes each are there, one per count |
| AsfIndex.ReadBlock | asfMojo/Parsing/AsfObjects.cs:904-926 | a block reads exactly when its entry count, offsets and rows are there; one offset per specifier, one row per entry, one offset per specifier in each row |
| AsfIndex.BlockRow | asfMojo/Parsing/AsfObjects.cs:918-925 | a row holds one offset per specifier |
| AsfIndex.ReadBlocks | asfMojo/Parsing/AsfObjects.cs:900-928 | one shaped block per count, read from the position onward |
| AsfIndex.Normalize | asfMojo/Parsing/AsfObjects.cs:922-923 | every offset but the 32-bit maximum is kept |
| AsfIndex.BaseOffsets | asfMojo/Parsing/AsfObjects.cs:906-911 | every specified stream has a block offset |
| AsfIndex.ResetLists | asfMojo/Parsing/AsfObjects.cs:912 | every specified stream's list is emptied; other streams are kept |
| AsfIndex.OpenLists | asfMojo/Parsing/AsfObjects.cs:912 | every specified stream has a list; existing lists are kept and new ones empty |
| AsfIndex.AddRow | asfMojo/Parsing/AsfObjects.cs:918-925 | adding a row keeps the set of streams |
| AsfIndex.AddRows | asfMojo/Parsing/AsfObjects.cs:915-926 | adding the rows keeps the set of streams |
| AsfIndex.BlockBase | asfMojo/Parsing/AsfObjects.cs:902-913 | every specified stream has a base offset |
| AsfIndex.OffsetsAsWritten | asfMojo/Parsing/AsfObjects.cs:899-928 | the offsets with each block resetting the lists, as the source does; after a block every specified stream has a list |
| AsfIndex.Offsets | asfMojo/Parsing/AsfObjects.cs:899-928 | the offsets with the lists opened once; after a block every specified stream has a list |
| AsfIndex.AddRowAt | asfMojo/Parsing/AsfObjects.cs:918-925 | a row appends the stream's offsets to its list |
| AsfIndex.AddRowsAt | asfMojo/Parsing/AsfObjects.cs:915-926 | the rows append the stream's offsets, row by row |
| AsfIndex.OffsetsAccumulate | asfMojo/Parsing/AsfObjects.cs:899-928 | a stream's offsets are every block's offsets for it, in order |
| AsfIndex.OffsetsAsWrittenLastBlock | asfMojo/Parsing/AsfObjects.cs:912 | as written, a stream keeps only the last block's offsets |
| AsfIndex.RowPartAppends | asfMojo/Parsing/AsfObjects.cs:924 | a row's offsets are appended after what the list held |
| AsfIndex.RowsPartAppends | asfMojo/Parsing/AsfObjects.cs:915-926 | the rows' offsets are appended after what the list held |
| AsfIndex.AllPartsConcatenate | asfMojo/Parsing/AsfObjects.cs:900-928 | one more block appends its offsets |
| AsfIndex.FirstBlockLost | asfMojo/Parsing/AsfObjects.cs:912 | two blocks with offsets 7 and 9 for stream 1 give [9] as written and [7, 9] accumulated |
| AsfIndex.SeekPoint | asfMojo/Parsing/AsfObjects.cs:940-946 | a zero packet size fails; a seek point holds its id, one packet, that packet's number |
| AsfIndex.SeekPointHoldsOffset | asfMojo/Parsing/AsfObjects.cs:942 | the packet number is the offset over the packet size, cast to 32 bits; when it fits an `int` the offset lies inside that packet |
| AsfIndex.SeekPointsShape | asfMojo/Parsing/AsfObjects.cs:938-947 | the seek points are, one by one, the seek points of the offsets, numbered from 0 |
| AsfIndex.SeekPointsStop | asfMojo/Parsing/AsfObjects.cs:938-947 | the first failing offset is the failure |
| AsfIndex.BuildSeekPoints | asfMojo/Parsing/AsfObjects.cs:936-947 | the loop gives `SeekPoints` of all the offsets |
| AsfIndex.StreamOrder | asfMojo/Parsing/AsfObjects.cs:933 | each specified stream once, and no other |
| AsfIndex.StreamIndexes | asfMojo/Parsing/AsfObjects.cs:933-949 | one stream index per stream, in order, holding the seek points of its offsets |
| AsfIndex.OrderKeyed | asfMojo/Parsing/AsfObjects.cs:933 | every stream in the order has offsets |
| AsfIndex.IndexedStreams | asfMojo/Parsing/AsfObjects.cs:930-949 | no blocks give no streams; otherwise the streams are the indexes of the accumulated offsets |
| AsfIndex.ParseIndex | asfMojo/Parsing/AsfObjects.cs:872-950 | the struct, the 32-bit size, one specifier and one fitting block per count, and the streams indexed from them |
| AsfIndex.IndexStreams | asfMojo/Parsing/AsfObjects.cs:930-949 | every stream is specified, every specified stream is there when there are blocks, and each holds the seek points of all its blocks' offsets |
| AsfObjects.After | asfMojo/Parsing/AsfObjects.cs:105-106 | a read of `n` bytes advances by `n` when they are there, else stops at the end of the data |
| AsfObjects.HeaderAt | asfMojo/Parsing/AsfObjects.cs:33-35 | the object header holds a GUID and a 64-bit size |
| AsfObjects.HeaderOfBytes | asfMojo/Parsing/AsfObjects.cs:33-35 | the header depends only on its 24 bytes |
| AsfObjects.ReadBase | asfMojo/Parsing/AsfObjects.cs:27-57 | an object reads exactly when it is the Data Object, has size 0 or lies within the data; it holds its GUID, size and position, and the raw bytes of its whole size except for the Data Object, which holds none |
| AsfObjects.BaseRoundTrip | asfMojo/Parsing/AsfObjects.cs:27-62 | the raw bytes written back and read at any place give the same object at that place |
| AsfObjects.ParseFileHeader | asfMojo/Parsing/AsfObjects.cs:141-151 | the Header Object's struct, and its size cast to 32 bits |
| AsfObjects.StoredFileHeader | asfMojo/Parsing/AsfObjects.cs:153-157 | the struct written back keeps its shape |
| AsfObjects.SerializeFileHeader | asfMojo/Parsing/AsfObjects.cs:153-163 | the Header Object writes 30 bytes |
| AsfObjects.FileHeaderRoundTrip | asfMojo/Parsing/AsfObjects.cs:141-157 | written then read, the Header Object keeps its header size and its fields, the object size becoming the header size |
| AsfObjects.BitrateRecord | asfMojo/Parsing/AsfObjects.cs:183-185 | the record's stream number is its flags' low 8 bits |
| AsfObjects.Records | asfMojo/Parsing/AsfObjects.cs:181-187 | one record per count |
| AsfObjects.BitratesShape | asfMojo/Parsing/AsfObjects.cs:177-188 | the bitrate map holds one entry per record, each record's bitrate under its stream number, and no other stream |
| AsfObjects.BitratesFail | asfMojo/Parsing/AsfObjects.cs:186 | adding fails exactly when two records name the same stream |
| AsfObjects.BitratesStop | asfMojo/Parsing/AsfObjects.cs:186 | the first duplicate ends the constructor with that failure |
| AsfObjects.ReadBitrates | asfMojo/Parsing/AsfObjects.cs:174-188 | the record loop gives `Bitrates` of the records |
| AsfObjects.StreamNumberOf | asfMojo/Parsing/AsfObjects.cs:454 | the stream number is the flags' low 8 bits |
| AsfObjects.StreamHead | asfMojo/Parsing/AsfObjects.cs:453-461 | the struct, the stream number, the encrypted flag exactly when bit 15 is set, and the stream type |
| AsfObjects.ParseAudio | asfMojo/Parsing/AsfObjects.cs:467-479 | the audio struct, then a skip forward |
| AsfObjects.VideoFormat | asfMojo/Parsing/AsfObjects.cs:486 | the video format struct keeps its shape |
| AsfObjects.CodecData | asfMojo/Parsing/AsfObjects.cs:496-500 | the codec data has the size asked for; reading continues forward |
| AsfObjects.ParseVideo | asfMojo/Parsing/AsfObjects.cs:483-500 | the video fails exactly when its format data size is under 40; otherwise it holds the format and the codec data of that size less 40 |
| AsfObjects.ParseStreamProperties | asfMojo/Parsing/AsfObjects.cs:450-502 | the head of the stream; audio media exactly for the audio type, video exactly for the video type, and failure exactly when the video fails |
| AsfObjects.StreamApplied | asfMojo/Parsing/AsfObjects.cs:470-494 | audio sets the audio stream and its format, video the video stream and the image size, each as `int`; nothing else changes |
| AsfObjects.ParseHeaderExtension | asfMojo/Parsing/AsfObjects.cs:286-294 | the struct, and the reader after it |
| AsfObjects.SpanProduct | asfMojo/Parsing/AsfObjects.cs:760-768 | the packets read take count times size bytes |
| AsfObjects.Chunk | asfMojo/Parsing/AsfObjects.cs:762 | a full read gives one packet's bytes |
| AsfObjects.Chunks | asfMojo/Parsing/AsfObjects.cs:760-768 | at most the count of packets |
| AsfObjects.ChunkAt | asfMojo/Parsing/AsfObjects.cs:760-768 | packet k is read whole from its place |
| AsfObjects.ChunksEnd | asfMojo/Parsing/AsfObjects.cs:762-763 | the loop stops before the count only at a short read |
| AsfObjects.DecodeAll | asfMojo/Parsing/AsfObjects.cs:765-767 | one decoded packet per chunk |
| AsfObjects.PayloadsBeforeCons | asfMojo/Parsing/AsfObjects.cs:766 | the payload id offset of a packet counts the payloads of those before it |
| AsfObjects.DecodeAllAt | asfMojo/Parsing/AsfObjects.cs:765-766 | packet k is decoded with the payloads before it as its id offset |
| AsfObjects.DataPacketAt | asfMojo/Parsing/AsfObjects.cs:755-768 | each packet is the decoding of its own bytes with that id offset |
| AsfObjects.ReadPackets | asfMojo/Parsing/AsfObjects.cs:755-768 | the packet loop gives `DataPackets` |
| AsfObjects.ParseDataObject | asfMojo/Parsing/AsfObjects.cs:740-771 | the struct, the header size as the position after it in 32 bits, and the packets read after it |
| AsfObjects.DataApplied | asfMojo/Parsing/AsfObjects.cs:747-770 | header size, packet count (32 bits) and packets are set; nothing else changes |
| AsfObjects.DecodeStreamBitrate | asfMojo/Parsing/AsfObjects.cs:174-188 | the records read after the struct, the map exactly when no stream repeats |
| AsfObjects.DecodeData | asfMojo/Parsing/AsfObjects.cs:740-771 | the Data Object body exactly when it parses |
| AsfObjects.DecodeIndex | asfMojo/Parsing/AsfObjects.cs:872-950 | the Index Object body exactly when it parses, ending where its reads end |
| AsfObjects.DecodeSimpleIndex | asfMojo/Parsing/AsfObjects.cs:973-1004 | the Simple Index Object body exactly when it parses, ending after its entries |
| AsfObjects.HeaderBodyAt | asfMojo/Parsing/AsfObjects.cs:87 | a Header Object body can be written back |
| AsfObjects.ContentDescriptionBodyAt | asfMojo/Parsing/AsfObjects.cs:81 | a Content Description body can be written back |
| AsfObjects.HeaderExtensionBodyAt | asfMojo/Parsing/AsfObjects.cs:86 | a Header Extension body can be written back |
| AsfObjects.FilePropertiesBodyAt | asfMojo/Parsing/AsfObjects.cs:85 | a File Properties body can be written back |
| AsfObjects.StreamBitrateBodyAt | asfMojo/Parsing/AsfObjects.cs:95 | a Stream Bitrate Properties body can be written back |
| AsfObjects.StreamPropertiesBodyAt | asfMojo/Parsing/AsfObjects.cs:97 | a Stream Properties body can be written back |
| AsfObjects.DataBodyAt | asfMojo/Parsing/AsfObjects.cs:82 | a Data Object body can be written back |
| AsfObjects.IndexBodyAt | asfMojo/Parsing/AsfObjects.cs:88 | an Index Object body can be written back |
| AsfObjects.SimpleIndexBodyAt | asfMojo/Parsing/AsfObjects.cs:94 | a Simple Index Object body can be written back |
| AsfObjects.StreamNamesEnd | asfMojo/Parsing/AsfObjects.cs:380-394 | the stream names end past their 4-byte heads and within the data; a language index named twice fails as `Dictionary.Add` does; otherwise the object is truncated |
| AsfObjects.ExtensionInfoRead | asfMojo/Parsing/AsfObjects.cs:398-420 | two info bytes are read exactly for a pixel aspect ratio or sample duration extension of info length 2 |
| AsfObjects.PayloadExtensionsEnd | asfMojo/Parsing/AsfObjects.cs:395-422 | the payload extensions end past their records and within the data; otherwise the object is truncated |
| AsfObjects.ExtendedStreamPropertiesEnd | asfMojo/Parsing/AsfObjects.cs:357-425 | the object ends past its struct, its stream names and its payload extensions, within the data; a short struct is truncated |
| AsfObjects.ExtendedStreamPropertiesBodyAt | asfMojo/Parsing/AsfObjects.cs:84 | an Extended Stream Properties body can be written back |
| AsfObjects.DecodeBody | asfMojo/Parsing/AsfObjects.cs:76-101 | the object's constructor by its type; every body can be written back |
| AsfObjects.Applied | asfMojo/Parsing/AsfObjects.cs:76-101 | the Header Object sets the packet header size, the Simple Index the index size (32 bits); the other objects leave the configuration alone except as `StreamApplied`, `DataApplied` and File Properties say |
| AsfObjects.Create | asfMojo/Parsing/AsfObjects.cs:76-101 | an object is its base, its body by its type, and the configuration it leaves |
| AsfObjects.ApplyToConfiguration | asfMojo/Parsing/AsfObjects.cs:76-101 | the configuration becomes `Applied` of the old one |
| AsfObjects.ApplyStream | asfMojo/Parsing/AsfObjects.cs:470-494 | the configuration becomes `StreamApplied` of the old one |
| AsfObjects.CreateAsfObject | asfMojo/Parsing/AsfObjects.cs:76-101 | succeeds exactly when `Create` does, with its object and configuration; a failure leaves the configuration unchanged |
| AsfObjects.Length | asfMojo/Parsing/AsfObjects.cs:65-68 | 30 for the Header Object, 46 for the Header Extension, 50 for the Data Object, the raw length for the objects that keep their bytes |
| AsfObjects.WriteFailure | asfMojo/Parsing/AsfObjects.cs:59-63 | a write failure keeps its output |
| AsfObjects.Serialize | asfMojo/Parsing/AsfObjects.cs:59-63 | an object writes its length; it fails exactly for content whose lengths do not fit 16 bits or File Properties shorter than their struct |
| FileProperties.ToInt64 | asfMojo/Parsing/AsfObjects.cs:219 | the `(long)` cast of a 64-bit field: a signed value that wraps back to the field |
| FileProperties.CreationTimeOf | asfMojo/Parsing/AsfObjects.cs:219 | adding the signed creation date to 1601-01-01 succeeds exactly when the result is a valid `DateTime`; it falls before 1601 exactly when the date's top bit is set |
| FileProperties.CreationDateOf | asfMojo/Parsing/AsfObjects.cs:255 | a time from 1601 on becomes its ticks since then; an earlier one wraps into the top half of 64 bits |
| FileProperties.CreationTimeRoundTrip | asfMojo/Parsing/AsfObjects.cs:219-255 | every creation time written is read back |
| FileProperties.CreationDateRoundTrip | asfMojo/Parsing/AsfObjects.cs:219-255 | every creation date that reads is written back unchanged |
| FileProperties.FlagsOf | asfMojo/Parsing/AsfObjects.cs:260-264 | bit 1 exactly when broadcast, bit 2 exactly when seekable, and no other bit |
| FileProperties.FlagsRebuilt | asfMojo/Parsing/AsfObjects.cs:245-264 | the flags read and written keep their two low bits |
| FileProperties.FieldRanges | asfMojo/Parsing/AsfStruct.cs:135-153 | each field of the struct holds a value of its own width |
| FileProperties.FromFields | asfMojo/Parsing/AsfObjects.cs:219-246 | the properties hold the fields, the creation time given, broadcast exactly for bit 1 and seekable exactly for bit 2 |
| FileProperties.Parse | asfMojo/Parsing/AsfObjects.cs:214-247 | the constructor succeeds exactly when the creation time is valid, and then holds the struct's fields |
| FileProperties.SerializedFields | asfMojo/Parsing/AsfObjects.cs:255-266 | the fields written keep the struct's shape |
| FileProperties.Serialize | asfMojo/Parsing/AsfObjects.cs:249-272 | writing into the raw bytes succeeds exactly when they hold the struct; the length and the bytes after the struct are kept |
| FileProperties.PatchFront | asfMojo/Parsing/AsfObjects.cs:251-268 | writing at the start of the raw bytes replaces their front |
| FileProperties.SerializeRoundTrip | asfMojo/Parsing/AsfObjects.cs:214-272 | written then read at any place, the properties keep creation time, file id, file size, packet count, bit rate, flags, and take the configured packet size |
| FileProperties.ParseSerialized | asfMojo/Parsing/AsfObjects.cs:214-247 | a struct holding the written fields reads back the same properties |
| FileProperties.SerializedStruct | asfMojo/Parsing/AsfObjects.cs:268 | the struct read back is the struct written |
| FileProperties.SerializedValues | asfMojo/Parsing/AsfObjects.cs:255-266 | the written fields are the creation date, packet count, file id, file size, flags, bit rate and the configured packet size |
| FileProperties.Applied | asfMojo/Parsing/AsfObjects.cs:232-239 | packet size and bit rate are set, preroll and packet count cast to 32 bits; nothing else changes |
| FileProperties.ApplyToConfiguration | asfMojo/Parsing/AsfObjects.cs:232-239 | the configuration becomes `Applied` of the old one |
| UpdateOptions.EditContentFields | asfMojo/File/AsfFileUpdateOptions.cs:89-98 | each text given replaces its property; each one not given is kept |
| UpdateOptions.NoContentEdits | asfMojo/File/AsfFileUpdateOptions.cs:89-98 | with no text given the content is unchanged |
| UpdateOptions.FirstProperties | asfMojo/File/AsfFileUpdateOptions.cs:83 | the first File Properties Object, or none when there is none |
| UpdateOptions.FirstContent | asfMojo/File/AsfFileUpdateOptions.cs:87 | the first Content Description Object, or none when there is none |
| UpdateOptions.SetCreationTimeEffect | asfMojo/File/AsfFileUpdateOptions.cs:81-85 | setting the creation time fails exactly when there is no File Properties Object; otherwise only the first one's creation time changes |
| UpdateOptions.SameContentIndex | asfMojo/File/AsfFileUpdateOptions.cs:83-87 | changing a File Properties Object does not move the first Content Description Object |
| UpdateOptions.EditObjectsEffect | asfMojo/File/AsfFileUpdateOptions.cs:79-98 | the edit fails exactly when a creation time is given without a File Properties Object or a text without a Content Description Object; otherwise only those two objects' bodies change, as given |
| UpdateOptions.EditsKeepWritable | asfMojo/File/AsfFileUpdateOptions.cs:79-100 | edited objects can still be written |
| UpdateOptions.EditedContentReadBack | asfMojo/File/AsfFileUpdateOptions.cs:89-100 | the edited content written and read back gives each text given, and the old one otherwise |
| UpdateOptions.EditedCreationTimeReadBack | asfMojo/File/AsfFileUpdateOptions.cs:81-100 | the edited creation time written and read back is the one given |
| UpdateOptions.AsfFileUpdateOptions.constructor | asfMojo/File/AsfFileUpdateOptions.cs:36-39 | the options name the file and record no edit |
| UpdateOptions.AsfFileUpdateOptions.WithFileCreationTime | asfMojo/File/AsfFileUpdateOptions.cs:41-45 | the creation time is recorded and the same options returned |
| UpdateOptions.AsfFileUpdateOptions.WithAuthor | asfMojo/File/AsfFileUpdateOptions.cs:47-51 | the author is recorded and the same options returned |
| UpdateOptions.AsfFileUpdateOptions.WithDescription | asfMojo/File/AsfFileUpdateOptions.cs:53-57 | the description is recorded and the same options returned |
| UpdateOptions.AsfFileUpdateOptions.WithTitle | asfMojo/File/AsfFileUpdateOptions.cs:59-63 | the title is recorded and the same options returned |
| UpdateOptions.AsfFileUpdateOptions.WithRating | asfMojo/File/AsfFileUpdateOptions.cs:65-69 | the rating is recorded and the same options returned |
| UpdateOptions.AsfFileUpdateOptions.WithCopyright | asfMojo/File/AsfFileUpdateOptions.cs:71-75 | the copyright is recorded and the same options returned |
| UpdateOptions.AsfFileUpdateOptions.Update | asfMojo/File/AsfFileUpdateOptions.cs:77-101 | a failed edit is reported with the file unchanged; otherwise the edited objects get the header size patched and are rewritten with the packets, to the target or the file's own name |
| ContentDescription.StoredText | asfMojo/Parsing/AsfObjects.cs:1101-1105 | a text is stored as its UTF-16 bytes and a two-byte terminator |
| ContentDescription.ConcatLength | asfMojo/Parsing/AsfObjects.cs:1100-1106 | the texts written take the sum of their lengths |
| ContentDescription.StoredTextsLength | asfMojo/Parsing/AsfObjects.cs:1109-1115 | the texts written take the sum of their stored lengths |
| ContentDescription.ReadText | asfMojo/Parsing/AsfObjects.cs:1053-1055 | a text read has its NULs trimmed from both ends |
| ContentDescription.ReadTexts | asfMojo/Parsing/AsfObjects.cs:1052-1075 | one text per length |
| ContentDescription.LengthFields | asfMojo/Parsing/AsfStruct.cs:96-106 | the five length fields |
| ContentDescription.ParseContent | asfMojo/Parsing/AsfObjects.cs:1042-1075 | the struct, then the five texts; the object ends after the struct and the five lengths |
| ContentDescription.StoredHeader | asfMojo/Parsing/AsfObjects.cs:1079-1095 | the struct written keeps its shape |
| ContentDescription.SerializeAsWritten | asfMojo/Parsing/AsfObjects.cs:1077-1106 | the object written with each length cast to 16 bits, as the source does; it is as long as the content |
| ContentDescription.Serialize | asfMojo/Parsing/AsfObjects.cs:1077-1106 | the object is written exactly when every length fits 16 bits, and it is as long as the content |
| ContentDescription.PlainWellFormed | asfMojo/Parsing/AsfObjects.cs:1103 | a text without surrogates is well-formed UTF-16 |
| ContentDescription.ReadStoredText | asfMojo/Parsing/AsfObjects.cs:1053-1103 | a well-formed text with no NUL at its ends reads back from its stored bytes |
| ContentDescription.ReadTextsCons | asfMojo/Parsing/AsfObjects.cs:1052-1075 | the texts are read one after another |
| ContentDescription.ReadPieces | asfMojo/Parsing/AsfObjects.cs:1052-1075 | reading the stored pieces by their lengths reads each piece |
| ContentDescription.StoredLengthFields | asfMojo/Parsing/AsfObjects.cs:1079-1092 | the lengths written are the texts' stored lengths |
| ContentDescription.ContentRoundTrip | asfMojo/Parsing/AsfObjects.cs:1042-1106 | content whose lengths fit, written and read at any place, gives the same five texts and the written struct, ending after the content |
| ContentDescription.StoredTextsRead | asfMojo/Parsing/AsfObjects.cs:1052-1106 | the five stored texts read back as the content |
| ContentDescription.LengthWrapLosesTitle | asfMojo/Parsing/AsfObjects.cs:1080 | a title of 65536 bytes or more stored, written as the source does, does not read back |
| ContentDescription.WrapShortens | asfMojo/Parsing/AsfObjects.cs:1080 | a wrapped length covers fewer than all the title's characters |
| ContentDescription.LongTitleExample | asfMojo/Parsing/AsfObjects.cs:1080 | a title of 32767 'A' characters is well-formed and takes exactly 65536 bytes stored |

## Left out

- File I/O, logging and `Dispose`: a file is a byte sequence, and a write produces the bytes written. The temporary file and the replace in `AsfFile.Update` become the target name returned with the bytes.
- Marshalling by `Marshal`/`GCHandle` and the reflection in `GetStructProperties` are replaced by explicit little-endian field decoders over the struct layouts.
- `config.Duration` and the `double` arithmetic of the UI and media decoders are not modelled.
- `AsfAudio`, `AsfImage`, `WaveMemoryStreamProperties` and `AsfImageProperties` are not modelled. They call the Windows Media COM reader and scale samples in floating point.
- UI code and the command-line program are not modelled. They are views, view models and console output.
- The `GetAsfObjects<T>`/`GetAsfObject<T>` generics are modelled by kind tests on the object list (`FirstData`, `FirstHeader`, `UpdateOptions.FirstProperties`, `UpdateOptions.FirstContent`).
- AsfIStreams.AsfIStream: `Write`, `SetSize`, `Commit`, `Revert`, `Clone`, `CopyTo`, `LockRegion` and `UnlockRegion` are not modelled, because they do nothing in the source. `Stat` is not modelled either; it reports the base stream's length. `Close` disposes the base stream, which is file I/O.
- AsfFiles.RoundedJump: rounds the exact quotient `diff / average` to the nearest integer, ties to even. The source rounds the single-precision `(float)diff / averagePacketDuration` (AsfFile.cs:309). The two differ once `diff` needs more than 24 bits: diff = 12582914 with average 3 gives 4194305 here and 4194304 in the source.
- AsfObjects.ReadBase: an object running past the end of the file is `Truncated`. In the source the base constructor's read loop never ends on such a file, since `Stream.Read` keeps returning 0.
- AsfIndex.SimpleEntry: an entry past the end of the file is `Truncated`. The source reads on with the bytes left in its buffer from the previous read, since `Stream.Read` returns 0 and leaves the buffer unchanged.
- AsfIndex.ReadSpecifiers: a specifier past the end of the file is `Truncated`. The source reads on with stale buffer bytes as above.
- AsfIndex.ReadBlock: a block past the end of the file is `Truncated`. The source reads on with stale buffer bytes as above.
- FileProperties.Parse: does not compute `Duration`, which is `TimeSpan.FromTicks((long)PlayDuration) - TimeSpan.FromMilliseconds(Preroll)`. It also does not raise the `OverflowException` that expression throws for a large play duration or preroll. The bound depends on `double` conversion, which the model leaves out.
- FileProperties.Applied: does not set `config.Duration` (a `double` in seconds), and does not raise the `OverflowException` of the same expression.
- AsfObjects.ExtendedStreamPropertiesEnd: an Extended Stream Properties Object whose struct, stream names (`AsfObjects.StreamNamesEnd`) or payload extension records (`AsfObjects.PayloadExtensionsEnd`) run past the end of the file is `Truncated`. The source reads on instead. `ReadStruct` and the name buffer are fresh, so they keep zeros past the end. The 2-byte buffer is reused, so a name length read past the end repeats the language index. `ReadByte` gives -1, cast to 255. Only a repeated language index throws. The object then ends at the end of the file, where the walk reads a zero-size object and stops, so the source returns a configuration where the model fails.
- AsfObjects.DecodeBody: objects not decoded field by field end where their size says. That agrees with the source for Padding, Index Parameters Placeholder and unknown objects, which seek there. Codec List, Extended Content Description, Language List, Metadata, Script Command, Stream Prioritization, Bitrate Mutual Exclusion, Compatibility, Timecode Index Parameters and Index Parameters end where their reads stop, which is the same place when their records fill the object. The Extended Stream Properties Object is modelled to stop where its reads stop.
- AsfFiles.WalkFrom: the header walk takes a fuel bound, because the source's walk does not end when an object leaves the stream where it started. A walk that runs out of fuel reports `Endless`.
- AsfFiles.AsfFile.GetFilePosition: the requested time is an integer number of milliseconds. The source truncates `double` seconds times 1000.
- AsfStreams.AsfStream: the 64-bit stream position and lengths are unbounded integers. The one 32-bit sum the source computes, the segment length, is modelled with its wrap (`Segments.StreamLengthWraps`).
- Text is UTF-16 code units. There is no normalisation, and `DateTime` values are ticks.

## Findings

| source | as written | input that shows it | evidently intended | confidence | as-written member | corrected member |
|---|---|---|---|---|---|---|
| asfMojo/File/AsfFile.cs:214 | the walk resumes after the Data Object at `AsfHeaderSize + AsfPacketCount * AsfPacketSize`, computed in 32 bits | a 5000-byte header and 65536 packets of 65536 bytes: the sum wraps to 5000, and the walk re-reads the packets as header objects | the objects after the data start right after the last packet | not executed | AsfFiles.AfterDataAsWritten, AsfFiles.AfterDataAsWrittenRewinds | AsfFiles.AfterData, AsfFiles.AfterDataAsWrittenExact, AsfFiles.AfterDataFollowsLastPacket |
| asfMojo/File/AsfFile.cs:119 | the rewrite copies at most `AsfPacketCount * AsfPacketSize` packet bytes, a product computed in 32 bits | 65536 packets of 65536 bytes: the limit wraps to 0 and no packet is copied | every packet byte of the file is copied | not executed | AsfFiles.MaxBytesAsWritten, AsfFiles.MaxBytesAsWrittenDropsPackets | AsfFiles.RewriteCopiesAllPackets, AsfFiles.RewriteRecordsDataStart |
| asfMojo/Parsing/AsfObjects.cs:912 | every index block replaces each stream's offset list with an empty one | an Index Object with two blocks giving stream 1 the offsets 7 and 9: only [9] is kept | each stream's seek points come from all blocks, in order | not executed | AsfIndex.OffsetsAsWritten, AsfIndex.OffsetsAsWrittenLastBlock, AsfIndex.FirstBlockLost | AsfIndex.Offsets, AsfIndex.OffsetsAccumulate, AsfIndex.IndexStreams |
| asfMojo/Parsing/AsfObjects.cs:1080-1092 | each string's byte count `2 * Length + 2` is cast to `ushort` | a title of 32767 characters takes 65536 bytes, so its length is written as 0 and the title reads back wrong | a string too long for its 16-bit length is refused, and every written string reads back | not executed | ContentDescription.SerializeAsWritten, ContentDescription.LengthWrapLosesTitle, ContentDescription.LongTitleExample | ContentDescription.Serialize, ContentDescription.ContentRoundTrip |

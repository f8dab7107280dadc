// An ASF file opened for reading: the header walk that builds the object list and the
// configuration, the time search that maps a requested time to a packet offset, the
// offset range a segment is read from, and the rewrite of the header with the packets
// copied after it. The file is a byte sequence; a file stream is a position in it.

module AsfFiles {
  import opened Bytes
  import opened Wrappers
  import opened Configuration
  import opened StreamInfos
  import opened FilePositions
  import PacketCodec
  import AsfObjects
  import AsfGuids

  /** The exceptions the file's operations raise, by cause. */
  datatype FileError =
    | InvalidMediaFile                            // the header could not be loaded
    | NoFileHeader                                // no Header Object in the list
    | NoDataObject                                // no Data Object in the list
    | DivideByZero                                // an integer division by zero
    | Overflow                                    // `Math.Abs(int.MinValue)` or a checked conversion
    | NonFiniteJump                               // a jump computed from an average duration of 0
    | NegativeSeek                                // a seek before the start of the file
    | InvalidPacket(packetError: PacketCodec.PacketError)
    | WriteFailed(writeError: AsfObjects.WriteError)
    | InvalidArguments                            // a read's buffer, offset and count do not agree
    | InvalidObject(objectError: AsfObjects.ObjectError)
    | Endless                                     // a loop the source would never leave

  // ------------------------------------------------------------ reading the file

  /** The bytes a read of `n` bytes at `pos` returns: fewer at the end of the file. */
  function ReadCount(data: seq<u8>, pos: nat, n: nat): (k: nat)
    ensures k <= n
    ensures pos + k <= |data| || k == 0
    ensures k < n ==> pos + k >= |data|
  {
    if pos >= |data| then 0 else if pos + n > |data| then |data| - pos else n
  }

  /** The bytes a read of `n` bytes at `pos` returns: the file's own, as many as `ReadCount`. */
  function ReadBytes(data: seq<u8>, pos: nat, n: nat): (b: seq<u8>)
    ensures |b| == ReadCount(data, pos, n)
    ensures forall i :: 0 <= i < |b| ==> pos + i < |data| && b[i] == data[pos + i]
  {
    var k := ReadCount(data, pos, n);
    if k == 0 then [] else data[pos..pos + k]
  }

  // ------------------------------------------------------------ FindNextTimeOffset

  /** Payload i belongs to the stream and starts its media object. */
  predicate StartsObject(ps: seq<PayloadInfo>, streamId: int, i: nat)
    requires i < |ps|
  {
    ps[i].streamId == streamId && ps[i].offsetIntoMedia == 0
  }

  /** The first payload at or after i that belongs to the stream and starts its media object. */
  function FirstStart(ps: seq<PayloadInfo>, streamId: int, i: nat): (r: Option<nat>)
    requires i <= |ps|
    ensures r.Some? ==> i <= r.value < |ps| && StartsObject(ps, streamId, r.value)
    ensures r.Some? ==> forall j :: i <= j < r.value ==> !StartsObject(ps, streamId, j)
    ensures r.None? ==> forall j :: i <= j < |ps| ==> !StartsObject(ps, streamId, j)
    decreases |ps| - i
  {
    if i == |ps| then None
    else if StartsObject(ps, streamId, i) then Some(i)
    else FirstStart(ps, streamId, i + 1)
  }

  /** The last payload of the stream. */
  function LastOf(ps: seq<PayloadInfo>, streamId: int): (r: Option<PayloadInfo>)
    ensures r.Some? <==> exists i :: 0 <= i < |ps| && ps[i].streamId == streamId
    ensures r.Some? ==> r.value.streamId == streamId && r.value in ps
  {
    if ps == [] then None
    else if ps[|ps| - 1].streamId == streamId then Some(ps[|ps| - 1])
    else
      var r := LastOf(ps[..|ps| - 1], streamId);
      assert forall i :: 0 <= i < |ps| - 1 ==> ps[..|ps| - 1][i] == ps[i];
      r
  }

  /**
   * The payload whose presentation time the search takes from a packet: the first payload
   * of the stream that starts a media object, else the stream's last payload; none when the
   * packet carries nothing of the stream.
   */
  function TimedPayload(ps: seq<PayloadInfo>, streamId: int): Option<PayloadInfo>
  {
    match FirstStart(ps, streamId, 0)
    case Some(i) => Some(ps[i])
    case None => LastOf(ps, streamId)
  }

  /** A packet gives a time exactly when it carries a payload of the stream, and that payload is one. */
  lemma TimedPayloadOfStream(ps: seq<PayloadInfo>, streamId: int)
    ensures TimedPayload(ps, streamId).Some? <==> exists i :: 0 <= i < |ps| && ps[i].streamId == streamId
    ensures TimedPayload(ps, streamId).Some? ==>
      TimedPayload(ps, streamId).value.streamId == streamId && TimedPayload(ps, streamId).value in ps
  {
    var f := FirstStart(ps, streamId, 0);
    if f.Some? {
      assert ps[f.value].streamId == streamId;
    }
  }

  /**
   * The `foreach` over the packet's payloads of the stream: each sets the time, and one that
   * starts its media object ends the search.
   */
  method ScanPayloads(ps: seq<PayloadInfo>, streamId: u32) returns (r: Option<PayloadInfo>)
    ensures r == TimedPayload(ps, streamId)
  {
    r := None;
    var i := 0;
    while i < |ps|
      invariant i <= |ps|
      invariant FirstStart(ps, streamId, 0) == FirstStart(ps, streamId, i)
      invariant r == LastOf(ps[..i], streamId)
    {
      assert ps[..i + 1][..i] == ps[..i];
      if ps[i].streamId == streamId {
        r := Some(ps[i]);
        if ps[i].offsetIntoMedia == 0 {
          return;
        }
      }
      i := i + 1;
    }
    assert ps[..i] == ps;
  }

  /**
   * The start of the last packet, in the source's unsigned 32-bit arithmetic: a packet count
   * of 0 wraps to the largest count.
   */
  function LastPacketOffset(s: Settings): u32
  {
    (s.asfHeaderSize + ((s.asfPacketCount - 1) % 0x1_0000_0000 * s.asfPacketSize) % 0x1_0000_0000) % 0x1_0000_0000
  }

  /** Without wrap-around, the last packet starts packetCount - 1 packets after the header. */
  lemma LastPacketInRange(s: Settings)
    requires s.asfPacketCount > 0 && s.asfHeaderSize + (s.asfPacketCount - 1) * s.asfPacketSize < 0x1_0000_0000
    ensures LastPacketOffset(s) == s.asfHeaderSize + (s.asfPacketCount - 1) * s.asfPacketSize
  {
  }

  /**
   * With no packets the count wraps to 2^32 - 1, and 2^32 - 1 packets on is one packet back:
   * the search limit is the header size less one packet, modulo 2^32.
   */
  lemma {:induction false} LastPacketOfEmptyData(s: Settings)
    requires s.asfPacketCount == 0
    ensures LastPacketOffset(s) == (s.asfHeaderSize - s.asfPacketSize) % 0x1_0000_0000
  {
    var m := 0x1_0000_0000;
    var ps := s.asfPacketSize as int;
    assert (s.asfPacketCount - 1) % m == m - 1;
    assert (m - 1) * ps == m * (ps - 1) + (m - ps);
    var skip := ((m - 1) * ps) % m;
    assert skip == (m - ps) % m by {
      ShiftMultiple(m - ps, ps - 1, m);
    }
    assert (s.asfHeaderSize + skip) % m == (s.asfHeaderSize - ps) % m by {
      if ps == 0 {
        assert skip == 0;
      } else {
        assert skip == m - ps;
        ShiftMultiple(s.asfHeaderSize as int - ps, 1, m);
      }
    }
  }

  /** Adding a multiple of the modulus does not change the remainder. */
  lemma ShiftMultiple(x: int, k: int, m: int)
    requires m > 0
    ensures (x + m * k) % m == x % m
  {
    var y := x + m * k;
    var d := (y / m - k) - x / m;
    assert m * d == x % m - y % m;
    SmallMultiple(m, d);
  }

  /** The only multiple of m strictly between -m and m is 0. */
  lemma SmallMultiple(m: int, d: int)
    requires m > 0 && -m < m * d < m
    ensures d == 0
  {
    if d >= 1 {
      MonotoneProduct(m, 1, d);
    } else if d <= -1 {
      MonotoneProduct(m, d, -1);
    }
  }

  /** Multiplying by a positive factor keeps order. */
  lemma MonotoneProduct(m: int, a: int, b: int)
    requires m > 0 && a <= b
    ensures m * a <= m * b
  {
    assert m * b - m * a == m * (b - a);
  }

  /** A decoder that accepts no empty buffer, as the packet codec does not. */
  ghost predicate Sized(decode: AsfObjects.Decoder)
  {
    forall b, i :: decode(b, i).Ok? ==> |b| > 0
  }

  /** The packet codec with any configured size accepts no empty buffer: its header alone is 5 bytes. */
  lemma CodecSized(size: nat)
    ensures Sized(AsfObjects.PacketDecoder(size))
  {
    forall b, i | AsfObjects.PacketDecoder(size)(b, i).Ok?
      ensures |b| > 0
    {
      assert PacketCodec.Decode(size, b, i).Ok?;
    }
  }

  /** What a time search leaves: whether it found the stream, the key-frame flag, the time and the stream position. */
  datatype TimeSearch = TimeSearch(found: bool, isKeyFrame: bool, timeOffset: u32, position: nat)

  /** The time a payload gives: its presentation time less the preroll, in unsigned 32 bits. */
  function PayloadTime(s: Settings, p: PayloadInfo): u32
  {
    Wrap32(p.presentationTime - s.asfPreroll)
  }

  /**
   * `FindNextTimeOffset` from stream position `pos`: packet after packet while before the
   * last packet (only one when not seeking forward), until one carries the stream; a short
   * read ends the search. Every packet read resets the time to 0 and the key-frame flag to
   * false; `timeOffset` is the caller's value, kept when no packet is read.
   */
  function NextTime(decode: AsfObjects.Decoder, s: Settings, data: seq<u8>, pos: nat, timeOffset: u32, isKeyFrame: bool,
                    streamId: u32, seekForward: bool, first: bool): (r: Result<TimeSearch, PacketCodec.PacketError>)
    requires Sized(decode)
    ensures r.Ok? ==> r.value.position >= pos
    decreases |data| - pos
  {
    if !(pos < LastPacketOffset(s) && (seekForward || first)) then Ok(TimeSearch(false, isKeyFrame, timeOffset, pos))
    else
      var n := ReadCount(data, pos, s.asfPacketSize);
      if n != s.asfPacketSize then Ok(TimeSearch(false, isKeyFrame, timeOffset, pos + n))
      else
        var buffer := if n == 0 then [] else data[pos..pos + n];
        match decode(buffer, 0)
        case Err(e) => Err(e)
        case Ok(packet) =>
          match TimedPayload(packet.payload, streamId)
          case Some(p) => Ok(TimeSearch(true, packet.isKeyFrame, PayloadTime(s, p), pos + n))
          case None => NextTime(decode, s, data, pos + n, 0, false, streamId, seekForward, false)
  }

  /** The packet at `q`, decoded as the search decodes it. */
  function PacketAt(decode: AsfObjects.Decoder, s: Settings, data: seq<u8>, q: nat): Result<PacketCodec.DecodedPacket, PacketCodec.PacketError>
    requires q + s.asfPacketSize <= |data|
  {
    decode(data[q..q + s.asfPacketSize], 0)
  }

  /** The packet at `q` is whole, decodes, and carries a payload of the stream. */
  predicate Carries(decode: AsfObjects.Decoder, s: Settings, data: seq<u8>, q: nat, streamId: u32)
  {
    q + s.asfPacketSize <= |data| && PacketAt(decode, s, data, q).Ok? && TimedPayload(PacketAt(decode, s, data, q).value.payload, streamId).Some?
  }

  /** The packet at `q` is whole, decodes, and carries nothing of the stream. */
  predicate Skipped(decode: AsfObjects.Decoder, s: Settings, data: seq<u8>, q: nat, streamId: u32)
  {
    q + s.asfPacketSize <= |data| && PacketAt(decode, s, data, q).Ok? && TimedPayload(PacketAt(decode, s, data, q).value.payload, streamId).None?
  }

  /** Every packet from `pos` up to `q` is whole, decodes, and carries nothing of the stream. */
  predicate SkippedUpTo(decode: AsfObjects.Decoder, s: Settings, data: seq<u8>, pos: nat, q: nat, streamId: u32)
    decreases q - pos
  {
    || pos == q
    || (&& s.asfPacketSize > 0 && pos + s.asfPacketSize <= q
        && Skipped(decode, s, data, pos, streamId)
        && SkippedUpTo(decode, s, data, pos + s.asfPacketSize, q, streamId))
  }

  /**
   * A search that finds the stream stops at the first packet that carries it: at `q`, every
   * packet from `pos` to it skipped, before the last packet, and the first packet read when
   * not seeking forward. The time and the key-frame flag are that packet's.
   */
  lemma {:induction false} NextTimeFound(decode: AsfObjects.Decoder, s: Settings, data: seq<u8>, pos: nat, timeOffset: u32, isKeyFrame: bool,
                                        streamId: u32, seekForward: bool, first: bool) returns (q: nat)
    requires Sized(decode)
    requires NextTime(decode, s, data, pos, timeOffset, isKeyFrame, streamId, seekForward, first).Ok?
    requires NextTime(decode, s, data, pos, timeOffset, isKeyFrame, streamId, seekForward, first).value.found
    ensures var r := NextTime(decode, s, data, pos, timeOffset, isKeyFrame, streamId, seekForward, first).value;
      && q < LastPacketOffset(s)
      && SkippedUpTo(decode, s, data, pos, q, streamId)
      && Carries(decode, s, data, q, streamId)
      && r.position == q + s.asfPacketSize
      && r.timeOffset == PayloadTime(s, TimedPayload(PacketAt(decode, s, data, q).value.payload, streamId).value)
      && r.isKeyFrame == PacketAt(decode, s, data, q).value.isKeyFrame
      && (!seekForward ==> first && q == pos)
    decreases |data| - pos
  {
    var n := s.asfPacketSize;
    assert pos < LastPacketOffset(s) && (seekForward || first);
    assert ReadCount(data, pos, n) == n;
    var buffer := if n == 0 then [] else data[pos..pos + n];
    assert decode(buffer, 0).Ok?;
    assert n > 0 && pos + n <= |data| && buffer == data[pos..pos + n];
    var packet := decode(buffer, 0).value;
    assert PacketAt(decode, s, data, pos) == Ok(packet);
    if TimedPayload(packet.payload, streamId).Some? {
      q := pos;
    } else {
      assert Skipped(decode, s, data, pos, streamId);
      q := NextTimeFound(decode, s, data, pos + n, 0, false, streamId, seekForward, false);
    }
  }

  /**
   * `FindNextTimeOffset`: the search from stream position `pos` with the caller's time, the
   * key-frame flag starting false.
   */
  method FindNextTimeOffset(decode: AsfObjects.Decoder, s: Settings, data: seq<u8>, pos: nat, timeOffset: u32, streamId: u32, seekForward: bool)
    returns (r: Result<TimeSearch, PacketCodec.PacketError>)
    requires Sized(decode)
    ensures r == NextTime(decode, s, data, pos, timeOffset, false, streamId, seekForward, true)
  {
    var foundTime := false;
    var isFirstPacket := true;
    var maxOffset := LastPacketOffset(s);
    var isKeyFrame := false;
    var t := timeOffset;
    var position := pos;
    while position < maxOffset && !foundTime && (seekForward || isFirstPacket)
      invariant !foundTime ==> NextTime(decode, s, data, pos, timeOffset, false, streamId, seekForward, true)
                                == NextTime(decode, s, data, position, t, isKeyFrame, streamId, seekForward, isFirstPacket)
      invariant foundTime ==> NextTime(decode, s, data, pos, timeOffset, false, streamId, seekForward, true)
                               == Ok(TimeSearch(true, isKeyFrame, t, position))
      decreases |data| - position
    {
      ghost var before := position;
      isFirstPacket := false;
      var n := ReadCount(data, position, s.asfPacketSize);
      if n != s.asfPacketSize {
        position := position + n;
        break;
      }
      var packetHeader := if n == 0 then [] else data[position..position + n];
      position := position + n;
      t := 0;
      isKeyFrame := false;
      var currentPacket := decode(packetHeader, 0);
      if currentPacket.Err? {
        return Err(currentPacket.error);
      }
      var candidate := ScanPayloads(currentPacket.value.payload, streamId);
      if candidate.Some? {
        foundTime := true;
        t := PayloadTime(s, candidate.value);
        isKeyFrame := currentPacket.value.isKeyFrame;
      }
    }
    return Ok(TimeSearch(foundTime, isKeyFrame, t, position));
  }

  // ------------------------------------------------------------ the time search's arithmetic

  const I32_MIN: int := -0x8000_0000

  function Abs(x: int): nat
  {
    if x < 0 then -x else x
  }

  /** C#'s integer division, which truncates toward zero. */
  function TruncDiv(a: int, b: int): int
    requires b > 0
  {
    if a >= 0 then a / b else -((-a) / b)
  }

  /**
   * The packets a time difference spans, `Math.Round((float)diff / average)`: the nearest
   * integer, a tie going to the even one. An average of 0 makes the quotient infinite.
   */
  function RoundedJump(diff: i32, average: u32): (r: Result<i32, FileError>)
    ensures r.Ok? <==> average > 0
    ensures r.Ok? ==> 2 * Abs(r.value * average - diff) <= average
    ensures r.Ok? && 2 * Abs(r.value * average - diff) == average ==> r.value % 2 == 0
  {
    if average == 0 then Err(NonFiniteJump)
    else
      var f := diff / average;
      var rem := diff % average;
      assert diff == f * average + rem;
      if 2 * rem < average then Ok(f)
      else if 2 * rem > average || f % 2 != 0 then
        assert (f + 1) * average - diff == average - rem;
        Ok(f + 1)
      else Ok(f)
  }

  /**
   * The convergence rule: once a jump has been made, a jump at least as long as the last one
   * is cut to one packet shorter, in its own direction (to a single packet when the last was
   * a single packet). `Math.Abs` of the smallest int overflows.
   */
  function Converging(jump: i32, prev: i32): (r: Result<i32, FileError>)
    ensures r.Ok? <==> jump != I32_MIN && prev != I32_MIN
    ensures r.Ok? && prev != 0 ==> Abs(r.value) < Abs(prev) || (Abs(prev) == 1 && Abs(r.value) == 1)
    ensures r.Ok? && (prev == 0 || Abs(jump) < Abs(prev)) ==> r.value == jump
    ensures r.Ok? ==> (r.value > 0 <==> jump > 0) && (r.value < 0 <==> jump < 0)
  {
    if jump == I32_MIN || prev == I32_MIN then Err(Overflow)
    else if Abs(jump) >= Abs(prev) && Abs(prev) > 0 then
      var last: int := Abs(prev);
      if last > 1 then Ok(if jump > 0 then last - 1 else -last + 1)
      else Ok(if jump > 0 then 1 else -1)
    else Ok(jump)
  }

  /** A jump, in bytes, and the packet count the search records for it. */
  datatype Jump = Jump(bytes: int, packets: i32)

  /**
   * A jump of `packets` packets from `fileOffset`, cut short at the first or last packet
   * start; a cut jump records the whole packets it spans.
   */
  function Clamp(fileOffset: int, packets: i32, packetSize: u32, minOffset: int, maxOffset: int): (r: Jump)
    requires packetSize > 0
    ensures minOffset <= maxOffset ==> minOffset <= fileOffset + r.bytes <= maxOffset
    ensures minOffset <= fileOffset + packetSize * packets <= maxOffset ==> r == Jump(packetSize * packets, packets)
    ensures fileOffset + packetSize * packets > maxOffset ==> fileOffset + r.bytes == maxOffset
    ensures fileOffset + packetSize * packets <= maxOffset && fileOffset + packetSize * packets < minOffset
      ==> fileOffset + r.bytes == minOffset
  {
    var byteJump := packetSize * packets;
    if fileOffset + byteJump > maxOffset then
      Jump(maxOffset - fileOffset, ToInt32(TruncDiv(maxOffset - fileOffset, packetSize)))
    else if fileOffset + byteJump < minOffset then
      Jump(minOffset - fileOffset, ToInt32(TruncDiv(minOffset - fileOffset, packetSize)))
    else Jump(byteJump, packets)
  }

  // ------------------------------------------------------------ GetFilePosition

  /** A search that finds the stream gives the same result whatever time and flag it starts with. */
  lemma FoundIgnoresStart(decode: AsfObjects.Decoder, s: Settings, data: seq<u8>, pos: nat, t: u32, key: bool,
                          t': u32, key': bool, streamId: u32, seekForward: bool, first: bool)
    requires Sized(decode)
    requires NextTime(decode, s, data, pos, t, key, streamId, seekForward, first).Ok?
    requires NextTime(decode, s, data, pos, t, key, streamId, seekForward, first).value.found
    ensures NextTime(decode, s, data, pos, t', key', streamId, seekForward, first)
         == NextTime(decode, s, data, pos, t, key, streamId, seekForward, first)
  {
  }

  /** What one time search works with: the file, its configuration, the stream and the target. */
  datatype Search = Search(
    decode: AsfObjects.Decoder, s: Settings, data: seq<u8>,
    streamId: u32, finalTime: u32, tolerance: u32, average: u32,
    minOffset: int, maxOffset: int)

  /** The search's bounds are offsets in the file and its packets have a size. */
  ghost predicate SearchReady(e: Search)
  {
    && Sized(e.decode) && e.s.asfPacketSize > 0
    && 0 <= e.minOffset < 0x1_0000_0000 && 0 <= e.maxOffset < 0x1_0000_0000
  }

  /** The packet a search probe settled on: where, the time difference, the key-frame flag, the time, the jump. */
  datatype Probe = Probe(fileOffset: nat, diff: i32, isKeyFrame: bool, time: u32, jump: i32)

  /** The time difference the search measures: target less time found, cast to int. */
  function Difference(e: Search, time: u32): i32
  {
    ToInt32(e.finalTime as int - time as int)
  }

  /** The packet the search finds from `fileOffset` carries the stream and gives this time and flag. */
  ghost predicate FoundAt(e: Search, fileOffset: nat, time: u32, isKeyFrame: bool)
    requires Sized(e.decode)
  {
    var r := NextTime(e.decode, e.s, e.data, fileOffset, 0, false, e.streamId, true, true);
    r.Ok? && r.value.found && r.value.timeOffset == time && r.value.isKeyFrame == isKeyFrame
  }

  /**
   * The search after a jump: from `fileOffset`, back one packet at a time until a search
   * finds the stream; a step before the start of the file fails the seek.
   */
  method TrackBack(e: Search, fileOffset: nat, time: u32) returns (r: Result<(nat, TimeSearch), FileError>)
    requires SearchReady(e)
    ensures r.Ok? ==> r.value.0 <= fileOffset && r.value.1.found
    ensures r.Ok? ==> FoundAt(e, r.value.0, r.value.1.timeOffset, r.value.1.isKeyFrame)
  {
    var offset: nat := fileOffset;
    var t := time;
    var found := FindNextTimeOffset(e.decode, e.s, e.data, offset, t, e.streamId, true);
    if found.Err? {
      return Err(InvalidPacket(found.error));
    }
    while !found.value.found
      invariant offset <= fileOffset
      invariant found == NextTime(e.decode, e.s, e.data, offset, t, false, e.streamId, true, true) && found.Ok?
      decreases offset
    {
      t := found.value.timeOffset;
      if offset < e.s.asfPacketSize {
        return Err(NegativeSeek);
      }
      offset := offset - e.s.asfPacketSize;
      found := FindNextTimeOffset(e.decode, e.s, e.data, offset, t, e.streamId, true);
      if found.Err? {
        return Err(InvalidPacket(found.error));
      }
    }
    FoundIgnoresStart(e.decode, e.s, e.data, offset, t, false, 0, false, e.streamId, true, true);
    return Ok((offset, found.value));
  }

  /**
   * The converging loop: at most 500 probes; each jumps by the rounded time difference over
   * the average packet duration, cut by the convergence rule and clamped to the packets,
   * then tracks back to a packet of the stream. It ends when the difference is within the
   * tolerance, or turns from negative to positive on a one-packet step; `null` after 500.
   */
  method Converge(e: Search, requested: i32, startTime: u32) returns (r: Result<Option<Probe>, FileError>, ghost probes: nat)
    requires SearchReady(e)
    ensures probes <= 501 && (r.Ok? && r.value.None? ==> probes == 501)
    ensures r.Ok? && r.value.Some? ==> var p := r.value.value;
      && p.diff == Difference(e, p.time)
      && (Abs(p.diff) <= e.tolerance || (p.diff > 0 && Abs(p.jump) == 1))
      && FoundAt(e, p.fileOffset, p.time, p.isKeyFrame)
      && (e.minOffset <= e.maxOffset ==> p.fileOffset <= e.maxOffset)
      && p.fileOffset < 0x1_0000_0000
  {
    var size := e.s.asfPacketSize;
    var prevPacketJumpCount: i32 := 0;
    var totalJumpCount := 0;
    var fileOffset: nat := e.minOffset;
    var diff := requested;
    var prevDiff: i32 := 0;
    var time := startTime;
    probes := 0;
    while true
      invariant probes == totalJumpCount <= 500
      invariant fileOffset < 0x1_0000_0000
      decreases 500 - totalJumpCount
    {
      totalJumpCount := totalJumpCount + 1;
      probes := totalJumpCount;
      if totalJumpCount > 500 {
        return Ok(None), probes;
      }
      var rounded := RoundedJump(diff, e.average);
      if rounded.Err? {
        return Err(rounded.error), probes;
      }
      var packetJumpCount := Converging(rounded.value, prevPacketJumpCount);
      if packetJumpCount.Err? {
        return Err(packetJumpCount.error), probes;
      }
      var jump := Clamp(fileOffset, packetJumpCount.value, size, e.minOffset, e.maxOffset);
      prevPacketJumpCount := jump.packets;
      fileOffset := fileOffset + jump.bytes;
      var tracked := TrackBack(e, fileOffset, time);
      if tracked.Err? {
        return Err(tracked.error), probes;
      }
      var (at, search) := tracked.value;
      fileOffset := at;
      time := search.timeOffset;
      diff := Difference(e, time);
      if diff == I32_MIN {
        return Err(Overflow), probes;
      }
      if Abs(diff) <= e.tolerance {
        return Ok(Some(Probe(fileOffset, diff, search.isKeyFrame, time, jump.packets))), probes;
      }
      if diff > 0 && prevDiff < 0 {
        if jump.packets == I32_MIN {
          return Err(Overflow), probes;
        }
        if Abs(jump.packets) == 1 {
          return Ok(Some(Probe(fileOffset, diff, search.isKeyFrame, time, jump.packets))), probes;
        }
      }
      prevDiff := diff;
    }
  }

  /** The audio search of one packet at `fileOffset` finds the audio stream at `time`. */
  ghost predicate AudioAt(e: Search, fileOffset: nat, time: u32)
    requires Sized(e.decode)
  {
    var r := NextTime(e.decode, e.s, e.data, fileOffset, 0, false, e.s.asfAudioStreamId, false, true);
    r.Ok? && r.value.found && r.value.timeOffset == time
  }

  /** Where the end search stops: the offset, the time difference and the time it ends at. */
  datatype EndPoint = EndPoint(fileOffset: nat, diff: i32, target: u32)

  /**
   * The end of a range: from the matched packet, forward one packet at a time, reading only
   * that packet for audio, until audio at or past the target time is found or the offset
   * passes the last packet.
   */
  method AdvanceEnd(e: Search, p: Probe) returns (r: Result<EndPoint, FileError>)
    requires SearchReady(e)
    ensures r.Ok? ==> r.value.fileOffset >= p.fileOffset
    ensures r.Ok? ==> r.value.fileOffset == p.fileOffset || r.value.fileOffset <= e.maxOffset + e.s.asfPacketSize
    ensures r.Ok? ==> var q := r.value;
      || q.fileOffset > e.maxOffset
      || (q.diff <= 0 && q.diff == Difference(e, q.target) && AudioAt(e, q.fileOffset, q.target))
    ensures r.Ok? && r.value.fileOffset == p.fileOffset ==> r.value == EndPoint(p.fileOffset, p.diff, e.finalTime)
  {
    var size := e.s.asfPacketSize;
    var foundAudio := false;
    var fileOffset: nat := p.fileOffset;
    var diff := p.diff;
    var target := e.finalTime;
    var t := p.time;
    while (!foundAudio || diff > 0) && fileOffset <= e.maxOffset
      invariant fileOffset >= p.fileOffset
      invariant fileOffset == p.fileOffset || fileOffset <= e.maxOffset + size
      invariant foundAudio ==> diff == Difference(e, target) && AudioAt(e, fileOffset, target)
      invariant fileOffset == p.fileOffset ==> !foundAudio && diff == p.diff && target == e.finalTime
      decreases e.maxOffset - fileOffset
    {
      var next := FindNextTimeOffset(e.decode, e.s, e.data, fileOffset + size, t, e.s.asfAudioStreamId, false);
      if next.Err? {
        return Err(InvalidPacket(next.error));
      }
      foundAudio := next.value.found;
      t := next.value.timeOffset;
      fileOffset := fileOffset + size;
      if foundAudio {
        FoundIgnoresStart(e.decode, e.s, e.data, fileOffset, next.value.timeOffset, false, 0, false,
                          e.s.asfAudioStreamId, false, true);
        diff := Difference(e, t);
        target := t;
      }
    }
    return Ok(EndPoint(fileOffset, diff, target));
  }

  /** The search at `fileOffset`, starting from the carried time, leaves this flag and time. */
  ghost predicate SearchedAt(e: Search, fileOffset: nat, carried: u32, isKeyFrame: bool, time: u32)
    requires Sized(e.decode)
  {
    var r := NextTime(e.decode, e.s, e.data, fileOffset, carried, false, e.streamId, true, true);
    r.Ok? && r.value.isKeyFrame == isKeyFrame && r.value.timeOffset == time
  }

  /**
   * The start of a range: from the matched packet, back one packet at a time until a key
   * frame (any audio packet counts) at or before the target time, or the first packet. A step
   * before the first packet gives the first packet when the match was a key frame, and no
   * position otherwise.
   */
  method BackToKeyframe(e: Search, isAudio: bool, p: Probe) returns (r: Result<Option<Probe>, FileError>, ghost carried: Option<u32>)
    requires SearchReady(e)
    requires p.diff == Difference(e, p.time)
    ensures r.Ok? && r.value.None? ==> !isAudio && !p.isKeyFrame
    ensures r.Ok? && r.value.Some? ==> var q := r.value.value;
      && q.fileOffset <= p.fileOffset
      && q.diff == Difference(e, q.time)
      && (q.fileOffset <= e.minOffset || (q.diff >= 0 && (isAudio || q.isKeyFrame)))
      && (q.fileOffset < e.minOffset ==> q.fileOffset == p.fileOffset)
      && (carried.Some? ==> SearchedAt(e, q.fileOffset, carried.value, q.isKeyFrame, q.time))
      && (carried.None? ==> q.fileOffset == p.fileOffset || (q.fileOffset == e.minOffset && (isAudio || p.isKeyFrame)))
      && (carried.None? && q.fileOffset > e.minOffset ==> isAudio && q.time == p.time)
  {
    var size := e.s.asfPacketSize;
    var wasKeyFrame := if isAudio then true else p.isKeyFrame;
    var isKeyFrame := isAudio;
    var fileOffset: int := p.fileOffset;
    var diff := p.diff;
    var t := p.time;
    carried := None;
    while ((!isAudio && !isKeyFrame) || diff < 0) && fileOffset > e.minOffset
      invariant e.minOffset <= fileOffset <= p.fileOffset || fileOffset == p.fileOffset
      invariant diff == Difference(e, t)
      invariant carried.Some? ==> fileOffset < p.fileOffset && SearchedAt(e, fileOffset, carried.value, isKeyFrame, t)
      invariant carried.None? ==> fileOffset == p.fileOffset && t == p.time && isKeyFrame == isAudio
      decreases fileOffset
    {
      fileOffset := fileOffset - size;
      if fileOffset >= e.minOffset {
        var back := FindNextTimeOffset(e.decode, e.s, e.data, fileOffset, t, e.streamId, true);
        if back.Err? {
          return Err(InvalidPacket(back.error)), carried;
        }
        carried := Some(t);
        isKeyFrame := back.value.isKeyFrame;
        t := back.value.timeOffset;
        diff := Difference(e, t);
      } else {
        if wasKeyFrame {
          return Ok(Some(Probe(e.minOffset, diff, isKeyFrame, t, 0))), None;
        }
        return Ok(None), None;
      }
    }
    diff := Difference(e, t);
    return Ok(Some(Probe(fileOffset, diff, isKeyFrame, t, 0))), carried;
  }

  /**
   * A start position: at or before the last packet, and unless it is the first packet, a
   * search from it finds a key frame (any audio packet) at or before the target time.
   */
  ghost predicate StartPlaced(e: Search, isAudio: bool, offset: int, delta: i32)
    requires Sized(e.decode)
  {
    && (e.minOffset <= e.maxOffset ==> offset <= e.maxOffset)
    && (offset > e.minOffset ==>
          && offset >= 0 && delta >= 0
          && exists t0: u32, key: bool, t: u32 :: SearchedAt(e, offset, t0, key, t) && delta == Difference(e, t) && (key || isAudio))
  }

  /**
   * An end position: past the last packet, or one packet past audio at or after the target
   * time, `target` being that audio's time.
   */
  ghost predicate EndPlaced(e: Search, offset: int, delta: i32, target: u32)
    requires Sized(e.decode)
  {
    || offset > e.maxOffset
    || (&& delta <= 0 && offset >= e.s.asfPacketSize
        && AudioAt(e, offset - e.s.asfPacketSize, target) && delta == Difference(e, target))
  }

  /** A position found by a search: its packet offset, the delta to the target and the time it reports. */
  datatype Placement = Placement(fileOffset: nat, delta: i32, timeOffset: u32)

  /**
   * The start phase of `GetFilePosition`: from the match back to a key frame (any audio
   * packet) at or before the target time; `None` when no earlier key frame exists and the
   * match was not one.
   */
  method StartPosition(e: Search, isAudio: bool, found: Probe) returns (r: Result<Option<Placement>, FileError>)
    requires SearchReady(e)
    requires found.diff == Difference(e, found.time) && FoundAt(e, found.fileOffset, found.time, found.isKeyFrame)
    requires e.minOffset <= e.maxOffset ==> found.fileOffset <= e.maxOffset
    ensures r.Ok? && r.value.Some? ==> var q := r.value.value;
      && q.fileOffset <= found.fileOffset && q.timeOffset == e.finalTime
      && StartPlaced(e, isAudio, q.fileOffset, q.delta)
  {
    var back, carried := BackToKeyframe(e, isAudio, found);
    if back.Err? {
      return Err(back.error);
    }
    if back.value.None? {
      return Ok(None);
    }
    var q := back.value.value;
    if q.fileOffset > e.minOffset {
      if carried.Some? {
        assert SearchedAt(e, q.fileOffset, carried.value, q.isKeyFrame, q.time);
      } else {
        assert SearchedAt(e, q.fileOffset, 0, found.isKeyFrame, q.time);
      }
    }
    return Ok(Some(Placement(q.fileOffset, q.diff, e.finalTime)));
  }

  /**
   * The end phase of `GetFilePosition`: forward to audio at or after the target time, then
   * one packet on to include it, unless already past the last packet.
   */
  method EndPosition(e: Search, found: Probe) returns (r: Result<Placement, FileError>)
    requires SearchReady(e) && found.fileOffset < 0x1_0000_0000
    ensures r.Ok? ==> r.value.fileOffset < 0x3_0000_0000
    ensures r.Ok? ==> EndPlaced(e, r.value.fileOffset, r.value.delta, r.value.timeOffset)
  {
    var end :- AdvanceEnd(e, found);
    var fileOffset := end.fileOffset;
    if fileOffset <= e.maxOffset {
      fileOffset := fileOffset + e.s.asfPacketSize;
    }
    return Ok(Placement(fileOffset, end.diff, end.target));
  }

  /**
   * `GetFilePosition`'s search for a prepared `Search`: converge on the target time, then
   * place a start or an end position; `None` when the search gives up.
   */
  method Locate(e: Search, isStart: bool, isAudio: bool, requested: i32, startTime: u32)
    returns (r: Result<Option<Placement>, FileError>)
    requires SearchReady(e)
    ensures r.Ok? && r.value.Some? ==> var q := r.value.value;
      && q.fileOffset < 0x3_0000_0000
      && (isStart ==> q.timeOffset == e.finalTime && StartPlaced(e, isAudio, q.fileOffset, q.delta))
      && (!isStart ==> EndPlaced(e, q.fileOffset, q.delta, q.timeOffset))
  {
    var probe, _ := Converge(e, requested, startTime);
    if probe.Err? {
      return Err(probe.error);
    }
    if probe.value.None? {
      return Ok(None);
    }
    var found := probe.value.value;
    if !isStart {
      var end :- EndPosition(e, found);
      return Ok(Some(end));
    }
    r := StartPosition(e, isAudio, found);
  }

  // ------------------------------------------------------------ GetConfiguration

  /** The objects the header walk builds and the configuration they leave. */
  datatype Walk = Walk(objects: seq<AsfObjects.AsfObject>, settings: Settings)

  /** Where the walk resumes after the Data Object: past its packets, counted from the header size. */
  function AfterData(s: Settings): nat
  {
    s.asfHeaderSize + s.asfPacketCount * s.asfPacketSize
  }

  /** The same position as the source computes it, product and sum in unsigned 32 bits. */
  function AfterDataAsWritten(s: Settings): u32
  {
    (s.asfHeaderSize + (s.asfPacketCount * s.asfPacketSize) % 0x1_0000_0000) % 0x1_0000_0000
  }

  /** The 32-bit position is the intended one exactly when the intended one fits in 32 bits. */
  lemma AfterDataAsWrittenExact(s: Settings)
    ensures AfterDataAsWritten(s) == AfterData(s) <==> AfterData(s) < 0x1_0000_0000
  {
    var p := s.asfPacketCount * s.asfPacketSize;
    if AfterData(s) < 0x1_0000_0000 {
      assert p % 0x1_0000_0000 == p;
    }
  }

  /**
   * 65536 packets of 65536 bytes (4 GiB of packets): the source resumes the walk at the
   * header size, the first packet, instead of after the last one.
   */
  lemma AfterDataAsWrittenRewinds()
    ensures var s := RESET_SETTINGS.(asfHeaderSize := 5000, asfPacketCount := 0x1_0000, asfPacketSize := 0x1_0000);
      && AfterDataAsWritten(s) == s.asfHeaderSize
      && AfterData(s) == s.asfHeaderSize + 0x1_0000_0000
  {
  }

  /** Without wrap-around, the walk resumes one packet after the start of the last packet. */
  lemma AfterDataFollowsLastPacket(s: Settings)
    requires s.asfPacketCount > 0 && AfterData(s) < 0x1_0000_0000
    ensures AfterData(s) == LastPacketOffset(s) + s.asfPacketSize
  {
    LastPacketInRange(s);
  }

  /** The configuration updates of `objects`, applied in order from `s`. */
  function Fold(objects: seq<AsfObjects.AsfObject>, s: Settings): Settings
    decreases |objects|
  {
    if objects == [] then s
    else Fold(objects[1..], AsfObjects.Applied(objects[0].body, objects[0].base.size, s))
  }

  /**
   * The header walk from `pos`: no configuration when the first object is not the Header
   * Object, the end at an object of size 0, otherwise the object the factory builds and the
   * walk from where it leaves the stream (after a Data Object, after its packets). `fuel`
   * bounds the number of objects.
   */
  /** The base constructor and the factory, as values. */
  datatype Reader = Reader(
    base: (seq<u8>, nat) -> Result<AsfObjects.BaseObject, AsfObjects.ObjectError>,
    create: (seq<u8>, nat, Settings) -> Result<(AsfObjects.AsfObject, nat, Settings), AsfObjects.ObjectError>)

  /** `new AsfObject(stream)` and `CreateAsfObject`. */
  function ObjectReader(): Reader
  {
    Reader((b: seq<u8>, pos: nat) => AsfObjects.ReadBase(b, pos), (b: seq<u8>, pos: nat, s: Settings) => AsfObjects.Create(b, pos, s))
  }

  /** A factory that applies each object's configuration updates and builds writable objects at the position asked. */
  ghost predicate Lawful(rd: Reader)
  {
    forall b, pos, s | rd.create(b, pos, s).Ok? ::
      var (o, _, s') := rd.create(b, pos, s).value;
      && s' == AsfObjects.Applied(o.body, o.base.size, s)
      && AsfObjects.Writable(o.body)
      && rd.base(b, pos) == Ok(o.base)
      && o.base.position == pos
  }

  lemma ObjectReaderLawful()
    ensures Lawful(ObjectReader())
  {
  }

  function WalkFrom(rd: Reader, b: seq<u8>, pos: nat, s: Settings, first: bool, fuel: nat): (r: Result<Option<Walk>, FileError>)
    ensures !first && r.Ok? ==> r.value.Some?
    ensures first ==> (r == Ok(None) <==> rd.base(b, pos).Ok? && rd.base(b, pos).value.id != AsfGuids.GuidOf(AsfGuids.HeaderType))
    decreases fuel
  {
    match rd.base(b, pos)
    case Err(e) => Err(InvalidObject(e))
    case Ok(base) =>
      if first && base.id != AsfGuids.GuidOf(AsfGuids.HeaderType) then Ok(None)
      else if base.size == 0 then Ok(Some(Walk([], s)))
      else if fuel == 0 then Err(Endless)
      else
        match rd.create(b, pos, s)
        case Err(e) => Err(InvalidObject(e))
        case Ok(created) =>
          var (o, end, s') := created;
          var next := if AsfObjects.IsData(o.base.id) then AfterData(s') else end;
          match WalkFrom(rd, b, next, s', false, fuel - 1)
          case Err(e) => Err(e)
          case Ok(rest) => Ok(Some(Walk([o] + rest.value.objects, rest.value.settings)))
  }

  /** The configuration the walk leaves is its objects' updates applied in order. */
  lemma {:induction false} WalkSettings(rd: Reader, b: seq<u8>, pos: nat, s: Settings, first: bool, fuel: nat)
    requires Lawful(rd)
    requires WalkFrom(rd, b, pos, s, first, fuel).Ok? && WalkFrom(rd, b, pos, s, first, fuel).value.Some?
    ensures var w := WalkFrom(rd, b, pos, s, first, fuel).value.value; w.settings == Fold(w.objects, s)
    decreases fuel
  {
    var base := rd.base(b, pos).value;
    if base.size != 0 {
      var (o, end, s') := rd.create(b, pos, s).value;
      var next := if AsfObjects.IsData(o.base.id) then AfterData(s') else end;
      WalkSettings(rd, b, next, s', false, fuel - 1);
      var rest := WalkFrom(rd, b, next, s', false, fuel - 1).value.value;
      assert WalkFrom(rd, b, pos, s, first, fuel).value.value.objects == [o] + rest.objects;
      assert ([o] + rest.objects)[1..] == rest.objects;
      assert s' == AsfObjects.Applied(o.body, o.base.size, s);
    }
  }


  /**
   * Every object of the walk can be written back, the first lies where the walk starts,
   * and a walk from the start of the file begins with the Header Object.
   */
  lemma {:induction false} WalkObjects(rd: Reader, b: seq<u8>, pos: nat, s: Settings, first: bool, fuel: nat)
    requires Lawful(rd)
    requires WalkFrom(rd, b, pos, s, first, fuel).Ok? && WalkFrom(rd, b, pos, s, first, fuel).value.Some?
    ensures var os := WalkFrom(rd, b, pos, s, first, fuel).value.value.objects;
      && (forall i :: 0 <= i < |os| ==> AsfObjects.Writable(os[i].body))
      && (os != [] ==> os[0].base.position == pos)
      && (first && os != [] ==> os[0].base.id == AsfGuids.GuidOf(AsfGuids.HeaderType))
    decreases fuel
  {
    var base := rd.base(b, pos).value;
    if base.size != 0 {
      var (o, end, s') := rd.create(b, pos, s).value;
      var next := if AsfObjects.IsData(o.base.id) then AfterData(s') else end;
      WalkObjects(rd, b, next, s', false, fuel - 1);
      var rest := WalkFrom(rd, b, next, s', false, fuel - 1).value.value;
      var os := WalkFrom(rd, b, pos, s, first, fuel).value.value.objects;
      assert os == [o] + rest.objects;
      forall i | 0 <= i < |os|
        ensures AsfObjects.Writable(os[i].body)
      {
        if i > 0 {
          assert os[i] == rest.objects[i - 1];
        }
      }
    }
  }

  /** A walk with the objects already built put in front. */
  function Prepend(objects: seq<AsfObjects.AsfObject>, r: Result<Option<Walk>, FileError>): Result<Option<Walk>, FileError>
  {
    if r.Ok? && r.value.Some? then Ok(Some(Walk(objects + r.value.value.objects, r.value.value.settings))) else r
  }

  /** Building one more object moves it from the walk to the objects built. */
  lemma PrependStep(objects: seq<AsfObjects.AsfObject>, o: AsfObjects.AsfObject, rest: Result<Option<Walk>, FileError>)
    requires rest.Ok? ==> rest.value.Some?
    ensures var w := if rest.Err? then rest else Ok(Some(Walk([o] + rest.value.value.objects, rest.value.value.settings)));
      Prepend(objects, w) == Prepend(objects + [o], rest)
  {
    if rest.Ok? {
      assert objects + ([o] + rest.value.value.objects) == (objects + [o]) + rest.value.value.objects;
    }
  }

  /**
   * `GetConfiguration`: the walk over a new configuration from the start of the file, at
   * most one object per byte of the file plus one. The factory's configuration updates are
   * made on the configuration object as each object is built.
   */
  method GetConfiguration(rd: Reader, data: seq<u8>)
    returns (r: Result<Option<seq<AsfObjects.AsfObject>>, FileError>, config: AsfFileConfiguration)
    requires Lawful(rd)
    ensures fresh(config)
    ensures var w := WalkFrom(rd, data, 0, RESET_SETTINGS, true, |data| + 1);
      && (r.Err? <==> w.Err?) && (r.Err? ==> r.error == w.error)
      && (r.Ok? ==> (r.value.None? <==> w.value.None?))
      && (r.Ok? && r.value.Some? ==> r.value.value == w.value.value.objects && config.Snapshot() == w.value.value.settings)
  {
    config := new AsfFileConfiguration();
    var objects: seq<AsfObjects.AsfObject> := [];
    var isFirstObject := true;
    var pos: nat := 0;
    var fuel: nat := |data| + 1;
    ghost var w0 := WalkFrom(rd, data, 0, RESET_SETTINGS, true, fuel);
    assert Prepend(objects, w0) == w0 by {
      if w0.Ok? && w0.value.Some? {
        assert [] + w0.value.value.objects == w0.value.value.objects;
      }
    }
    while true
      invariant fresh(config)
      invariant isFirstObject ==> objects == [] && pos == 0 && fuel == |data| + 1 && config.Snapshot() == RESET_SETTINGS
      invariant w0 == Prepend(objects, WalkFrom(rd, data, pos, config.Snapshot(), isFirstObject, fuel))
      decreases fuel
    {
      var someObject := rd.base(data, pos);
      if someObject.Err? {
        return Err(InvalidObject(someObject.error)), config;
      }
      if isFirstObject && someObject.value.id != AsfGuids.GuidOf(AsfGuids.HeaderType) {
        return Ok(None), config;
      }
      isFirstObject := false;
      if someObject.value.size == 0 {
        break;
      }
      if fuel == 0 {
        return Err(Endless), config;
      }
      var created := rd.create(data, pos, config.Snapshot());
      if created.Err? {
        return Err(InvalidObject(created.error)), config;
      }
      var (o, end, _) := created.value;
      ghost var before := config.Snapshot();
      AsfObjects.ApplyToConfiguration(o.body, o.base.size, config);
      var next := if AsfObjects.IsData(o.base.id) then AfterData(config.Snapshot()) else end;
      PrependStep(objects, o, WalkFrom(rd, data, next, config.Snapshot(), false, fuel - 1));
      assert w0 == Prepend(objects, WalkFrom(rd, data, pos, before, false, fuel));
      objects := objects + [o];
      pos := next;
      fuel := fuel - 1;
    }
    return Ok(Some(objects)), config;
  }

  // ------------------------------------------------------------ the file

  /** The source's `long` arithmetic: `x` wrapped to signed 64 bits. */
  function ToInt64(x: int): (r: int)
    ensures IsInt64(r)
    ensures IsInt64(x) ==> r == x
  {
    var m := x % 0x1_0000_0000_0000_0000;
    if m > I64_MAX then m - 0x1_0000_0000_0000_0000 else m
  }

  /**
   * A `long` difference that fits `uint` after the subtraction's wrap-around is the exact
   * difference, when the subtrahend is a small offset.
   */
  lemma ShortSpan(end: int, start: int)
    requires IsInt64(end) && 0 <= start < 0x3_0000_0000
    ensures 0 <= ToInt64(end - start) <= U32_MAX <==> 0 <= end - start <= U32_MAX
    ensures 0 <= end - start <= U32_MAX ==> ToInt64(end - start) == end - start
  {
    if end - start < I64_MIN {
      assert (end - start) % 0x1_0000_0000_0000_0000 == end - start + 0x1_0000_0000_0000_0000;
    }
  }

  /** Integer division rounds down. */
  lemma FloorDivision(a: nat, b: nat)
    requires b > 0
    ensures (a / b) * b <= a < (a / b + 1) * b
    ensures a / b <= a
  {
    var q, m := a / b, a % b;
    assert a == q * b + m;
    assert (q + 1) * b == q * b + b;
    ProductAtLeast(q, b);
  }

  /** An unsigned division: the quotient rounded down. */
  function Average(duration: u32, count: u32): (r: u32)
    requires count > 0
    ensures r * count <= duration < (r + 1) * count
  {
    FloorDivision(duration, count);
    duration / count
  }

  lemma {:induction false} ProductAtLeast(q: nat, b: nat)
    requires b > 0
    ensures q * b >= q
    decreases b
  {
    if b > 1 {
      ProductAtLeast(q, b - 1);
      assert q * b == q * (b - 1) + q;
    }
  }

  /** Every object in the list can be written back. */
  ghost predicate AllWritable(os: seq<AsfObjects.AsfObject>)
  {
    forall i :: 0 <= i < |os| ==> AsfObjects.Writable(os[i].body)
  }

  // ------------------------------------------------------------ SetAsfFileProperties

  /** A forward search from `pos` finds the stream at `time`. */
  ghost predicate FirstAt(decode: AsfObjects.Decoder, s: Settings, data: seq<u8>, pos: nat, streamId: u32, time: u32)
    requires Sized(decode)
  {
    var r := NextTime(decode, s, data, pos, 0, false, streamId, true, true);
    r.Ok? && r.value.found && r.value.timeOffset == time
  }

  /** A one-packet search at `pos` finds the stream at `time`. */
  ghost predicate LastAt(decode: AsfObjects.Decoder, s: Settings, data: seq<u8>, pos: nat, streamId: u32, time: u32)
    requires Sized(decode)
  {
    var r := NextTime(decode, s, data, pos, 0, false, streamId, false, true);
    r.Ok? && r.value.found && r.value.timeOffset == time
  }

  /**
   * The end-time search of `SetAsfFileProperties`: one-packet searches from `maxOffset`
   * back a packet at a time, until one finds the stream; `None` once the offset reaches
   * the header. The offset reached is returned with the time, for the next search.
   */
  method FindLast(decode: AsfObjects.Decoder, s: Settings, data: seq<u8>, maxOffset: nat, time: u32, streamId: u32)
    returns (r: Result<Option<(nat, u32)>, FileError>)
    requires Sized(decode)
    ensures r.Ok? && r.value.Some? ==>
      var (at, t) := r.value.value;
      && at <= maxOffset && (at < maxOffset ==> at > s.asfHeaderSize)
      && LastAt(decode, s, data, at, streamId, t)
    ensures r.Err? ==> r.error.InvalidPacket? || r.error == Endless
  {
    var size := s.asfPacketSize;
    var offset: int := maxOffset;
    var found := FindNextTimeOffset(decode, s, data, maxOffset, time, streamId, false);
    if found.Err? {
      return Err(InvalidPacket(found.error));
    }
    while !found.value.found
      invariant 0 <= offset <= maxOffset
      invariant offset < maxOffset ==> offset > s.asfHeaderSize
      invariant found.Ok? && found == NextTime(decode, s, data, offset, found.value.timeOffset, false, streamId, false, true)
      decreases offset
    {
      if size == 0 {
        return Err(Endless);
      }
      offset := offset - size;
      if offset <= s.asfHeaderSize {
        return Ok(None);
      }
      found := FindNextTimeOffset(decode, s, data, offset, found.value.timeOffset, streamId, false);
      if found.Err? {
        return Err(InvalidPacket(found.error));
      }
    }
    FoundIgnoresStart(decode, s, data, offset, found.value.timeOffset, false, 0, false, streamId, false, true);
    return Ok(Some((offset, found.value.timeOffset)));
  }

  /** The first and last presentation times of the video and the audio stream. */
  datatype Times = Times(startVideo: u32, endVideo: u32, startAudio: u32, endAudio: u32)

  /**
   * The times the scans found: the first of each stream searching forward from the header,
   * a last one by a one-packet search at some offset; video times 0 without video.
   */
  ghost predicate TimesFound(decode: AsfObjects.Decoder, s: Settings, data: seq<u8>, hasVideo: bool, t: Times)
    requires Sized(decode)
  {
    && (hasVideo ==> FirstAt(decode, s, data, s.asfHeaderSize, s.asfVideoStreamId, t.startVideo))
    && (hasVideo ==> exists at: nat :: LastAt(decode, s, data, at, s.asfVideoStreamId, t.endVideo))
    && (!hasVideo ==> t.startVideo == 0 && t.endVideo == 0)
    && FirstAt(decode, s, data, s.asfHeaderSize, s.asfAudioStreamId, t.startAudio)
    && (exists at: nat :: LastAt(decode, s, data, at, s.asfAudioStreamId, t.endAudio))
  }

  /** The times the scans of `SetAsfFileProperties` may find in a file with these settings. */
  ghost predicate Scanned(decode: AsfObjects.Decoder, s: Settings, data: seq<u8>, t: Times)
    requires Sized(decode)
  {
    TimesFound(decode, s, data, s.imageWidth > 0, t)
  }

  /**
   * The four scans of `SetAsfFileProperties`: first times from the header, then the last
   * video time back from the last packet, then the last audio time back from where the
   * video scan stopped. `None` when a stream is missing.
   */
  method ScanTimes(decode: AsfObjects.Decoder, s: Settings, data: seq<u8>, hasVideo: bool)
    returns (r: Result<Option<Times>, FileError>)
    requires Sized(decode)
    ensures r.Ok? && r.value.Some? ==> TimesFound(decode, s, data, hasVideo, r.value.value)
    ensures r.Err? ==> r.error.InvalidPacket? || r.error == Endless
  {
    var maxOffset: nat := LastPacketOffset(s);
    var startVideo: u32 := 0;
    var endVideo: u32 := 0;
    if hasVideo {
      var first := FindNextTimeOffset(decode, s, data, s.asfHeaderSize, 0, s.asfVideoStreamId, true);
      if first.Err? {
        return Err(InvalidPacket(first.error));
      }
      if !first.value.found {
        return Ok(None);
      }
      startVideo := first.value.timeOffset;
    }
    var firstAudio := FindNextTimeOffset(decode, s, data, s.asfHeaderSize, 0, s.asfAudioStreamId, true);
    if firstAudio.Err? {
      return Err(InvalidPacket(firstAudio.error));
    }
    if !firstAudio.value.found {
      return Ok(None);
    }
    if hasVideo {
      var last :- FindLast(decode, s, data, maxOffset, 0, s.asfVideoStreamId);
      if last.None? {
        return Ok(None);
      }
      maxOffset := last.value.0;
      endVideo := last.value.1;
    }
    var lastAudio :- FindLast(decode, s, data, maxOffset, 0, s.asfAudioStreamId);
    if lastAudio.None? {
      return Ok(None);
    }
    return Ok(Some(Times(startVideo, endVideo, firstAudio.value.timeOffset, lastAudio.value.1)));
  }

  /** The end offset of the first Data Object: its position plus its size, both as `long`. */
  function DataEnd(os: seq<AsfObjects.AsfObject>): (r: Option<int>)
    ensures r.Some? <==> FirstData(os).Some?
    ensures r.Some? ==> IsInt64(r.value)
  {
    match FirstData(os)
    case None => None
    case Some(i) => Some(ToInt64(os[i].base.position + ToInt64(os[i].base.size)))
  }

  /** The index of the first object whose body is a Data Object, as `GetAsfObject<AsfDataObject>` finds it. */
  function FirstData(os: seq<AsfObjects.AsfObject>): (r: Option<nat>)
    ensures r.Some? ==> r.value < |os| && os[r.value].body.DataBody?
                        && forall i :: 0 <= i < r.value ==> !os[i].body.DataBody?
    ensures r.None? ==> forall i :: 0 <= i < |os| ==> !os[i].body.DataBody?
  {
    if os == [] then None
    else if os[0].body.DataBody? then Some(0)
    else match FirstData(os[1..])
      case None => None
      case Some(i) => Some(i + 1)
  }

  /**
   * The streaming-header read of `LoadFileHeader`: reads from the start of the file until
   * `size` bytes are in. A file shorter than that makes a read return 0 bytes, again and
   * again, and the loop never ends.
   */
  method ReadHeader(data: seq<u8>, size: nat) returns (r: Result<seq<u8>, FileError>)
    ensures r.Ok? <==> size <= |data|
    ensures r.Ok? ==> r.value == data[..size]
    ensures r.Err? ==> r.error == Endless
  {
    var total := 0;
    while total < size
      invariant total <= size && total <= |data|
      decreases size - total
    {
      var n := ReadCount(data, total, size - total);
      if n == 0 {
        return Err(Endless);
      }
      total := total + n;
    }
    return Ok(data[..size]);
  }

  /** The header walk of the file from its start with a reset configuration succeeds with these objects and settings. */
  ghost predicate HeaderLoaded(rd: Reader, data: seq<u8>, objects: seq<AsfObjects.AsfObject>, settings: Settings)
  {
    WalkFrom(rd, data, 0, RESET_SETTINGS, true, |data| + 1) == Ok(Some(Walk(objects, settings)))
  }

  /**
   * How loading the header fails: a walk that fails is an invalid media file, one that does
   * not start with a Header Object leaves no configuration, and a file shorter than the
   * header size never finishes reading the streaming header.
   */
  ghost predicate LoadFailure(rd: Reader, data: seq<u8>, e: FileError)
  {
    var w := WalkFrom(rd, data, 0, RESET_SETTINGS, true, |data| + 1);
    match w
    case Err(_) => e == InvalidMediaFile
    case Ok(None) => e == NoFileHeader
    case Ok(Some(walk)) => |data| < walk.settings.asfHeaderSize && e == Endless
  }

  /**
   * `LoadFileHeader` with the exception handling of the constructor around it: the
   * configuration and objects from the header walk, then the streaming header, the first
   * `AsfHeaderSize` bytes of the file.
   */
  method LoadFileHeader(rd: Reader, data: seq<u8>)
    returns (r: Result<(seq<AsfObjects.AsfObject>, seq<u8>), FileError>, config: AsfFileConfiguration)
    requires Lawful(rd)
    ensures fresh(config)
    ensures r.Err? <==> exists e :: LoadFailure(rd, data, e)
    ensures r.Err? ==> LoadFailure(rd, data, r.error)
    ensures r.Ok? ==> var (objects, header) := r.value;
      && HeaderLoaded(rd, data, objects, config.Snapshot())
      && AllWritable(objects)
      && config.asfHeaderSize <= |data| && header == data[..config.asfHeaderSize]
  {
    var objects;
    objects, config := GetConfiguration(rd, data);
    if objects.Err? {
      assert LoadFailure(rd, data, InvalidMediaFile);
      return Err(InvalidMediaFile), config;
    }
    if objects.value.None? {
      assert LoadFailure(rd, data, NoFileHeader);
      return Err(NoFileHeader), config;
    }
    WalkObjects(rd, data, 0, RESET_SETTINGS, true, |data| + 1);
    var header := ReadHeader(data, config.asfHeaderSize);
    if header.Err? {
      assert LoadFailure(rd, data, Endless);
      return Err(header.error), config;
    }
    return Ok((objects.value.value, header.value)), config;
  }

  // ------------------------------------------------------------ Update

  /** The index of the first Header Object, as `GetAsfObject<AsfFileHeader>` finds it. */
  function FirstHeader(os: seq<AsfObjects.AsfObject>): (r: Option<nat>)
    ensures r.Some? ==> r.value < |os| && os[r.value].body.HeaderBody?
                        && forall i :: 0 <= i < r.value ==> !os[i].body.HeaderBody?
    ensures r.None? ==> forall i :: 0 <= i < |os| ==> !os[i].body.HeaderBody?
  {
    if os == [] then None
    else if os[0].body.HeaderBody? then Some(0)
    else match FirstHeader(os[1..])
      case None => None
      case Some(i) => Some(i + 1)
  }

  /** The objects up to the first Data Object (all of them without one). */
  function BeforeData(os: seq<AsfObjects.AsfObject>): (r: seq<AsfObjects.AsfObject>)
    ensures r == if FirstData(os).Some? then os[..FirstData(os).value] else os
  {
    if FirstData(os).Some? then os[..FirstData(os).value] else os
  }

  /** The sum of `GetLength` over a list of objects. */
  function SumLengths(os: seq<AsfObjects.AsfObject>): nat
  {
    if os == [] then 0 else SumLengths(os[..|os| - 1]) + AsfObjects.Length(os[|os| - 1])
  }

  /** The header length `Update` records: the lengths of the objects before the Data Object. */
  function HeaderLength(os: seq<AsfObjects.AsfObject>): nat
  {
    SumLengths(BeforeData(os))
  }

  /** The first Header Object with its header size replaced; `None` without one. */
  function PatchHeader(os: seq<AsfObjects.AsfObject>, headerSize: u32): (r: Option<seq<AsfObjects.AsfObject>>)
    ensures r.Some? <==> FirstHeader(os).Some?
    ensures r.Some? ==> var i := FirstHeader(os).value;
      && |r.value| == |os|
      && r.value[i].body == AsfObjects.HeaderBody(os[i].body.header.(headerSize := headerSize))
      && r.value[i].base == os[i].base
      && forall j :: 0 <= j < |os| && j != i ==> r.value[j] == os[j]
  {
    match FirstHeader(os)
    case None => None
    case Some(i) =>
      var h := os[i].body.header;
      Some(os[i := os[i].(body := AsfObjects.HeaderBody(h.(headerSize := headerSize)))])
  }

  /** Patching the header size keeps every object writable, every length, and the Data Object where it was. */
  lemma PatchKeeps(os: seq<AsfObjects.AsfObject>, headerSize: u32)
    requires AllWritable(os) && FirstHeader(os).Some?
    ensures var patched := PatchHeader(os, headerSize).value;
      && AllWritable(patched)
      && FirstData(patched) == FirstData(os)
      && HeaderLength(patched) == HeaderLength(os)
  {
    var patched := PatchHeader(os, headerSize).value;
    PatchedWritable(os, headerSize);
    PatchedKinds(os, headerSize);
    HeadersSameLength(patched, os);
    SameFirstData(patched, os);
    SameLengths(BeforeData(patched), BeforeData(os));
  }

  /** The patched header keeps its fields, so every object stays writable. */
  lemma PatchedWritable(os: seq<AsfObjects.AsfObject>, headerSize: u32)
    requires AllWritable(os) && FirstHeader(os).Some?
    ensures AllWritable(PatchHeader(os, headerSize).value)
  {
    var i := FirstHeader(os).value;
    var patched := PatchHeader(os, headerSize).value;
    assert patched[i].body.HeaderBody? && patched[i].body.header.fields == os[i].body.header.fields;
  }

  /** Objects that are equal or both File Header Objects have the same lengths. */
  lemma HeadersSameLength(a: seq<AsfObjects.AsfObject>, b: seq<AsfObjects.AsfObject>)
    requires |a| == |b| && forall j :: 0 <= j < |a| ==> a[j] == b[j] || (a[j].body.HeaderBody? && b[j].body.HeaderBody?)
    ensures forall j :: 0 <= j < |a| ==> AsfObjects.Length(a[j]) == AsfObjects.Length(b[j])
  {
  }

  /** Patching changes no object's kind, so the Data Object stays where it was. */
  lemma PatchedKinds(os: seq<AsfObjects.AsfObject>, headerSize: u32)
    requires FirstHeader(os).Some?
    ensures var patched := PatchHeader(os, headerSize).value;
      forall j :: 0 <= j < |os| ==> patched[j] == os[j] || (patched[j].body.HeaderBody? && os[j].body.HeaderBody?)
  {
  }

  /** Lists with Data Objects at the same places have the same first one. */
  lemma {:induction false} SameFirstData(a: seq<AsfObjects.AsfObject>, b: seq<AsfObjects.AsfObject>)
    requires |a| == |b| && forall j :: 0 <= j < |a| ==> a[j].body.DataBody? == b[j].body.DataBody?
    ensures FirstData(a) == FirstData(b)
    decreases |a|
  {
    if a != [] && !a[0].body.DataBody? {
      SameFirstData(a[1..], b[1..]);
    }
  }

  /** Two lists whose objects have the same lengths have the same sum. */
  lemma {:induction false} SameLengths(a: seq<AsfObjects.AsfObject>, b: seq<AsfObjects.AsfObject>)
    requires |a| == |b| && forall j :: 0 <= j < |a| ==> AsfObjects.Length(a[j]) == AsfObjects.Length(b[j])
    ensures SumLengths(a) == SumLengths(b)
    decreases |a|
  {
    if a != [] {
      SameLengths(a[..|a| - 1], b[..|b| - 1]);
    }
  }

  /** The bytes the packet copy appends after the Data Object: up to `max` bytes of the file from `start`. */
  function PacketBytes(data: seq<u8>, start: nat, max: nat): (r: seq<u8>)
    ensures |r| <= max
    ensures start + |r| <= |data| || r == []
    ensures forall i :: 0 <= i < |r| ==> r[i] == data[start + i]
    ensures |r| < max ==> start + |r| >= |data|
  {
    if start >= |data| then [] else if start + max > |data| then data[start..] else data[start..start + max]
  }

  /**
   * The packet copy of `Update`: 32768-byte reads from `start`, each written out until
   * `max` bytes are reached, the last one cut to fit.
   */
  method CopyPackets(data: seq<u8>, start: nat, max: nat) returns (out: seq<u8>)
    ensures out == PacketBytes(data, start, max)
  {
    out := [];
    var pos := start;
    var total := 0;
    while true
      invariant total < max ==> total == |out| && pos == start + total && (total > 0 ==> pos <= |data|)
      invariant total < max ==> out == PacketBytes(data, start, total)
      invariant total >= max ==> out == PacketBytes(data, start, max)
      decreases |data| - pos
    {
      var bytesRead := ReadCount(data, pos, 32768);
      if !(bytesRead > 0 && total < max) {
        break;
      }
      var chunk := data[pos..pos + bytesRead];
      pos := pos + bytesRead;
      total := total + bytesRead;
      if total > max {
        chunk := chunk[..bytesRead - (total - max)];
      }
      out := out + chunk;
    }
  }

  /**
   * The maximum the source copies: packet count times packet size, multiplied in unsigned
   * 32 bits before it is widened to `long`.
   */
  function MaxBytesAsWritten(s: Settings): u32
  {
    (s.asfPacketCount * s.asfPacketSize) % 0x1_0000_0000
  }

  /**
   * 65536 packets of 65536 bytes: the product wraps to 0, so the rewrite copies no packet
   * at all, where all 4 GiB of packets are meant.
   */
  lemma MaxBytesAsWrittenDropsPackets()
    ensures var s := RESET_SETTINGS.(asfPacketCount := 0x1_0000, asfPacketSize := 0x1_0000);
      && MaxBytesAsWritten(s) == 0
      && s.asfPacketCount * s.asfPacketSize == 0x1_0000_0000
      && forall data: seq<u8>, start: nat :: PacketBytes(data, start, MaxBytesAsWritten(s)) == []
  {
  }

  /** One object as `Update` writes it: serialized, then the packets when it is the Data Object. */
  function Piece(o: AsfObjects.AsfObject, packetSize: u32, packets: seq<u8>): (r: Result<seq<u8>, AsfObjects.WriteError>)
    requires AsfObjects.Writable(o.body)
    ensures r.Ok? ==> |r.value| == AsfObjects.Length(o) + (if o.body.DataBody? then |packets| else 0)
  {
    var bytes :- AsfObjects.Serialize(o, packetSize);
    Ok(bytes + if o.body.DataBody? then packets else [])
  }

  /** The objects as `Update` writes them, in order; the first that cannot be written fails the rewrite. */
  function WriteAll(os: seq<AsfObjects.AsfObject>, packetSize: u32, packets: seq<u8>): (r: Result<seq<u8>, AsfObjects.WriteError>)
    requires AllWritable(os)
  {
    if os == [] then Ok([])
    else
      var init :- WriteAll(os[..|os| - 1], packetSize, packets);
      var last :- Piece(os[|os| - 1], packetSize, packets);
      Ok(init + last)
  }

  /** The parts of a writable list are writable. */
  lemma AllWritableSplit(a: seq<AsfObjects.AsfObject>, b: seq<AsfObjects.AsfObject>)
    requires AllWritable(a + b)
    ensures AllWritable(a) && AllWritable(b)
  {
    assert forall j :: 0 <= j < |a| ==> a[j] == (a + b)[j];
    assert forall j :: 0 <= j < |b| ==> b[j] == (a + b)[|a| + j];
  }

  /** Writing a list in two parts writes it whole. */
  lemma {:induction false} WriteAllSplit(a: seq<AsfObjects.AsfObject>, b: seq<AsfObjects.AsfObject>, packetSize: u32, packets: seq<u8>)
    requires AllWritable(a + b) && AllWritable(a) && AllWritable(b)
    requires WriteAll(a + b, packetSize, packets).Ok?
    ensures WriteAll(a, packetSize, packets).Ok? && WriteAll(b, packetSize, packets).Ok?
    ensures WriteAll(a + b, packetSize, packets).value == WriteAll(a, packetSize, packets).value + WriteAll(b, packetSize, packets).value
    decreases |b|
  {
    if b == [] {
      assert a + b == a;
    } else {
      var b' := b[..|b| - 1];
      assert (a + b)[..|a + b| - 1] == a + b';
      assert (a + b)[|a + b| - 1] == b[|b| - 1];
      AllWritableSplit(a + b', [b[|b| - 1]]);
      AllWritableSplit(b', [b[|b| - 1]]);
      WriteAllSplit(a, b', packetSize, packets);
    }
  }

  /** Written without wrap-around, the lengths of the objects before the Data Object are the bytes before it. */
  lemma {:induction false} WrittenLength(os: seq<AsfObjects.AsfObject>, packetSize: u32, packets: seq<u8>)
    requires AllWritable(os) && WriteAll(os, packetSize, packets).Ok?
    requires forall j :: 0 <= j < |os| ==> !os[j].body.DataBody?
    ensures |WriteAll(os, packetSize, packets).value| == SumLengths(os)
    decreases |os|
  {
    if os != [] {
      WrittenLength(os[..|os| - 1], packetSize, packets);
    }
  }

  /**
   * In the rewritten file the Data Object starts right after the objects before it: at
   * the header length `Update` records in the Header Object.
   */
  lemma DataFollowsHeader(os: seq<AsfObjects.AsfObject>, packetSize: u32, packets: seq<u8>)
    requires AllWritable(os) && WriteAll(os, packetSize, packets).Ok? && FirstData(os).Some?
    ensures var i := FirstData(os).value;
      && AllWritable(os[..i]) && AllWritable(os[i..])
      && WriteAll(os[..i], packetSize, packets).Ok? && WriteAll(os[i..], packetSize, packets).Ok?
      && WriteAll(os, packetSize, packets).value
         == WriteAll(os[..i], packetSize, packets).value + WriteAll(os[i..], packetSize, packets).value
      && |WriteAll(os[..i], packetSize, packets).value| == HeaderLength(os)
  {
    var i := FirstData(os).value;
    assert os == os[..i] + os[i..];
    AllWritableSplit(os[..i], os[i..]);
    WriteAllSplit(os[..i], os[i..], packetSize, packets);
    WrittenLength(os[..i], packetSize, packets);
  }

  /** A failed write of a prefix fails the whole list with the same error. */
  lemma {:induction false} WriteAllFails(os: seq<AsfObjects.AsfObject>, k: nat, packetSize: u32, packets: seq<u8>)
    requires AllWritable(os) && k <= |os|
    requires WriteAll(os[..k], packetSize, packets).Err?
    ensures WriteAll(os, packetSize, packets) == WriteAll(os[..k], packetSize, packets)
    decreases |os| - k
  {
    if k < |os| {
      var init := os[..|os| - 1];
      assert init[..k] == os[..k];
      WriteAllFails(init, k, packetSize, packets);
    } else {
      assert os[..k] == os;
    }
  }

  /** Writing one more object appends its piece, or fails with its error. */
  lemma WriteAllStep(os: seq<AsfObjects.AsfObject>, i: nat, packetSize: u32, packets: seq<u8>)
    requires AllWritable(os) && i < |os|
    requires WriteAll(os[..i], packetSize, packets).Ok?
    ensures var piece := Piece(os[i], packetSize, packets);
      && (piece.Ok? ==> WriteAll(os[..i + 1], packetSize, packets)
                        == Ok(WriteAll(os[..i], packetSize, packets).value + piece.value))
      && (piece.Err? ==> WriteAll(os[..i + 1], packetSize, packets) == Err(piece.error))
  {
    assert os[..i + 1][..i] == os[..i] && os[..i + 1][i] == os[i];
  }

  /** The first loop of `Update`: the lengths of the objects up to the Data Object. */
  method SumHeaderLengths(os: seq<AsfObjects.AsfObject>) returns (n: nat)
    ensures n == HeaderLength(os)
  {
    n := 0;
    var i := 0;
    while i < |os|
      invariant i <= |os| && n == SumLengths(os[..i])
      invariant forall j :: 0 <= j < i ==> !os[j].body.DataBody?
    {
      if os[i].body.DataBody? {
        break;
      }
      assert os[..i + 1][..i] == os[..i];
      n := n + AsfObjects.Length(os[i]);
      i := i + 1;
    }
    assert i == |os| ==> os[..i] == os;
  }

  /**
   * The write loop of `Update`: every object serialized in turn, the packets copied after
   * the Data Object; the first object that cannot be written ends the rewrite.
   */
  method WriteObjects(os: seq<AsfObjects.AsfObject>, packetSize: u32, data: seq<u8>, start: nat, max: nat)
    returns (r: Result<seq<u8>, FileError>)
    requires AllWritable(os)
    ensures var w := WriteAll(os, packetSize, PacketBytes(data, start, max));
      && (r.Ok? <==> w.Ok?)
      && (r.Ok? ==> r.value == w.value)
      && (r.Err? ==> r.error == WriteFailed(w.error))
  {
    ghost var packets := PacketBytes(data, start, max);
    var out := [];
    for i := 0 to |os|
      invariant WriteAll(os[..i], packetSize, packets) == Ok(out)
    {
      var bytes := AsfObjects.Serialize(os[i], packetSize);
      WriteAllStep(os, i, packetSize, packets);
      if bytes.Err? {
        WriteAllFails(os, i + 1, packetSize, packets);
        return Err(WriteFailed(bytes.error));
      }
      var piece := bytes.value;
      if os[i].body.DataBody? {
        var copied := CopyPackets(data, start, max);
        piece := piece + copied;
      }
      assert piece == bytes.value + if os[i].body.DataBody? then packets else [];
      out := out + piece;
    }
    assert os[..|os|] == os;
    r := Ok(out);
  }

  /** The file `Update` writes for the objects `os`, with the packets copied from `data`. */
  function Rewrite(os: seq<AsfObjects.AsfObject>, s: Settings, data: seq<u8>): (r: Result<seq<u8>, AsfObjects.WriteError>)
    requires AllWritable(os)
  {
    WriteAll(os, s.asfPacketSize, PacketBytes(data, s.asfHeaderSize, s.asfPacketCount * s.asfPacketSize))
  }

  /** The header list as `Update` leaves it: the header size set to the header length, as a `uint`. */
  function Patched(os: seq<AsfObjects.AsfObject>): (r: Option<seq<AsfObjects.AsfObject>>)
    requires AllWritable(os)
    ensures r.Some? <==> FirstHeader(os).Some?
    ensures r.Some? ==> AllWritable(r.value) && FirstData(r.value) == FirstData(os)
                        && HeaderLength(r.value) == HeaderLength(os)
  {
    var r := PatchHeader(os, (HeaderLength(os) % 0x1_0000_0000) as u32);
    if r.Some? then PatchKeeps(os, (HeaderLength(os) % 0x1_0000_0000) as u32); r else r
  }

  /**
   * A written list is the bytes before the Data Object, the Data Object, the packets and
   * the rest; the bytes before it are as long as the header length.
   */
  lemma DataAfterHeader(os: seq<AsfObjects.AsfObject>, packetSize: u32, packets: seq<u8>)
    requires AllWritable(os) && WriteAll(os, packetSize, packets).Ok? && FirstData(os).Some?
    ensures var i := FirstData(os).value;
      && AsfObjects.Serialize(os[i], packetSize).Ok?
      && exists prefix, rest ::
           && |prefix| == HeaderLength(os)
           && WriteAll(os, packetSize, packets).value
              == prefix + AsfObjects.Serialize(os[i], packetSize).value + packets + rest
  {
    var i := FirstData(os).value;
    DataFollowsHeader(os, packetSize, packets);
    WriteDataFirst(os[i..], packetSize, packets);
    var prefix := WriteAll(os[..i], packetSize, packets).value;
    var ser := AsfObjects.Serialize(os[i], packetSize).value;
    var rest := WriteAll(os[i..][1..], packetSize, packets).value;
    Regroup(prefix, ser, packets, rest);
  }

  /** Concatenation regrouped. */
  lemma Regroup(a: seq<u8>, b: seq<u8>, c: seq<u8>, d: seq<u8>)
    ensures a + (b + c + d) == a + b + c + d
  {
  }

  /** A list that starts with the Data Object is written as that object, the packets and the rest. */
  lemma WriteDataFirst(os: seq<AsfObjects.AsfObject>, packetSize: u32, packets: seq<u8>)
    requires AllWritable(os) && |os| > 0 && os[0].body.DataBody? && WriteAll(os, packetSize, packets).Ok?
    ensures AllWritable(os[1..]) && AsfObjects.Serialize(os[0], packetSize).Ok?
    ensures WriteAll(os[1..], packetSize, packets).Ok?
    ensures WriteAll(os, packetSize, packets).value
            == AsfObjects.Serialize(os[0], packetSize).value + packets + WriteAll(os[1..], packetSize, packets).value
  {
    assert os == [os[0]] + os[1..];
    WriteAllSplit([os[0]], os[1..], packetSize, packets);
    WriteOne(os[0], packetSize, packets);
  }

  /** A one-object list is written as that object's piece. */
  lemma WriteOne(o: AsfObjects.AsfObject, packetSize: u32, packets: seq<u8>)
    requires AsfObjects.Writable(o.body)
    ensures AllWritable([o]) && WriteAll([o], packetSize, packets) == Piece(o, packetSize, packets)
  {
    assert [o][..0] == [] && [o][0] == o;
    assert WriteAll([], packetSize, packets) == Ok([]);
    var piece := Piece(o, packetSize, packets);
    if piece.Ok? {
      assert [] + piece.value == piece.value;
    }
  }

  /**
   * In the file `Update` writes, the Header Object records where the Data Object begins
   * (modulo 2^32), and the Data Object is followed by the copied packets.
   */
  lemma RewriteRecordsDataStart(os: seq<AsfObjects.AsfObject>, s: Settings, data: seq<u8>)
    requires AllWritable(os) && FirstHeader(os).Some? && FirstData(os).Some?
    requires Rewrite(Patched(os).value, s, data).Ok?
    ensures var patched := Patched(os).value;
      && var i := FirstData(patched).value;
      && patched[FirstHeader(os).value].body.header.headerSize as int == HeaderLength(os) % 0x1_0000_0000
      && AsfObjects.Serialize(patched[i], s.asfPacketSize).Ok?
      && exists prefix, rest ::
           && |prefix| % 0x1_0000_0000 == patched[FirstHeader(os).value].body.header.headerSize as int
           && Rewrite(patched, s, data).value
              == prefix + AsfObjects.Serialize(patched[i], s.asfPacketSize).value
                 + PacketBytes(data, s.asfHeaderSize, s.asfPacketCount * s.asfPacketSize) + rest
  {
    var patched := Patched(os).value;
    DataAfterHeader(patched, s.asfPacketSize, PacketBytes(data, s.asfHeaderSize, s.asfPacketCount * s.asfPacketSize));
  }

  /**
   * With the exact product as the limit, `Update` copies every packet the header declares
   * whenever the file holds them.
   */
  lemma RewriteCopiesAllPackets(s: Settings, data: seq<u8>)
    requires s.asfHeaderSize as int + s.asfPacketCount as int * s.asfPacketSize as int <= |data|
    ensures PacketBytes(data, s.asfHeaderSize, s.asfPacketCount * s.asfPacketSize)
            == data[s.asfHeaderSize..s.asfHeaderSize as int + s.asfPacketCount as int * s.asfPacketSize as int]
  {
  }

  /** The bytes of a read land in the caller's buffer at `offset`; the rest of the buffer is kept. */
  method CopyInto(buffer: array<u8>, offset: nat, bytes: seq<u8>)
    requires offset + |bytes| <= buffer.Length
    modifies buffer
    ensures buffer[..] == old(buffer[..offset]) + bytes + old(buffer[offset + |bytes|..])
  {
    forall i | 0 <= i < |bytes| {
      buffer[offset + i] := bytes[i];
    }
    assert buffer[..] == old(buffer[..offset]) + bytes + old(buffer[offset + |bytes|..]);
  }

  class AsfFile {
    const fileName: string
    /** The file's contents; `Update` replaces them when it overwrites the file. */
    var data: seq<u8>
    const asfConfig: AsfFileConfiguration
    var headerObjects: seq<AsfObjects.AsfObject>
    var streamingHeader: Option<seq<u8>>
    var startOffset: int
    var endOffset: int
    var startTimeOffsetVideo: u32
    var endTimeOffsetVideo: u32
    var startTimeOffsetAudio: u32
    var endTimeOffsetAudio: u32
    var mediaType: FileMediaType
    var length: u32
    /** The open file stream's position; `None` when the stream is closed. */
    var fileStream: Option<nat>

    /** The offsets are `long` values. */
    ghost predicate Valid()
      reads this`startOffset, this`endOffset
    {
      IsInt64(startOffset) && IsInt64(endOffset)
    }

    /** The file as the constructor leaves it before its properties are read. */
    constructor Loaded(fileName: string, data: seq<u8>, asfConfig: AsfFileConfiguration,
                       headerObjects: seq<AsfObjects.AsfObject>, streamingHeader: seq<u8>)
      ensures Valid()
      ensures this.fileName == fileName && this.data == data && this.asfConfig == asfConfig
      ensures this.headerObjects == headerObjects && this.streamingHeader == Some(streamingHeader)
      ensures startOffset == 0 && endOffset == 0 && length == 0 && fileStream.None? && mediaType == Audio
      ensures startTimeOffsetVideo == 0 && endTimeOffsetVideo == 0
      ensures startTimeOffsetAudio == 0 && endTimeOffsetAudio == 0
    {
      this.fileName := fileName;
      this.data := data;
      this.asfConfig := asfConfig;
      this.headerObjects := headerObjects;
      this.streamingHeader := Some(streamingHeader);
      startOffset := 0;
      endOffset := 0;
      startTimeOffsetVideo := 0;
      endTimeOffsetVideo := 0;
      startTimeOffsetAudio := 0;
      endTimeOffsetAudio := 0;
      mediaType := Audio;
      length := 0;
      fileStream := None;
    }

    /** The time span of the stream that decides the file's timing, in unsigned 32 bits. */
    function Duration(): u32
      reads this
    {
      if mediaType == Audio then (endTimeOffsetAudio - startTimeOffsetAudio) % 0x1_0000_0000
      else (endTimeOffsetVideo - startTimeOffsetVideo) % 0x1_0000_0000
    }

    /** The packets up to the end offset: a `long` division cast to 32 bits. */
    function PacketCount(): u32
      reads this, asfConfig
      requires asfConfig.asfPacketSize > 0
    {
      TruncDiv(endOffset, asfConfig.asfPacketSize) % 0x1_0000_0000
    }

    /**
     * `GetAveragePacketDuration`: the duration over the packet count, rounded down; either
     * division by 0 throws.
     */
    function GetAveragePacketDuration(): (r: Result<u32, FileError>)
      reads this, asfConfig
      ensures r.Err? <==> asfConfig.asfPacketSize == 0 || PacketCount() == 0
      ensures r.Ok? ==> r.value * PacketCount() <= Duration() < (r.value + 1) * PacketCount()
    {
      if asfConfig.asfPacketSize == 0 || PacketCount() == 0 then Err(DivideByZero)
      else
        Ok(Average(Duration(), PacketCount()))
    }

    /** The time a search for `searchOffset` ms aims at: after the first video time, at least 0, in 32 bits. */
    function TargetTime(searchOffset: i32): u32
      reads this
    {
      Wrap32(if startTimeOffsetVideo + searchOffset < 0 then 0 else startTimeOffsetVideo + searchOffset)
    }

    /** The search `GetFilePosition` runs for a stream type, a requested time and an average packet duration. */
    function SearchFor(streamType: AsfStreamType, searchOffset: i32, average: u32): Search
      reads this, asfConfig
    {
      var s := asfConfig.Snapshot();
      Search(AsfObjects.PacketDecoder(s.asfPacketSize), s, data,
             if streamType == AsfAudio then s.asfAudioStreamId else s.asfVideoStreamId,
             TargetTime(searchOffset),
             if streamType == AsfAudio then ASF_TIME_THRESHOLD_START_AUDIO else ASF_TIME_THRESHOLD,
             average, s.asfHeaderSize, LastPacketOffset(s))
    }

    /**
     * What `GetFilePosition` promises of a position: it names this file and its media type,
     * lies within the first 2^34 bytes, and is placed as a start or an end for the search
     * that the request sets up.
     */
    ghost predicate Positioned(p: FilePosition, searchOffset: i32, streamType: AsfStreamType, isStart: bool)
      reads this, asfConfig
    {
      GetAveragePacketDuration().Ok? &&
      var e := SearchFor(streamType, searchOffset, GetAveragePacketDuration().value);
      CodecSized(e.s.asfPacketSize);
      && p.fileName == fileName && p.mediaType == mediaType && 0 <= p.fileOffset < 0x3_0000_0000
      && (isStart ==> p.timeOffset == TargetTime(searchOffset) && StartPlaced(e, streamType == AsfAudio, p.fileOffset, p.delta))
      && (!isStart ==> EndPlaced(e, p.fileOffset, p.delta, p.timeOffset))
    }

    /**
     * `GetFilePosition`: the packet offset for the time `searchOffset` ms after the file's
     * first video time. A start position is a key frame (any audio packet) at or before the
     * target time, or the first packet; an end position lies one packet past audio at or
     * after the target time, or past the last packet. `None` when the search gives up.
     */
    method GetFilePosition(searchOffset: i32, streamType: AsfStreamType, isStart: bool)
      returns (r: Result<Option<FilePosition>, FileError>)
      ensures r.Ok? && r.value.Some? ==> Positioned(r.value.value, searchOffset, streamType, isStart)
    {
      var average :- GetAveragePacketDuration();
      var e := SearchFor(streamType, searchOffset, average);
      CodecSized(e.s.asfPacketSize);
      var placed :- Locate(e, isStart, streamType == AsfAudio, searchOffset, startTimeOffsetVideo);
      if placed.None? {
        return Ok(None);
      }
      var q := placed.value;
      return Ok(Some(NewPositionWith(fileName, q.timeOffset, q.fileOffset, mediaType, q.delta)));
    }

    /**
     * The positions `SetOffsetRange` settles on: a start for `startMs`, and an end for
     * `endMs`, or the current end offset when `endMs` is 0.
     */
    ghost predicate RangeFound(start: FilePosition, end: FilePosition, startMs: i32, endMs: i32, streamType: AsfStreamType)
      reads this, asfConfig
    {
      && Positioned(start, startMs, streamType, true)
      && (endMs == 0 ==> end == FilePosition(fileName, Video, endOffset, U32_MAX, 0))
      && (endMs != 0 ==> Positioned(end, endMs, streamType, false))
    }

    /** The two searches of `SetOffsetRange`; `None` when either gives up. */
    method FindRange(startMs: i32, endMs: i32, streamType: AsfStreamType)
      returns (r: Result<Option<(FilePosition, FilePosition)>, FileError>)
      requires IsInt64(endOffset)
      ensures r.Ok? && r.value.Some? ==> RangeFound(r.value.value.0, r.value.value.1, startMs, endMs, streamType)
      ensures r.Ok? && r.value.Some? ==> IsInt64(r.value.value.0.fileOffset) && IsInt64(r.value.value.1.fileOffset)
    {
      var start :- GetFilePosition(startMs, streamType, true);
      if start.None? {
        return Ok(None);
      }
      if endMs == 0 {
        return Ok(Some((start.value, NewPosition(start.value.fileName, U32_MAX, endOffset))));
      }
      var end :- GetFilePosition(endMs, streamType, false);
      if end.None? {
        return Ok(None);
      }
      return Ok(Some((start.value, end.value)));
    }

    /**
     * The stores `SetOffsetRange` makes once both positions are known: the offsets, then the
     * length converted to `uint`, which throws outside its range, then the stream is closed.
     */
    method StoreRange(start: FilePosition, end: FilePosition) returns (r: Result<(), FileError>)
      requires Valid() && 0 <= start.fileOffset < 0x3_0000_0000 && IsInt64(end.fileOffset)
      modifies this`startOffset, this`endOffset, this`length, this`fileStream
      ensures Valid()
      ensures startOffset == start.fileOffset && endOffset == end.fileOffset
      ensures r.Ok? <==> 0 <= endOffset - startOffset <= U32_MAX
      ensures r.Ok? ==> length as int == endOffset - startOffset && fileStream.None?
      ensures r.Err? ==> length == old(length) && fileStream == old(fileStream)
    {
      startOffset := start.fileOffset;
      endOffset := end.fileOffset;
      var span := ToInt64(endOffset - startOffset);
      ShortSpan(endOffset, startOffset);
      if !(0 <= span <= U32_MAX) {
        return Err(Overflow);
      }
      length := span;
      fileStream := None;
      return Ok(());
    }

    /**
     * `SetOffsetRange`: the positions for a start and an end time (ms); an end time of 0 means
     * the current end offset. On success the byte range and its length are stored and the
     * stream is closed. `None` when either search gives up, nothing changed. The offsets are
     * stored before the length is converted, so a range outside `uint` throws with them set.
     */
    method SetOffsetRange(startMs: i32, endMs: i32, streamType: AsfStreamType)
      returns (r: Result<Option<(FilePosition, FilePosition)>, FileError>)
      requires Valid()
      modifies this`startOffset, this`endOffset, this`length, this`fileStream
      ensures Valid()
      ensures r.Ok? && r.value.Some? ==>
        var (start, end) := r.value.value;
        && old(RangeFound(start, end, startMs, endMs, streamType))
        && startOffset == start.fileOffset && endOffset == end.fileOffset
        && length as int == endOffset - startOffset && fileStream.None?
      ensures r.Ok? && r.value.None? ==> unchanged(this)
      ensures r.Err? ==> length == old(length) && fileStream == old(fileStream)
      ensures r.Err? ==> unchanged(this) || !(0 <= endOffset - startOffset <= U32_MAX)
    {
      var range :- FindRange(startMs, endMs, streamType);
      if range.None? {
        return Ok(None);
      }
      var stored := StoreRange(range.value.0, range.value.1);
      if stored.Err? {
        return Err(stored.error);
      }
      return Ok(Some(range.value));
    }

    /** `GetStreamingHeader`: a fresh copy of the header bytes, or null when none was loaded. */
    method GetStreamingHeader() returns (r: Option<array<u8>>)
      ensures r.Some? <==> streamingHeader.Some?
      ensures r.Some? ==> fresh(r.value) && r.value[..] == streamingHeader.value
    {
      if streamingHeader.None? {
        return None;
      }
      var header := streamingHeader.value;
      var copy := new u8[|header|](i requires 0 <= i < |header| => header[i]);
      return Some(copy);
    }

    /**
     * `Open`: a new stream, moved to the start offset; a negative offset makes the seek
     * throw, which leaves the new stream at 0 and reports failure.
     */
    method Open() returns (ok: bool)
      modifies this`fileStream
      ensures ok <==> startOffset >= 0
      ensures fileStream == Some(if ok then startOffset else 0)
    {
      if startOffset < 0 {
        fileStream := Some(0);
        return false;
      }
      fileStream := Some(startOffset);
      return true;
    }

    /** `Close`: the stream, if any, is closed. */
    method Close()
      modifies this`fileStream
      ensures fileStream.None?
    {
      fileStream := None;
    }

    /**
     * `Update`: closes the stream, records the header length in the Header Object and
     * writes the objects, with the data packets after the Data Object, to `target` — or over
     * the file itself when `target` is empty or names it. The result is the name written
     * and its new contents.
     */
    method Update(target: string) returns (r: Result<(string, seq<u8>), FileError>)
      requires AllWritable(headerObjects)
      modifies this`headerObjects, this`data, this`fileStream
      ensures fileStream.None? && AllWritable(headerObjects)
      ensures Patched(old(headerObjects)).None? ==>
                r == Err(NoFileHeader) && headerObjects == old(headerObjects) && data == old(data)
      ensures Patched(old(headerObjects)).Some? ==>
        && headerObjects == Patched(old(headerObjects)).value
        && var w := Rewrite(headerObjects, asfConfig.Snapshot(), old(data));
        && (r.Ok? <==> w.Ok?)
        && (r.Err? ==> r.error == WriteFailed(w.error) && data == old(data))
        && (r.Ok? ==> r.value.1 == w.value)
      ensures r.Ok? ==>
        var overwrite := target == [] || target == fileName;
        && r.value.0 == (if overwrite then fileName else target)
        && data == (if overwrite then r.value.1 else old(data))
    {
      Close();
      var overwrite := target == [] || target == fileName;
      var headerLength := SumHeaderLengths(headerObjects);
      var patched := PatchHeader(headerObjects, (headerLength % 0x1_0000_0000) as u32);
      if patched.None? {
        return Err(NoFileHeader);
      }
      PatchKeeps(headerObjects, (headerLength % 0x1_0000_0000) as u32);
      headerObjects := patched.value;
      var max := asfConfig.asfPacketCount as int * asfConfig.asfPacketSize as int;
      var written := WriteObjects(headerObjects, asfConfig.asfPacketSize, data, asfConfig.asfHeaderSize as nat, max);
      if written.Err? {
        return Err(written.error);
      }
      var name := if overwrite then fileName else target;
      if overwrite {
        data := written.value;
      }
      r := Ok((name, written.value));
    }

    /**
     * `Read`: up to `count` bytes from the stream into `buffer` at `offset`, never past the
     * end offset; -1 when no stream can be opened, 0 at or past the end offset. The count is
     * cut to the bytes left before the end offset, cast to `int`.
     */
    method Read(buffer: array<u8>, offset: i32, count: i32) returns (r: Result<int, FileError>)
      modifies this`fileStream, buffer
      ensures old(fileStream).None? && startOffset < 0 ==> r == Ok(-1) && fileStream == Some(0) && unchanged(buffer)
      ensures old(fileStream).Some? || startOffset >= 0 ==>
        var pos: nat := if old(fileStream).Some? then old(fileStream).value else startOffset;
        var n := if count < ToInt32(endOffset - pos) then count else ToInt32(endOffset - pos);
        if pos >= endOffset then
          r == Ok(0) && fileStream == Some(pos) && unchanged(buffer)
        else if offset < 0 || n < 0 || buffer.Length - offset < n then
          r == Err(InvalidArguments) && fileStream == Some(pos) && unchanged(buffer)
        else
          var k := ReadCount(data, pos, n);
          && r == Ok(k) && fileStream == Some(pos + k)
          && buffer[..] == old(buffer[..offset]) + ReadBytes(data, pos, n) + old(buffer[offset + k..])
      ensures r.Ok? && r.value > 0 ==> old(fileStream).Some? || startOffset >= 0
      ensures r.Ok? && r.value > 0 ==> (if old(fileStream).Some? then old(fileStream).value else startOffset) + r.value <= endOffset
    {
      if fileStream.None? {
        var isOpen := Open();
        if !isOpen {
          return Ok(-1);
        }
      }
      var pos := fileStream.value;
      if pos >= endOffset {
        return Ok(0);
      }
      var left := ToInt32(endOffset - pos);
      var n := if count < left then count else left;
      if offset < 0 || n < 0 || buffer.Length - offset < n {
        return Err(InvalidArguments);
      }
      var bytes := ReadBytes(data, pos, n);
      CopyInto(buffer, offset, bytes);
      fileStream := Some(pos + |bytes|);
      return Ok(|bytes|);
    }


    /**
     * `SetAsfFileProperties`: the first and last times of the video stream (when the file has
     * one, by its image width) and of the audio stream, the end offset past the Data
     * Object, and the media type by whether a video end time was found. `false` when a
     * stream is missing at either end, nothing changed then. The Data Object is looked up
     * after the times are stored, so a file without one throws with the times set.
     */
    method SetAsfFileProperties(decode: AsfObjects.Decoder) returns (r: Result<bool, FileError>)
      requires Sized(decode) && Valid()
      modifies this`startTimeOffsetVideo, this`endTimeOffsetVideo, this`startTimeOffsetAudio, this`endTimeOffsetAudio
      modifies this`endOffset, this`mediaType
      ensures Valid()
      ensures r.Ok? && !r.value ==> unchanged(this`startTimeOffsetVideo, this`endTimeOffsetVideo, this`startTimeOffsetAudio, this`endTimeOffsetAudio, this`endOffset, this`mediaType)
      ensures r.Ok? && r.value ==>
        var times := Times(startTimeOffsetVideo, endTimeOffsetVideo, startTimeOffsetAudio, endTimeOffsetAudio);
        && Scanned(decode, old(asfConfig.Snapshot()), old(data), times)
        && DataEnd(headerObjects) == Some(endOffset)
        && mediaType == (if endTimeOffsetVideo > 0 then Video else Audio)
      ensures r == Err(NoDataObject) ==> FirstData(headerObjects).None?
      ensures r.Err? ==> r.error.InvalidPacket? || r.error == Endless || r.error == NoDataObject
      ensures r.Err? && r != Err(NoDataObject) ==> unchanged(this`startTimeOffsetVideo, this`endTimeOffsetVideo, this`startTimeOffsetAudio, this`endTimeOffsetAudio, this`endOffset, this`mediaType)
    {
      var settings := asfConfig.Snapshot();
      var scanned :- ScanTimes(decode, settings, data, settings.imageWidth > 0);
      if scanned.None? {
        return Ok(false);
      }
      r := StoreProperties(scanned.value);
    }

    /** The stores of `SetAsfFileProperties` once the scans succeeded: the times, then the end offset and the media type. */
    method StoreProperties(times: Times) returns (r: Result<bool, FileError>)
      requires Valid()
      modifies this`startTimeOffsetVideo, this`endTimeOffsetVideo, this`startTimeOffsetAudio, this`endTimeOffsetAudio
      modifies this`endOffset, this`mediaType
      ensures Valid()
      ensures times == Times(startTimeOffsetVideo, endTimeOffsetVideo, startTimeOffsetAudio, endTimeOffsetAudio)
      ensures r.Ok? <==> FirstData(headerObjects).Some?
      ensures r.Ok? ==> r.value && DataEnd(headerObjects) == Some(endOffset)
                        && mediaType == (if endTimeOffsetVideo > 0 then Video else Audio)
      ensures r.Err? ==> r.error == NoDataObject && unchanged(this`endOffset, this`mediaType)
    {
      startTimeOffsetVideo := times.startVideo;
      endTimeOffsetVideo := times.endVideo;
      startTimeOffsetAudio := times.startAudio;
      endTimeOffsetAudio := times.endAudio;
      var dataEnd := DataEnd(headerObjects);
      if dataEnd.None? {
        return Err(NoDataObject);
      }
      endOffset := dataEnd.value;
      mediaType := if times.endVideo > 0 then Video else Audio;
      return Ok(true);
    }

    /**
     * The constructor: the header walk and the streaming header, whose failures are
     * reported as `LoadFileHeader` reports them; then the properties, whose failures surface
     * unchanged and whose `false` is ignored.
     */
    static method Load(rd: Reader, codec: nat -> AsfObjects.Decoder, fileName: string, data: seq<u8>)
      returns (r: Result<AsfFile, FileError>)
      requires Lawful(rd) && forall size :: Sized(codec(size))
      ensures (exists e :: LoadFailure(rd, data, e)) ==> r.Err? && LoadFailure(rd, data, r.error)
      ensures r.Ok? ==>
        var f := r.value;
        && fresh(f) && fresh(f.asfConfig) && f.Valid() && AllWritable(f.headerObjects)
        && f.fileName == fileName && f.data == data
        && HeaderLoaded(rd, data, f.headerObjects, f.asfConfig.Snapshot())
        && f.asfConfig.asfHeaderSize <= |data| && f.streamingHeader == Some(data[..f.asfConfig.asfHeaderSize])
        && f.startOffset == 0 && f.length == 0 && f.fileStream.None?
    {
      var loaded, config := LoadFileHeader(rd, data);
      if loaded.Err? {
        return Err(loaded.error);
      }
      var (objects, header) := loaded.value;
      var file := new AsfFile.Loaded(fileName, data, config, objects, header);
      var properties := file.ReadProperties(codec(config.asfPacketSize));
      if properties.Err? {
        return Err(properties.error);
      }
      return Ok(file);
    }

    /** The constructor's call of `SetAsfFileProperties`: its failures surface, its `false` is ignored. */
    method ReadProperties(decode: AsfObjects.Decoder) returns (r: Result<(), FileError>)
      requires Sized(decode) && Valid()
      modifies this`startTimeOffsetVideo, this`endTimeOffsetVideo, this`startTimeOffsetAudio, this`endTimeOffsetAudio
      modifies this`endOffset, this`mediaType
      ensures Valid()
      ensures r.Err? ==> r.error.InvalidPacket? || r.error == Endless || r.error == NoDataObject
    {
      var _ :- SetAsfFileProperties(decode);
      return Ok(());
    }
  }
}

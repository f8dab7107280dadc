// The two index objects stored after the data packets. The Simple Index Object holds one
// entry per time interval naming a packet range; the Index Object holds, per block and per
// indexed stream, byte offsets into the packet data that become packet numbers.

module AsfIndex {
  import opened Bytes
  import opened Wrappers
  import opened AsfStruct
  import opened PacketCodec

  datatype IndexError =
    | Truncated                // an entry lies past the end of the file
    | PacketRangeOutOfBounds   // a simple-index entry names packets the file does not have
    | ZeroPacketSize           // an offset cannot become a packet number without a packet size
    | PacketIndexOutOfBounds   // an index offset lies outside the decoded packets

  /** One seek point: where playback can start, and the packets found there. */
  datatype IndexEntry = IndexEntry(
    seekPointId: nat, packetNumber: u32, packetCount: u16, time: u32, packets: seq<DecodedPacket>)

  // ------------------------------------------------------------ Simple Index Object

  /** The entry interval in milliseconds: the stored 100 ns interval cast to 32 bits, then divided. */
  function IntervalMs(interval: nat): (r: u32)
    ensures r <= 0xFFFF_FFFF / 10000
  {
    Wrap32(interval) / 10000
  }

  /**
   * Entry i, stored at `off`: a 32-bit first packet number and a 16-bit packet count. The
   * range must lie within the decoded packets (the number is cast to a signed int first);
   * its time is i intervals, cast to 32 bits.
   */
  function SimpleEntry(b: seq<u8>, off: nat, i: nat, interval: u32, packets: seq<DecodedPacket>)
    : (r: Result<IndexEntry, IndexError>)
    ensures r.Ok? <==> off + 6 <= |b| && 0 <= ToInt32(U32At(b, off))
                       && U32At(b, off) + U16At(b, off + 4) <= |packets|
    ensures r.Ok? ==> var e := r.value;
      && e.seekPointId == i && e.time == Wrap32(i * interval)
      && e.packetNumber == U32At(b, off) && e.packetCount == U16At(b, off + 4)
      && e.packets == packets[e.packetNumber..e.packetNumber + e.packetCount]
  {
    if off + 6 > |b| then Err(Truncated)
    else
      var number := U32At(b, off);
      var count := U16At(b, off + 4);
      if ToInt32(number) < 0 || number + count > |packets| then Err(PacketRangeOutOfBounds)
      else Ok(IndexEntry(i, number, count, Wrap32(i * interval), packets[number..number + count]))
  }

  /** The first n entries, stored six bytes apart from `start`; the first failing entry stops the read. */
  function SimpleEntries(b: seq<u8>, start: nat, interval: u32, packets: seq<DecodedPacket>, n: nat)
    : (r: Result<seq<IndexEntry>, IndexError>)
    decreases n
  {
    if n == 0 then Ok([])
    else
      var front :- SimpleEntries(b, start, interval, packets, n - 1);
      var e :- SimpleEntry(b, start + 6 * (n - 1), n - 1, interval, packets);
      Ok(front + [e])
  }

  /**
   * A successful read has one entry per stored entry: entry k is numbered k, is read from
   * `start + 6k`, starts k intervals in, and holds exactly its packet range.
   */
  lemma {:induction false} SimpleEntriesShape(b: seq<u8>, start: nat, interval: u32, packets: seq<DecodedPacket>, n: nat)
    requires SimpleEntries(b, start, interval, packets, n).Ok?
    ensures var es := SimpleEntries(b, start, interval, packets, n).value;
      && |es| == n
      && forall k :: 0 <= k < n ==> SimpleEntry(b, start + 6 * k, k, interval, packets) == Ok(es[k])
    decreases n
  {
    if n > 0 {
      SimpleEntriesShape(b, start, interval, packets, n - 1);
      var front := SimpleEntries(b, start, interval, packets, n - 1).value;
      var e := SimpleEntry(b, start + 6 * (n - 1), n - 1, interval, packets);
      var es := SimpleEntries(b, start, interval, packets, n).value;
      assert es == front + [e.value];
      forall k | 0 <= k < n
        ensures SimpleEntry(b, start + 6 * k, k, interval, packets) == Ok(es[k])
      {
        if k < n - 1 {
          assert es[k] == front[k];
        }
      }
    }
  }

  /** Once entry i fails, every longer read fails with its error. */
  lemma {:induction false} SimpleEntriesStop(b: seq<u8>, start: nat, interval: u32, packets: seq<DecodedPacket>, i: nat, n: nat)
    requires i < n
    requires SimpleEntries(b, start, interval, packets, i).Ok?
    requires SimpleEntry(b, start + 6 * i, i, interval, packets).Err?
    ensures SimpleEntries(b, start, interval, packets, n) == Err(SimpleEntry(b, start + 6 * i, i, interval, packets).error)
    decreases n
  {
    if n - 1 > i {
      SimpleEntriesStop(b, start, interval, packets, i, n - 1);
    }
  }

  /** The constructor's entry loop: entries are read one after another and collected in order. */
  method ReadSimpleEntries(b: seq<u8>, start: nat, interval: u32, packets: seq<DecodedPacket>, count: nat)
    returns (r: Result<seq<IndexEntry>, IndexError>)
    ensures r == SimpleEntries(b, start, interval, packets, count)
  {
    var entries: seq<IndexEntry> := [];
    var i := 0;
    while i < count
      invariant 0 <= i <= count
      invariant SimpleEntries(b, start, interval, packets, i) == Ok(entries)
    {
      var e := SimpleEntry(b, start + 6 * i, i, interval, packets);
      if e.Err? {
        SimpleEntriesStop(b, start, interval, packets, i, count);
        return Err(e.error);
      }
      entries := entries + [e.value];
      i := i + 1;
    }
    return Ok(entries);
  }

  /** The decoded Simple Index Object. */
  datatype SimpleIndex = SimpleIndex(
    fields: seq<FieldValue>, indexSize: u32, intervalMs: u32, entryCount: nat, entries: seq<IndexEntry>)

  /**
   * The Simple Index constructor: the struct at `pos`, then its entries from `pos + 56`.
   * The index size is the object size cast to 32 bits; it fails as the first failing entry does.
   */
  function ParseSimpleIndex(b: seq<u8>, pos: nat, packets: seq<DecodedPacket>): (r: Result<SimpleIndex, IndexError>)
  {
    var fields := ReadStruct(SIMPLE_INDEX_OBJECT, b, pos);
    var interval := IntervalMs(NumField(fields, SI_INTERVAL));
    var entries :- SimpleEntries(b, pos + 56, interval, packets, NumField(fields, SI_ENTRY_COUNT));
    Ok(SimpleIndex(fields, Wrap32(NumField(fields, OBJECT_SIZE)), interval, NumField(fields, SI_ENTRY_COUNT), entries))
  }

  /** The constructor as it runs: the struct, then the entry loop. */
  method ReadSimpleIndex(b: seq<u8>, pos: nat, packets: seq<DecodedPacket>) returns (r: Result<SimpleIndex, IndexError>)
    ensures r == ParseSimpleIndex(b, pos, packets)
  {
    var fields := ReadStruct(SIMPLE_INDEX_OBJECT, b, pos);
    var interval := IntervalMs(NumField(fields, SI_INTERVAL));
    var count := NumField(fields, SI_ENTRY_COUNT);
    var entries := ReadSimpleEntries(b, pos + 56, interval, packets, count);
    if entries.Err? {
      return Err(entries.error);
    }
    return Ok(SimpleIndex(fields, Wrap32(NumField(fields, OBJECT_SIZE)), interval, count, entries.value));
  }

  // ------------------------------------------------------------ Index Object

  /** Which stream an index covers. */
  datatype Specifier = Specifier(streamNumber: u16, indexType: u16)

  /** One index block: a base offset per specifier, then one row per entry with an offset per specifier. */
  datatype IndexBlock = IndexBlock(blockOffsets: seq<u64>, rows: seq<seq<u32>>)

  /** The n specifiers stored four bytes apart from `off`. */
  function ReadSpecifiers(b: seq<u8>, off: nat, n: nat): (r: Result<seq<Specifier>, IndexError>)
    ensures r.Ok? <==> off + 4 * n <= |b|
    ensures r.Ok? ==> |r.value| == n
  {
    if off + 4 * n > |b| then Err(Truncated)
    else Ok(seq(n, k requires 0 <= k < n => Specifier(U16At(b, off + 4 * k), U16At(b, off + 4 * k + 2))))
  }

  /** A block for `specs` specifiers: one base offset each, and rows of one offset each. */
  predicate Shaped(block: IndexBlock, specs: nat)
  {
    |block.blockOffsets| == specs && forall j :: 0 <= j < |block.rows| ==> |block.rows[j]| == specs
  }

  /** The bytes a block takes: the entry count, the base offsets, and the rows. */
  function BlockSize(specs: nat, entries: nat): nat
  {
    4 + 8 * specs + 4 * entries * specs
  }

  /** The block stored at `off` for `specs` specifiers. */
  function ReadBlock(b: seq<u8>, off: nat, specs: nat): (r: Result<IndexBlock, IndexError>)
    ensures r.Ok? ==> Shaped(r.value, specs)
    ensures r.Ok? <==> off + 4 <= |b| && off + BlockSize(specs, U32At(b, off)) <= |b|
    ensures r.Ok? ==> |r.value.rows| == U32At(b, off)
  {
    if off + 4 > |b| then Err(Truncated)
    else
      var entries := U32At(b, off);
      if off + BlockSize(specs, entries) > |b| then Err(Truncated)
      else
        var rowsAt := off + 4 + 8 * specs;
        Ok(IndexBlock(
          seq(specs, k requires 0 <= k < specs => U64At(b, off + 4 + 8 * k)),
          seq(entries, j requires 0 <= j < entries => BlockRow(b, rowsAt, specs, entries, j))))
  }

  /** Row j of a block whose rows start at `rowsAt`: one 32-bit offset per specifier. */
  function BlockRow(b: seq<u8>, rowsAt: nat, specs: nat, entries: nat, j: nat): (r: seq<u32>)
    requires rowsAt + 4 * entries * specs <= |b| && j < entries
    ensures |r| == specs
  {
    RowFits(j, entries, specs);
    var at := rowsAt + 4 * specs * j;
    seq(specs, k requires 0 <= k < specs => U32At(b, at + 4 * k))
  }

  /** Row j ends within the rows of the block. */
  lemma RowFits(j: nat, entries: nat, specs: nat)
    requires j < entries
    ensures 4 * specs * j + 4 * specs <= 4 * entries * specs
  {
    calc {
      4 * specs * j + 4 * specs;
    ==
      4 * specs * (j + 1);
    <= { assert j + 1 <= entries; }
      4 * specs * entries;
    }
  }

  /** The n blocks stored one after another from `off`, and where the last one ends. */
  function ReadBlocks(b: seq<u8>, off: nat, specs: nat, n: nat): (r: Result<(seq<IndexBlock>, nat), IndexError>)
    ensures r.Ok? ==> |r.value.0| == n && r.value.1 >= off
    ensures r.Ok? ==> forall i :: 0 <= i < n ==> Shaped(r.value.0[i], specs)
    decreases n
  {
    if n == 0 then Ok(([], off))
    else
      var first :- ReadBlock(b, off, specs);
      var rest :- ReadBlocks(b, off + BlockSize(specs, |first.rows|), specs, n - 1);
      Ok(([first] + rest.0, rest.1))
  }

  /** A stored offset of all ones means "no entry" and counts as 0. */
  function Normalize(offset: u32): (r: u32)
    ensures offset != U32_MAX ==> r == offset
  {
    if offset == U32_MAX then 0 else offset
  }

  /** A block's base offsets by stream number; a later specifier for the same stream wins. */
  function BaseOffsets(specs: seq<Specifier>, offsets: seq<u64>, k: nat): (r: map<u16, u64>)
    requires k <= |specs| && k <= |offsets|
    ensures forall i :: 0 <= i < k ==> specs[i].streamNumber in r
    decreases k
  {
    if k == 0 then map[]
    else BaseOffsets(specs, offsets, k - 1)[specs[k - 1].streamNumber := offsets[k - 1]]
  }

  /** Every specifier's stream is a key. */
  predicate Covers(m: map<u16, seq<u64>>, specs: seq<Specifier>)
  {
    forall i :: 0 <= i < |specs| ==> specs[i].streamNumber in m
  }

  /** As the constructor is written: each block starts every specifier's list afresh. */
  function ResetLists(m: map<u16, seq<u64>>, specs: seq<Specifier>, k: nat): (r: map<u16, seq<u64>>)
    requires k <= |specs|
    ensures forall i :: 0 <= i < k ==> specs[i].streamNumber in r && r[specs[i].streamNumber] == []
    ensures forall sn :: sn in m ==> sn in r
    ensures forall sn :: sn in r && sn in m && r[sn] != [] ==> r[sn] == m[sn]
    decreases k
  {
    if k == 0 then m else ResetLists(m, specs, k - 1)[specs[k - 1].streamNumber := []]
  }

  /** What a block evidently should do: start a stream's list only the first time it is seen. */
  function OpenLists(m: map<u16, seq<u64>>, specs: seq<Specifier>, k: nat): (r: map<u16, seq<u64>>)
    requires k <= |specs|
    ensures forall i :: 0 <= i < k ==> specs[i].streamNumber in r
    ensures forall sn :: sn in m ==> sn in r && r[sn] == m[sn]
    ensures forall sn :: sn in r && sn !in m ==> r[sn] == []
    decreases k
  {
    if k == 0 then m
    else
      var r := OpenLists(m, specs, k - 1);
      var sn := specs[k - 1].streamNumber;
      if sn in r then r else r[sn := []]
  }

  /** The offset an entry adds: its normalized offset plus the block's base for the stream. */
  function EntryOffset(base: map<u16, u64>, sn: u16, offset: u32): u64
    requires sn in base
  {
    Wrap64(Normalize(offset) + base[sn])
  }

  /** The first k offsets of one row appended, each to its specifier's list. */
  function AddRow(m: map<u16, seq<u64>>, specs: seq<Specifier>, base: map<u16, u64>, row: seq<u32>, k: nat)
    : (r: map<u16, seq<u64>>)
    requires k <= |specs| && k <= |row|
    requires Covers(m, specs) && forall i :: 0 <= i < |specs| ==> specs[i].streamNumber in base
    ensures forall sn :: sn in r <==> sn in m
    decreases k
  {
    if k == 0 then m
    else
      var r := AddRow(m, specs, base, row, k - 1);
      var sn := specs[k - 1].streamNumber;
      r[sn := r[sn] + [EntryOffset(base, sn, row[k - 1])]]
  }

  /** The first j rows of a block appended. */
  function AddRows(m: map<u16, seq<u64>>, specs: seq<Specifier>, base: map<u16, u64>, rows: seq<seq<u32>>, j: nat)
    : (r: map<u16, seq<u64>>)
    requires j <= |rows| && forall i :: 0 <= i < |rows| ==> |rows[i]| == |specs|
    requires Covers(m, specs) && forall i :: 0 <= i < |specs| ==> specs[i].streamNumber in base
    ensures forall sn :: sn in r <==> sn in m
    decreases j
  {
    if j == 0 then m
    else AddRow(AddRows(m, specs, base, rows, j - 1), specs, base, rows[j - 1], |specs|)
  }

  /** A block fits its specifiers: one base offset each, and full rows. */
  predicate BlockFits(specs: seq<Specifier>, block: IndexBlock)
  {
    Shaped(block, |specs|)
  }

  /** The base offsets of a block, by stream number. */
  function BlockBase(specs: seq<Specifier>, block: IndexBlock): (r: map<u16, u64>)
    requires BlockFits(specs, block)
    ensures forall i :: 0 <= i < |specs| ==> specs[i].streamNumber in r
  {
    BaseOffsets(specs, block.blockOffsets, |specs|)
  }

  /** The stream offsets after the first n blocks, as the constructor is written. */
  function OffsetsAsWritten(specs: seq<Specifier>, blocks: seq<IndexBlock>, n: nat): (r: map<u16, seq<u64>>)
    requires n <= |blocks| && forall i :: 0 <= i < |blocks| ==> BlockFits(specs, blocks[i])
    ensures n > 0 ==> Covers(r, specs)
    decreases n
  {
    if n == 0 then map[]
    else
      var block := blocks[n - 1];
      var started := ResetLists(OffsetsAsWritten(specs, blocks, n - 1), specs, |specs|);
      AddRows(started, specs, BlockBase(specs, block), block.rows, |block.rows|)
  }

  /** The stream offsets after the first n blocks, every block's entries kept. */
  function Offsets(specs: seq<Specifier>, blocks: seq<IndexBlock>, n: nat): (r: map<u16, seq<u64>>)
    requires n <= |blocks| && forall i :: 0 <= i < |blocks| ==> BlockFits(specs, blocks[i])
    ensures n > 0 ==> Covers(r, specs)
    decreases n
  {
    if n == 0 then map[]
    else
      var block := blocks[n - 1];
      var started := OpenLists(Offsets(specs, blocks, n - 1), specs, |specs|);
      AddRows(started, specs, BlockBase(specs, block), block.rows, |block.rows|)
  }

  // The offsets one stream's list holds, stated without the map: each function extends the
  // list `acc` it is given, in the order the constructor appends.

  /** `acc` extended by the offsets the first k entries of a row add to stream sn. */
  function RowPart(acc: seq<u64>, specs: seq<Specifier>, base: map<u16, u64>, row: seq<u32>, sn: u16, k: nat): seq<u64>
    requires k <= |specs| && k <= |row| && sn in base
    decreases k
  {
    if k == 0 then acc
    else
      var before := RowPart(acc, specs, base, row, sn, k - 1);
      if specs[k - 1].streamNumber == sn then before + [EntryOffset(base, sn, row[k - 1])] else before
  }

  /** `acc` extended by the offsets the first j rows of a block add to stream sn. */
  function RowsPart(acc: seq<u64>, specs: seq<Specifier>, base: map<u16, u64>, rows: seq<seq<u32>>, sn: u16, j: nat)
    : seq<u64>
    requires j <= |rows| && forall i :: 0 <= i < |rows| ==> |rows[i]| == |specs|
    requires sn in base
    decreases j
  {
    if j == 0 then acc
    else RowPart(RowsPart(acc, specs, base, rows, sn, j - 1), specs, base, rows[j - 1], sn, |specs|)
  }

  /** A stream that some specifier names. */
  predicate Indexed(specs: seq<Specifier>, sn: u16)
  {
    exists i :: 0 <= i < |specs| && specs[i].streamNumber == sn
  }

  /** `acc` extended by the offsets a whole block adds to stream sn. */
  function BlockPart(acc: seq<u64>, specs: seq<Specifier>, block: IndexBlock, sn: u16): seq<u64>
    requires BlockFits(specs, block) && Indexed(specs, sn)
  {
    RowsPart(acc, specs, BlockBase(specs, block), block.rows, sn, |block.rows|)
  }

  /** The offsets the first n blocks add to stream sn, block after block. */
  function AllParts(specs: seq<Specifier>, blocks: seq<IndexBlock>, sn: u16, n: nat): seq<u64>
    requires n <= |blocks| && forall i :: 0 <= i < |blocks| ==> BlockFits(specs, blocks[i])
    requires Indexed(specs, sn)
    decreases n
  {
    if n == 0 then [] else BlockPart(AllParts(specs, blocks, sn, n - 1), specs, blocks[n - 1], sn)
  }

  /** Appending a row to the map appends its part to each stream's list. */
  lemma {:induction false} AddRowAt(m: map<u16, seq<u64>>, specs: seq<Specifier>, base: map<u16, u64>, row: seq<u32>, k: nat, sn: u16)
    requires k <= |specs| && k <= |row|
    requires Covers(m, specs) && forall i :: 0 <= i < |specs| ==> specs[i].streamNumber in base
    requires sn in m && sn in base
    ensures AddRow(m, specs, base, row, k)[sn] == RowPart(m[sn], specs, base, row, sn, k)
    decreases k
  {
    if k > 0 {
      AddRowAt(m, specs, base, row, k - 1, sn);
    }
  }

  /** Appending rows to the map appends their parts to each stream's list. */
  lemma {:induction false} AddRowsAt(m: map<u16, seq<u64>>, specs: seq<Specifier>, base: map<u16, u64>, rows: seq<seq<u32>>, j: nat, sn: u16)
    requires j <= |rows| && forall i :: 0 <= i < |rows| ==> |rows[i]| == |specs|
    requires Covers(m, specs) && forall i :: 0 <= i < |specs| ==> specs[i].streamNumber in base
    requires sn in m && sn in base
    ensures AddRows(m, specs, base, rows, j)[sn] == RowsPart(m[sn], specs, base, rows, sn, j)
    decreases j
  {
    if j > 0 {
      AddRowsAt(m, specs, base, rows, j - 1, sn);
      AddRowAt(AddRows(m, specs, base, rows, j - 1), specs, base, rows[j - 1], |specs|, sn);
    }
  }

  /** Kept blocks: a stream's offsets are those of every block, in block order. */
  lemma {:induction false} OffsetsAccumulate(specs: seq<Specifier>, blocks: seq<IndexBlock>, n: nat, sn: u16)
    requires n <= |blocks| && forall i :: 0 <= i < |blocks| ==> BlockFits(specs, blocks[i])
    requires Indexed(specs, sn)
    ensures n > 0 ==> Offsets(specs, blocks, n)[sn] == AllParts(specs, blocks, sn, n)
    decreases n
  {
    if n > 0 {
      var block := blocks[n - 1];
      var before := Offsets(specs, blocks, n - 1);
      var started := OpenLists(before, specs, |specs|);
      if n - 1 == 0 {
        assert sn !in before;
      } else {
        OffsetsAccumulate(specs, blocks, n - 1, sn);
        var i :| 0 <= i < |specs| && specs[i].streamNumber == sn;
        assert sn in before;
      }
      assert started[sn] == AllParts(specs, blocks, sn, n - 1);
      AddRowsAt(started, specs, BlockBase(specs, block), block.rows, |block.rows|, sn);
    }
  }

  /** As written: a stream's offsets are those of the last block only. */
  lemma OffsetsAsWrittenLastBlock(specs: seq<Specifier>, blocks: seq<IndexBlock>, n: nat, sn: u16)
    requires n <= |blocks| && forall i :: 0 <= i < |blocks| ==> BlockFits(specs, blocks[i])
    requires Indexed(specs, sn)
    ensures n > 0 ==> OffsetsAsWritten(specs, blocks, n)[sn] == BlockPart([], specs, blocks[n - 1], sn)
  {
    if n > 0 {
      var block := blocks[n - 1];
      var started := ResetLists(OffsetsAsWritten(specs, blocks, n - 1), specs, |specs|);
      AddRowsAt(started, specs, BlockBase(specs, block), block.rows, |block.rows|, sn);
    }
  }

  /** Extending a list by a row's part is appending what the row adds to an empty list. */
  lemma {:induction false} RowPartAppends(acc: seq<u64>, specs: seq<Specifier>, base: map<u16, u64>, row: seq<u32>, sn: u16, k: nat)
    requires k <= |specs| && k <= |row| && sn in base
    ensures RowPart(acc, specs, base, row, sn, k) == acc + RowPart([], specs, base, row, sn, k)
    decreases k
  {
    if k > 0 {
      RowPartAppends(acc, specs, base, row, sn, k - 1);
      var tail := RowPart([], specs, base, row, sn, k - 1);
      assert (acc + tail) + [EntryOffset(base, sn, row[k - 1])] == acc + (tail + [EntryOffset(base, sn, row[k - 1])]);
    }
  }

  /** Extending a list by the parts of some rows is appending what they add to an empty list. */
  lemma {:induction false} RowsPartAppends(acc: seq<u64>, specs: seq<Specifier>, base: map<u16, u64>, rows: seq<seq<u32>>, sn: u16, j: nat)
    requires j <= |rows| && forall i :: 0 <= i < |rows| ==> |rows[i]| == |specs|
    requires sn in base
    ensures RowsPart(acc, specs, base, rows, sn, j) == acc + RowsPart([], specs, base, rows, sn, j)
    decreases j
  {
    if j > 0 {
      RowsPartAppends(acc, specs, base, rows, sn, j - 1);
      var front := RowsPart([], specs, base, rows, sn, j - 1);
      RowPartAppends(acc + front, specs, base, rows[j - 1], sn, |specs|);
      RowPartAppends(front, specs, base, rows[j - 1], sn, |specs|);
      var last := RowPart([], specs, base, rows[j - 1], sn, |specs|);
      assert (acc + front) + last == acc + (front + last);
    }
  }

  /** Kept blocks, restated: the first n blocks' offsets are the first n - 1 blocks' followed by the last one's. */
  lemma AllPartsConcatenate(specs: seq<Specifier>, blocks: seq<IndexBlock>, sn: u16, n: nat)
    requires 0 < n <= |blocks| && forall i :: 0 <= i < |blocks| ==> BlockFits(specs, blocks[i])
    requires Indexed(specs, sn)
    ensures AllParts(specs, blocks, sn, n) == AllParts(specs, blocks, sn, n - 1) + BlockPart([], specs, blocks[n - 1], sn)
  {
    var block := blocks[n - 1];
    RowsPartAppends(AllParts(specs, blocks, sn, n - 1), specs, BlockBase(specs, block), block.rows, sn, |block.rows|);
  }

  /** Two one-entry blocks for one stream: as written, the first block's entry is lost. */
  lemma FirstBlockLost()
    ensures var specs := [Specifier(1, 0)];
      var blocks := [IndexBlock([0], [[7]]), IndexBlock([0], [[9]])];
      && OffsetsAsWritten(specs, blocks, 2)[1] == [9]
      && Offsets(specs, blocks, 2)[1] == [7, 9]
  {
    var specs := [Specifier(1, 0)];
    var blocks := [IndexBlock([0], [[7]]), IndexBlock([0], [[9]])];
    assert specs[0].streamNumber == 1;
    OffsetsAsWrittenLastBlock(specs, blocks, 2, 1);
    OffsetsAccumulate(specs, blocks, 2, 1);
    var base := BlockBase(specs, blocks[1]);
    assert base[1] == 0;
    assert RowPart([], specs, base, [9], 1, 1) == [9];
    var base0 := BlockBase(specs, blocks[0]);
    assert base0[1] == 0;
    assert RowPart([], specs, base0, [7], 1, 1) == [7];
    assert AllParts(specs, blocks, 1, 1) == [7];
    assert RowPart([7], specs, base, [9], 1, 1) == [7, 9];
  }

  // ------------------------------------------------------------ seek points

  /**
   * The seek point for a byte offset into the packet data: the offset divided by the packet
   * size, cast to a signed int, names the packet. A zero packet size and a packet number
   * outside the decoded packets are errors.
   */
  function SeekPoint(offset: u64, id: nat, packetSize: u32, packets: seq<DecodedPacket>): (r: Result<IndexEntry, IndexError>)
    ensures packetSize == 0 ==> r == Err(ZeroPacketSize)
    ensures r.Ok? ==> var e := r.value;
      && e.seekPointId == id && e.packetCount == 1 && e.time == 0
      && e.packetNumber < |packets| && e.packets == [packets[e.packetNumber]]
  {
    if packetSize == 0 then Err(ZeroPacketSize)
    else
      var idx := ToInt32(offset / packetSize);
      if idx < 0 || idx >= |packets| then Err(PacketIndexOutOfBounds)
      else Ok(IndexEntry(id, idx, 1, 0, [packets[idx]]))
  }

  /** A seek point names the packet whose bytes hold its offset. */
  lemma SeekPointHoldsOffset(offset: u64, id: nat, packetSize: u32, packets: seq<DecodedPacket>)
    requires SeekPoint(offset, id, packetSize, packets).Ok?
    ensures packetSize > 0
    ensures var n := SeekPoint(offset, id, packetSize, packets).value.packetNumber;
      && n == (offset / packetSize) % 0x1_0000_0000
      && (offset / packetSize < 0x8000_0000 ==> n * packetSize <= offset < (n + 1) * packetSize)
  {
    var q := offset / packetSize;
    var w := q % 0x1_0000_0000;
    assert ToInt32(q) == if w >= 0x8000_0000 then w - 0x1_0000_0000 else w;
    assert offset == packetSize * q + offset % packetSize;
    assert (q + 1) * packetSize == q * packetSize + packetSize;
  }

  /** The seek points for the first n offsets of a stream, numbered from 0. */
  function SeekPoints(offsets: seq<u64>, packetSize: u32, packets: seq<DecodedPacket>, n: nat)
    : (r: Result<seq<IndexEntry>, IndexError>)
    requires n <= |offsets|
    decreases n
  {
    if n == 0 then Ok([])
    else
      var front :- SeekPoints(offsets, packetSize, packets, n - 1);
      var e :- SeekPoint(offsets[n - 1], n - 1, packetSize, packets);
      Ok(front + [e])
  }

  /** A successful build has one seek point per offset, the k-th built from the k-th offset. */
  lemma {:induction false} SeekPointsShape(offsets: seq<u64>, packetSize: u32, packets: seq<DecodedPacket>, n: nat)
    requires n <= |offsets| && SeekPoints(offsets, packetSize, packets, n).Ok?
    ensures var ps := SeekPoints(offsets, packetSize, packets, n).value;
      && |ps| == n
      && forall k :: 0 <= k < n ==> SeekPoint(offsets[k], k, packetSize, packets) == Ok(ps[k])
    decreases n
  {
    if n > 0 {
      SeekPointsShape(offsets, packetSize, packets, n - 1);
      var front := SeekPoints(offsets, packetSize, packets, n - 1).value;
      var ps := SeekPoints(offsets, packetSize, packets, n).value;
      assert ps == front + [SeekPoint(offsets[n - 1], n - 1, packetSize, packets).value];
      forall k | 0 <= k < n
        ensures SeekPoint(offsets[k], k, packetSize, packets) == Ok(ps[k])
      {
        if k < n - 1 {
          assert ps[k] == front[k];
        }
      }
    }
  }

  /** Once the seek point for offset i fails, every longer build fails with its error. */
  lemma {:induction false} SeekPointsStop(offsets: seq<u64>, packetSize: u32, packets: seq<DecodedPacket>, i: nat, n: nat)
    requires i < n <= |offsets|
    requires SeekPoints(offsets, packetSize, packets, i).Ok?
    requires SeekPoint(offsets[i], i, packetSize, packets).Err?
    ensures SeekPoints(offsets, packetSize, packets, n) == Err(SeekPoint(offsets[i], i, packetSize, packets).error)
    decreases n
  {
    if n - 1 > i {
      SeekPointsStop(offsets, packetSize, packets, i, n - 1);
    }
  }

  /** The constructor's seek-point loop for one stream. */
  method BuildSeekPoints(offsets: seq<u64>, packetSize: u32, packets: seq<DecodedPacket>)
    returns (r: Result<seq<IndexEntry>, IndexError>)
    ensures r == SeekPoints(offsets, packetSize, packets, |offsets|)
  {
    var points: seq<IndexEntry> := [];
    var i := 0;
    while i < |offsets|
      invariant 0 <= i <= |offsets|
      invariant SeekPoints(offsets, packetSize, packets, i) == Ok(points)
    {
      var e := SeekPoint(offsets[i], i, packetSize, packets);
      if e.Err? {
        SeekPointsStop(offsets, packetSize, packets, i, |offsets|);
        return Err(e.error);
      }
      points := points + [e.value];
      i := i + 1;
    }
    return Ok(points);
  }

  /** The seek points of one indexed stream. */
  datatype StreamIndex = StreamIndex(streamNumber: u16, seekPoints: seq<IndexEntry>)

  /**
   * The stream numbers of the first k specifiers, each once, in the order they first
   * appear: the order in which the offset map gained its keys.
   */
  function StreamOrder(specs: seq<Specifier>, k: nat): (r: seq<u16>)
    requires k <= |specs|
    ensures forall sn :: sn in r <==> exists i :: 0 <= i < k && specs[i].streamNumber == sn
    ensures forall i, j :: 0 <= i < j < |r| ==> r[i] != r[j]
    decreases k
  {
    if k == 0 then []
    else
      var r := StreamOrder(specs, k - 1);
      var sn := specs[k - 1].streamNumber;
      if sn in r then r else r + [sn]
  }

  /** The stream indexes for the given streams, in order, built from their offset lists. */
  function StreamIndexes(order: seq<u16>, offsets: map<u16, seq<u64>>, packetSize: u32, packets: seq<DecodedPacket>)
    : (r: Result<seq<StreamIndex>, IndexError>)
    requires forall i :: 0 <= i < |order| ==> order[i] in offsets
    ensures r.Ok? ==> |r.value| == |order|
    ensures r.Ok? ==> forall i :: 0 <= i < |order| ==>
      && r.value[i].streamNumber == order[i]
      && SeekPoints(offsets[order[i]], packetSize, packets, |offsets[order[i]]|) == Ok(r.value[i].seekPoints)
    decreases |order|
  {
    if |order| == 0 then Ok([])
    else
      var last := order[|order| - 1];
      var front :- StreamIndexes(order[..|order| - 1], offsets, packetSize, packets);
      var points :- SeekPoints(offsets[last], packetSize, packets, |offsets[last]|);
      Ok(front + [StreamIndex(last, points)])
  }

  /** Every stream in the key order has an offset list once a block has been read. */
  lemma OrderKeyed(specs: seq<Specifier>, blocks: seq<IndexBlock>, order: seq<u16>, offsets: map<u16, seq<u64>>)
    requires |blocks| > 0 && forall i :: 0 <= i < |blocks| ==> BlockFits(specs, blocks[i])
    requires order == StreamOrder(specs, |specs|) && offsets == Offsets(specs, blocks, |blocks|)
    ensures forall i :: 0 <= i < |order| ==> order[i] in offsets
  {
  }

  /** The stream indexes of an Index Object: one per indexed stream, in key order; none without blocks. */
  function IndexedStreams(specs: seq<Specifier>, blocks: seq<IndexBlock>, packetSize: u32, packets: seq<DecodedPacket>)
    : (r: Result<seq<StreamIndex>, IndexError>)
    requires forall i :: 0 <= i < |blocks| ==> BlockFits(specs, blocks[i])
    ensures |blocks| == 0 ==> r == Ok([])
    ensures |blocks| > 0 ==> var order := StreamOrder(specs, |specs|);
      && (forall i :: 0 <= i < |order| ==> order[i] in Offsets(specs, blocks, |blocks|))
      && r == StreamIndexes(order, Offsets(specs, blocks, |blocks|), packetSize, packets)
  {
    if |blocks| == 0 then Ok([])
    else
      var order := StreamOrder(specs, |specs|);
      var offsets := Offsets(specs, blocks, |blocks|);
      OrderKeyed(specs, blocks, order, offsets);
      StreamIndexes(order, offsets, packetSize, packets)
  }

  /** The decoded Index Object. */
  datatype Index = Index(
    fields: seq<FieldValue>, indexSize: u32, specifiers: seq<Specifier>, blocks: seq<IndexBlock>,
    streams: seq<StreamIndex>, end: nat)

  /**
   * The Index constructor: the struct at `pos`, the specifiers after it, then the blocks,
   * then one stream index per indexed stream. The stream offsets are those of every block
   * (see `Offsets`); with no blocks there are no streams.
   */
  function ParseIndex(b: seq<u8>, pos: nat, packetSize: u32, packets: seq<DecodedPacket>): (r: Result<Index, IndexError>)
    ensures r.Ok? ==> var ix := r.value;
      && ix.fields == ReadStruct(INDEX_OBJECT, b, pos)
      && ix.indexSize == Wrap32(NumField(ix.fields, OBJECT_SIZE))
      && |ix.specifiers| == NumField(ix.fields, IX_SPECIFIERS_COUNT) && |ix.blocks| == NumField(ix.fields, IX_BLOCKS_COUNT)
      && (forall i :: 0 <= i < |ix.blocks| ==> BlockFits(ix.specifiers, ix.blocks[i]))
      && ix.end >= pos + 34 + 4 * |ix.specifiers|
      && IndexedStreams(ix.specifiers, ix.blocks, packetSize, packets) == Ok(ix.streams)
  {
    var fields := ReadStruct(INDEX_OBJECT, b, pos);
    var specsAt := pos + 34;
    var specs :- ReadSpecifiers(b, specsAt, NumField(fields, IX_SPECIFIERS_COUNT));
    var read :- ReadBlocks(b, specsAt + 4 * |specs|, |specs|, NumField(fields, IX_BLOCKS_COUNT));
    var blocks := read.0;
    var streams :- IndexedStreams(specs, blocks, packetSize, packets);
    Ok(Index(fields, Wrap32(NumField(fields, OBJECT_SIZE)), specs, blocks, streams, read.1))
  }

  /**
   * Each stream index belongs to an indexed stream, every indexed stream has one once a
   * block was read, and its seek points are built from the offsets of every block, in order.
   */
  lemma IndexStreams(specs: seq<Specifier>, blocks: seq<IndexBlock>, packetSize: u32, packets: seq<DecodedPacket>)
    requires forall i :: 0 <= i < |blocks| ==> BlockFits(specs, blocks[i])
    requires IndexedStreams(specs, blocks, packetSize, packets).Ok?
    ensures var streams := IndexedStreams(specs, blocks, packetSize, packets).value;
      && (|blocks| == 0 ==> streams == [])
      && (forall i :: 0 <= i < |streams| ==> Indexed(specs, streams[i].streamNumber))
      && (|blocks| > 0 ==> forall k :: 0 <= k < |specs| ==>
            exists i :: 0 <= i < |streams| && streams[i].streamNumber == specs[k].streamNumber)
      && (forall i :: 0 <= i < |streams| ==>
            var sn := streams[i].streamNumber;
            var offsets := AllParts(specs, blocks, sn, |blocks|);
            SeekPoints(offsets, packetSize, packets, |offsets|) == Ok(streams[i].seekPoints))
  {
    var streams := IndexedStreams(specs, blocks, packetSize, packets).value;
    if |blocks| > 0 {
      var order := StreamOrder(specs, |specs|);
      assert |streams| == |order|;
      forall i | 0 <= i < |streams|
        ensures Indexed(specs, streams[i].streamNumber)
        ensures var sn := streams[i].streamNumber;
          var offsets := AllParts(specs, blocks, sn, |blocks|);
          SeekPoints(offsets, packetSize, packets, |offsets|) == Ok(streams[i].seekPoints)
      {
        assert streams[i].streamNumber == order[i];
        assert order[i] in order;
        OffsetsAccumulate(specs, blocks, |blocks|, order[i]);
      }
      forall k | 0 <= k < |specs|
        ensures exists i :: 0 <= i < |streams| && streams[i].streamNumber == specs[k].streamNumber
      {
        var sn := specs[k].streamNumber;
        assert sn in order;
        var i :| 0 <= i < |order| && order[i] == sn;
        assert streams[i].streamNumber == sn;
      }
    }
  }
}

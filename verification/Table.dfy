/**
 Table files: entries, blocks and their geometry (table/block_builder.cc,
 table/table_builder.cc, table/block.h, table/table.cc).
 */
module Table {
  import opened Format
  import opened Coding
  import opened Log

  /** An entry as it is stored. */
  datatype Raw = Raw(key: Bytes, value: Bytes)

  ghost predicate Storable(e: Raw) {
    |e.key| + |e.value| < TWO_32
  }

  // ---------------------------------------------------------------- one entry

  /** No prefix is shared with the previous key. */
  ghost function EncodeEntry(e: Raw): Bytes {
    Varint(0) + (Varint(|e.key|) + (Varint(|e.value|) + (e.key + e.value)))
  }

  /** The lengths at the start of an entry, and what follows them. */
  datatype Header = Header(shared: nat, nonShared: nat, valueLength: nat, rest: Bytes)

  ghost function ParseLengths(input: Bytes): Option<Header> {
    var shared := Parse32(input);
    if shared.None? then None else
    var nonShared := Parse32(shared.value.1);
    if nonShared.None? then None else
    var valueLength := Parse32(nonShared.value.1);
    if valueLength.None? then None
    else Some(Header(shared.value.0, nonShared.value.0, valueLength.value.0, valueLength.value.1))
  }

  ghost function ParseEntry(input: Bytes): Option<Header> {
    var h := ParseLengths(input);
    if |input| < 3 || h.None? || |h.value.rest| < (h.value.nonShared + h.value.valueLength) % TWO_32 then None else h
  }

  /** DecodeEntry, with its fast path for three one-byte lengths. */
  method DecodeEntry(input: Bytes) returns (r: Option<Header>)
    ensures r == ParseEntry(input)
  {
    hide ParseVarint;
    if |input| < 3 {
      return None;
    }
    var h: Header;
    if input[0] < 128 && input[1] < 128 && input[2] < 128 {
      ShortLengths(input);
      h := Header(input[0], input[1], input[2], input[3..]);
    } else {
      var shared := GetVarint(input, 5, TWO_32);
      if shared.None? {
        return None;
      }
      var nonShared := GetVarint(shared.value.1, 5, TWO_32);
      if nonShared.None? {
        return None;
      }
      var valueLength := GetVarint(nonShared.value.1, 5, TWO_32);
      if valueLength.None? {
        return None;
      }
      h := Header(shared.value.0, nonShared.value.0, valueLength.value.0, valueLength.value.1);
    }
    if |h.rest| < (h.nonShared + h.valueLength) % TWO_32 {
      return None;
    }
    r := Some(h);
  }

  lemma OneByte(input: Bytes)
    requires input != [] && input[0] < 128
    ensures Parse32(input) == Some((input[0], input[1..]))
  {
  }

  lemma ShortLengths(input: Bytes)
    requires |input| >= 3 && input[0] < 128 && input[1] < 128 && input[2] < 128
    ensures ParseLengths(input) == Some(Header(input[0], input[1], input[2], input[3..]))
  {
    hide Parse32;
    OneByte(input);
    OneByte(input[1..]);
    OneByte(input[1..][1..]);
    assert input[1..][1..][1..] == input[3..];
  }

  /** An entry decodes to itself, whatever follows it. */
  lemma EntryRoundTrip(e: Raw, tail: Bytes)
    requires Storable(e)
    ensures ParseEntry(EncodeEntry(e) + tail) == Some(Header(0, |e.key|, |e.value|, e.key + e.value + tail))
    ensures (e.key + e.value + tail)[..|e.key|] == e.key
    ensures (e.key + e.value + tail)[|e.key|..|e.key| + |e.value|] == e.value
  {
    hide Parse32, Varint;
    var rest := e.key + e.value + tail;
    assert EncodeEntry(e) + tail == Varint(0) + (Varint(|e.key|) + (Varint(|e.value|) + rest));
    Parse32RoundTrip(|e.value|, rest);
    Parse32RoundTrip(|e.key|, Varint(|e.value|) + rest);
    Parse32RoundTrip(0, Varint(|e.key|) + (Varint(|e.value|) + rest));
    assert |EncodeEntry(e)| >= 3;
  }

  // ---------------------------------------------------------------- blocks

  ghost function Data(entries: seq<Raw>): Bytes {
    if entries == [] then [] else Data(entries[..|entries| - 1]) + EncodeEntry(entries[|entries| - 1])
  }

  /** The offsets of the restart points: every `interval`-th entry. */
  ghost function RestartOffsets(entries: seq<Raw>, interval: nat): (r: seq<nat>)
    requires interval > 0
  {
    if entries == [] then [0]
    else
      var n := |entries| - 1;
      RestartOffsets(entries[..n], interval) + if n > 0 && n % interval == 0 then [|Data(entries[..n])|] else []
  }

  function NumRestarts(n: nat, interval: nat): nat
    requires interval > 0
  {
    if n == 0 then 1 else 1 + (n - 1) / interval
  }

  function EncodeRestarts(restarts: seq<nat>): Bytes {
    if restarts == [] then [] else EncodeRestarts(restarts[..|restarts| - 1]) + Fixed(restarts[|restarts| - 1], 4)
  }

  lemma {:induction false} RestartsLength(restarts: seq<nat>)
    ensures |EncodeRestarts(restarts)| == 4 * |restarts|
  {
    if restarts != [] {
      RestartsLength(restarts[..|restarts| - 1]);
    }
  }

  lemma {:induction false} RestartCount(entries: seq<Raw>, interval: nat)
    requires interval > 0
    ensures |RestartOffsets(entries, interval)| == NumRestarts(|entries|, interval)
  {
    hide Data;
    if entries != [] {
      var n := |entries| - 1;
      RestartCount(entries[..n], interval);
      if n > 0 { DivStep(n, interval); }
    }
  }

  lemma DivStep(n: nat, interval: nat)
    requires n > 0 && interval > 0
    ensures n / interval == (n - 1) / interval + if n % interval == 0 then 1 else 0
    ensures n % interval == if (n - 1) % interval == interval - 1 then 0 else (n - 1) % interval + 1
  {
    var (q, r) := ((n - 1) / interval, (n - 1) % interval);
    if r == interval - 1 {
      assert n == (q + 1) * interval;
      DivMod(n, interval, q + 1, 0);
    } else {
      DivMod(n, interval, q, r + 1);
    }
  }

  lemma DivMod(n: nat, m: nat, q: nat, r: nat)
    requires m > 0 && r < m && n == q * m + r
    ensures n / m == q && n % m == r
  {
    var (q', r') := (n / m, n % m);
    assert q' * m + r' == q * m + r;
    if q' < q {
      assert (q' + 1) * m <= q * m by { MulMonotone(q' + 1, q, m); }
    } else if q < q' {
      assert (q + 1) * m <= q' * m by { MulMonotone(q + 1, q', m); }
    }
  }

  lemma MulMonotone(a: nat, b: nat, m: nat)
    requires a <= b
    ensures a * m <= b * m
  {
    assert b * m == a * m + (b - a) * m;
  }

  class BlockBuilder {
    const interval: nat
    var buffer: Bytes
    var restarts: seq<nat>
    var counter: nat
    ghost var entries: seq<Raw>

    ghost predicate Valid()
      reads this
    {
      && interval > 0
      && buffer == Data(entries)
      && restarts == RestartOffsets(entries, interval)
      && counter == if entries == [] then 0 else (|entries| - 1) % interval + 1
    }

    constructor (interval: nat)
      requires interval > 0
      ensures Valid() && entries == [] && this.interval == interval
    {
      this.interval := interval;
      buffer, restarts, counter, entries := [], [0], 0, [];
    }

    method Reset()
      requires Valid()
      modifies this
      ensures Valid() && entries == []
    {
      buffer, restarts, counter, entries := [], [0], 0, [];
    }

    method CurrentSizeEstimate() returns (n: nat)
      requires Valid()
      ensures n == Estimate(entries, interval)
    {
      hide Data, RestartOffsets;
      RestartCount(entries, interval);
      n := |buffer| + 4 * |restarts| + 4;
    }

    /** BlockBuilder::Add. */
    method Add(e: Raw)
      requires Valid() && Storable(e)
      modifies this
      ensures Valid() && entries == old(entries) + [e]
    {
      hide EncodeEntry, Data, RestartOffsets;
      OneMoreEntry(entries, e, interval);
      if counter >= interval {
        restarts := restarts + [|buffer|];
        counter := 0;
      }
      var encoded := PutEntry(e);
      buffer := buffer + encoded;
      counter := counter + 1;
      entries := entries + [e];
    }

    /** BlockBuilder::Finish. */
    method Finish() returns (block: Bytes)
      requires Valid()
      ensures block == BlockBytes(entries, interval)
    {
      hide Data, RestartOffsets, EncodeRestarts;
      RestartCount(entries, interval);
      var tail := PutRestarts(restarts);
      block := buffer + tail + Fixed(|restarts|, 4);
    }
  }

  lemma OneMoreEntry(entries: seq<Raw>, e: Raw, interval: nat)
    requires interval > 0
    ensures Data(entries + [e]) == Data(entries) + EncodeEntry(e)
    ensures var n := |entries|;
      && RestartOffsets(entries + [e], interval) ==
        RestartOffsets(entries, interval)
        + (if n > 0 && (n - 1) % interval + 1 >= interval then [|Data(entries)|] else [])
      && (n > 0 ==> n % interval + 1 == if (n - 1) % interval + 1 >= interval then 1 else (n - 1) % interval + 2)
  {
    hide EncodeEntry;
    assert (entries + [e])[..|entries|] == entries;
    if |entries| > 0 { DivStep(|entries|, interval); }
  }

  method PutEntry(e: Raw) returns (r: Bytes)
    requires Storable(e)
    ensures r == EncodeEntry(e)
  {
    hide Varint, EncodeVarint32;
    EncodeVarint32IsVarint(0);
    EncodeVarint32IsVarint(|e.key|);
    EncodeVarint32IsVarint(|e.value|);
    r := EncodeVarint32(0) + (EncodeVarint32(|e.key|) + (EncodeVarint32(|e.value|) + (e.key + e.value)));
  }

  method PutRestarts(restarts: seq<nat>) returns (r: Bytes)
    ensures r == EncodeRestarts(restarts)
  {
    hide Fixed;
    r := [];
    for i := 0 to |restarts|
      invariant r == EncodeRestarts(restarts[..i])
    {
      assert restarts[..i + 1][..i] == restarts[..i];
      r := r + Fixed(restarts[i], 4);
    }
    assert restarts[..|restarts|] == restarts;
  }

  ghost function Estimate(entries: seq<Raw>, interval: nat): nat
    requires interval > 0
  {
    |Data(entries)| + 4 * NumRestarts(|entries|, interval) + 4
  }

  ghost function BlockBytes(entries: seq<Raw>, interval: nat): Bytes
    requires interval > 0
  {
    Data(entries) + EncodeRestarts(RestartOffsets(entries, interval)) + Fixed(NumRestarts(|entries|, interval), 4)
  }

  lemma BlockLength(entries: seq<Raw>, interval: nat)
    requires interval > 0
    ensures |BlockBytes(entries, interval)| == Estimate(entries, interval)
  {
    hide Data, RestartOffsets, EncodeRestarts;
    RestartCount(entries, interval);
    RestartsLength(RestartOffsets(entries, interval));
  }

  // ---------------------------------------------------------------- tables

  const TRAILER_SIZE: nat := 5

  /** WriteRawBlock: uncompressed contents, a type byte and a masked checksum. */
  ghost function BlockImage(crc: Checksum, block: Bytes): (r: Bytes)
    ensures |r| == |block| + TRAILER_SIZE
  {
    block + [0] + Fixed(Mask(crc(block + [0])), 4)
  }

  ghost function TableBytes(crc: Checksum, interval: nat, blocks: seq<seq<Raw>>): Bytes
    requires interval > 0
  {
    if blocks == [] then []
    else
      var n := |blocks| - 1;
      TableBytes(crc, interval, blocks[..n]) + BlockImage(crc, BlockBytes(blocks[n], interval))
  }

  ghost function Handle(offset: nat, size: nat): Bytes {
    Varint(offset) + Varint(size)
  }

  ghost function LastKey(b: seq<Raw>): Bytes {
    if b == [] then [] else b[|b| - 1].key
  }

  /** One index entry a block: the last key of the block and where the block is. */
  ghost function IndexEntries(crc: Checksum, interval: nat, blocks: seq<seq<Raw>>): (r: seq<Raw>)
    requires interval > 0
    ensures |r| == |blocks|
  {
    if blocks == [] then []
    else
      var n := |blocks| - 1;
      IndexEntries(crc, interval, blocks[..n])
      + [Raw(LastKey(blocks[n]), Handle(|TableBytes(crc, interval, blocks[..n])|, |BlockBytes(blocks[n], interval)|))]
  }

  /** A block that was cut as soon as it was full. */
  ghost predicate CutWhenFull(b: seq<Raw>, interval: nat, blockSize: nat)
    requires interval > 0
  {
    && b != [] && Estimate(b, interval) >= blockSize
    && forall n :: 0 < n < |b| ==> Estimate(b[..n], interval) < blockSize
  }

  ghost predicate AllCut(blocks: seq<seq<Raw>>, interval: nat, blockSize: nat)
    requires interval > 0
  {
    forall i :: 0 <= i < |blocks| ==> CutWhenFull(blocks[i], interval, blockSize)
  }

  /** A block that is not full yet, and never was. */
  ghost predicate Growing(b: seq<Raw>, interval: nat, blockSize: nat)
    requires interval > 0
  {
    forall n :: 0 < n <= |b| ==> Estimate(b[..n], interval) < blockSize
  }

  lemma GrowsOrIsCut(b: seq<Raw>, e: Raw, interval: nat, blockSize: nat)
    requires interval > 0 && Growing(b, interval, blockSize)
    ensures if Estimate(b + [e], interval) >= blockSize then CutWhenFull(b + [e], interval, blockSize)
            else Growing(b + [e], interval, blockSize)
  {
    hide Estimate;
    var longer := b + [e];
    assert longer[..|longer|] == longer;
    assert forall n :: 0 < n < |longer| ==> longer[..n] == b[..n];
  }

  /** What the builder has written: the blocks, and where the index stands. */
  ghost predicate Written(crc: Checksum, interval: nat, blocks: seq<seq<Raw>>, file: Bytes, index: seq<Raw>,
                          pending: Option<Raw>)
    requires interval > 0
  {
    && file == TableBytes(crc, interval, blocks)
    && IndexEntries(crc, interval, blocks) == index + if pending.Some? then [pending.value] else []
  }

  lemma WrittenIndexed(crc: Checksum, interval: nat, blocks: seq<seq<Raw>>, file: Bytes, index: seq<Raw>, e: Raw)
    requires interval > 0 && Written(crc, interval, blocks, file, index, Some(e))
    ensures Written(crc, interval, blocks, file, index + [e], None)
  {
    hide TableBytes, IndexEntries;
    assert index + [e] + [] == index + [e];
  }

  lemma WrittenOneMore(crc: Checksum, interval: nat, blocks: seq<seq<Raw>>, file: Bytes, index: seq<Raw>, b: seq<Raw>)
    requires interval > 0 && Written(crc, interval, blocks, file, index, None)
    ensures Written(crc, interval, blocks + [b], file + BlockImage(crc, BlockBytes(b, interval)), index,
                    Some(Raw(LastKey(b), Handle(|file|, |BlockBytes(b, interval)|))))
  {
    hide BlockBytes, BlockImage, Handle;
    var longer := blocks + [b];
    assert longer[..|blocks|] == blocks && longer[|blocks|] == b;
    assert index + [] == index;
  }

  class TableBuilder {
    const crc: Checksum
    const interval: nat
    const blockSize: nat
    const dataBlock: BlockBuilder
    const indexBlock: BlockBuilder
    var file: Bytes
    var offset: nat
    var lastKey: Bytes
    var pendingHandle: Option<Bytes>

    /** The data blocks written so far. */
    ghost var blocks: seq<seq<Raw>>

    ghost function Pending(): Option<Raw>
      reads this
    {
      if pendingHandle.None? then None else Some(Raw(lastKey, pendingHandle.value))
    }

    ghost predicate Valid()
      reads this, dataBlock, indexBlock
    {
      && dataBlock != indexBlock && dataBlock.Valid() && indexBlock.Valid()
      && dataBlock.interval == interval && indexBlock.interval == 1
      && offset == |file| && Written(crc, interval, blocks, file, indexBlock.entries, Pending())
      && AllCut(blocks, interval, blockSize) && Growing(dataBlock.entries, interval, blockSize)
      && |lastKey| + 20 < TWO_32 && (pendingHandle.Some? ==> dataBlock.entries == [] && |pendingHandle.value| <= 20)
      && (dataBlock.entries != [] ==> lastKey == LastKey(dataBlock.entries))
    }

    constructor (crc: Checksum, interval: nat, blockSize: nat)
      requires interval > 0
      ensures Valid() && blocks == [] && dataBlock.entries == [] && fresh(dataBlock) && fresh(indexBlock)
      ensures this.crc == crc && this.interval == interval && this.blockSize == blockSize
    {
      this.crc, this.interval, this.blockSize := crc, interval, blockSize;
      dataBlock := new BlockBuilder(interval);
      indexBlock := new BlockBuilder(1);
      file, offset, lastKey, pendingHandle, blocks := [], 0, [], None, [];
    }

    /** The index entry of the block written last, now that a key follows it. */
    method AddIndexEntry()
      requires Valid()
      modifies `pendingHandle, indexBlock
      ensures Valid() && pendingHandle.None?
    {
      hide Written, Growing, AllCut, RestartOffsets, Data;
      if pendingHandle.Some? {
        WrittenIndexed(crc, interval, blocks, file, indexBlock.entries, Raw(lastKey, pendingHandle.value));
        indexBlock.Add(Raw(lastKey, pendingHandle.value));
        pendingHandle := None;
      }
    }

    /** TableBuilder::Add. */
    method Add(e: Raw)
      requires Valid() && |e.key| + |e.value| + 20 < TWO_32
      requires |file| + Estimate(dataBlock.entries + [e], interval) < TWO_64
      modifies this, dataBlock, indexBlock
      ensures Valid()
      ensures var block := old(dataBlock.entries) + [e];
        if Estimate(block, interval) >= blockSize then blocks == old(blocks) + [block] && dataBlock.entries == []
        else blocks == old(blocks) && dataBlock.entries == block
    {
      hide Written, Growing, AllCut, CutWhenFull, Estimate, RestartOffsets, Data;
      AddIndexEntry();
      lastKey := e.key;
      GrowsOrIsCut(dataBlock.entries, e, interval, blockSize);
      dataBlock.Add(e);
      var estimate := dataBlock.CurrentSizeEstimate();
      if estimate >= blockSize {
        AllCutOneMore(blocks, dataBlock.entries, interval, blockSize);
        NothingGrows(interval, blockSize);
        Flush();
      }
    }

    /** TableBuilder::Flush with WriteBlock: an empty block is left alone. */
    method Flush()
      requires dataBlock != indexBlock && dataBlock.Valid() && indexBlock.Valid()
      requires dataBlock.interval == interval && indexBlock.interval == 1
      requires offset == |file| && Written(crc, interval, blocks, file, indexBlock.entries, Pending())
      requires dataBlock.entries != [] ==>
        pendingHandle.None? && lastKey == LastKey(dataBlock.entries)
          && |file| + Estimate(dataBlock.entries, interval) < TWO_64
      modifies `file, `offset, `pendingHandle, `blocks, dataBlock
      ensures dataBlock.Valid() && dataBlock.entries == []
      ensures blocks == old(blocks) + if old(dataBlock.entries) == [] then [] else [old(dataBlock.entries)]
      ensures offset == |file| && Written(crc, interval, blocks, file, indexBlock.entries, Pending())
      ensures if old(dataBlock.entries) == [] then pendingHandle == old(pendingHandle)
              else pendingHandle.Some? && |pendingHandle.value| <= 20
    {
      hide Written, CutWhenFull, Estimate, RestartOffsets, Data, BlockBytes;
      EmptyData(dataBlock.entries);
      if dataBlock.buffer == [] {
        return;
      }
      var raw := dataBlock.Finish();
      BlockLength(dataBlock.entries, interval);
      WrittenOneMore(crc, interval, blocks, file, indexBlock.entries, dataBlock.entries);
      var handle := EncodeHandle(offset, |raw|);
      pendingHandle := Some(handle);
      file := file + (raw + [0] + Fixed(Mask(crc(raw + [0])), 4));
      offset := offset + |raw| + TRAILER_SIZE;
      blocks := blocks + [dataBlock.entries];
      dataBlock.Reset();
    }

    /** TableBuilder::Finish, as far as the data blocks and the index block. */
    method Finish() returns (index: Bytes)
      requires Valid() && |file| + Estimate(dataBlock.entries, interval) < TWO_64
      modifies this, dataBlock, indexBlock
      ensures blocks == old(blocks) + if old(dataBlock.entries) == [] then [] else [old(dataBlock.entries)]
      ensures file == TableBytes(crc, interval, blocks) && index == BlockBytes(IndexEntries(crc, interval, blocks), 1)
      ensures AllCut(old(blocks), interval, blockSize) && Growing(old(dataBlock.entries), interval, blockSize)
    {
      hide Written, Growing, AllCut, CutWhenFull, Estimate, RestartOffsets, Data, BlockBytes, TableBytes, IndexEntries;
      Flush();
      if pendingHandle.Some? {
        WrittenIndexed(crc, interval, blocks, file, indexBlock.entries, Raw(lastKey, pendingHandle.value));
        indexBlock.Add(Raw(lastKey, pendingHandle.value));
        pendingHandle := None;
      }
      index := indexBlock.Finish();
      WrittenAll(crc, interval, blocks, file, indexBlock.entries);
    }
  }

  lemma EmptyData(entries: seq<Raw>)
    ensures Data(entries) == [] <==> entries == []
  {
    if entries != [] {
      assert |EncodeEntry(entries[|entries| - 1])| > 0;
    }
  }

  lemma WrittenAll(crc: Checksum, interval: nat, blocks: seq<seq<Raw>>, file: Bytes, index: seq<Raw>)
    requires interval > 0 && Written(crc, interval, blocks, file, index, None)
    ensures file == TableBytes(crc, interval, blocks) && index == IndexEntries(crc, interval, blocks)
  {
    assert index + [] == index;
  }

  lemma AllCutOneMore(blocks: seq<seq<Raw>>, b: seq<Raw>, interval: nat, blockSize: nat)
    requires interval > 0 && AllCut(blocks, interval, blockSize) && CutWhenFull(b, interval, blockSize)
    ensures AllCut(blocks + [b], interval, blockSize)
  {
    hide CutWhenFull;
  }

  lemma NothingGrows(interval: nat, blockSize: nat)
    requires interval > 0
    ensures Growing([], interval, blockSize)
  {
  }

  method EncodeHandle(offset: nat, size: nat) returns (r: Bytes)
    requires offset < TWO_64 && size < TWO_64
    ensures r == Handle(offset, size) && |r| <= 20
  {
    VarintFits(offset);
    VarintFits(size);
    var o := EncodeVarint64(offset);
    var n := EncodeVarint64(size);
    r := o + n;
  }

  // ---------------------------------------------------------------- geometry

  ghost predicate Uniform(entries: seq<Raw>, entrySize: nat) {
    forall i :: 0 <= i < |entries| ==> |EncodeEntry(entries[i])| == entrySize
  }

  /** The estimate of a block of `n` entries of one size. */
  ghost function EstimateOf(n: nat, entrySize: nat, interval: nat): nat
    requires interval > 0
  {
    n * entrySize + 4 * NumRestarts(n, interval) + 4
  }

  /** How many entries make a block full. */
  ghost predicate Capacity(n: nat, entrySize: nat, interval: nat, blockSize: nat)
    requires interval > 0
  {
    && n > 0 && EstimateOf(n, entrySize, interval) >= blockSize
    && forall m :: 0 < m < n ==> EstimateOf(m, entrySize, interval) < blockSize
  }

  lemma {:induction false} DataLength(entries: seq<Raw>, entrySize: nat)
    requires Uniform(entries, entrySize)
    ensures |Data(entries)| == |entries| * entrySize
  {
    hide EncodeEntry;
    if entries != [] {
      var n := |entries| - 1;
      DataLength(entries[..n], entrySize);
      assert (n + 1) * entrySize == n * entrySize + entrySize;
    }
  }

  /** Every block that was cut when full holds the same number of entries. */
  lemma FullBlocksAreEqual(b: seq<Raw>, entrySize: nat, interval: nat, blockSize: nat, capacity: nat)
    requires interval > 0 && Uniform(b, entrySize) && CutWhenFull(b, interval, blockSize)
    requires Capacity(capacity, entrySize, interval, blockSize)
    ensures |b| == capacity
  {
    hide Data, NumRestarts, EncodeEntry;
    DataLength(b, entrySize);
    assert Estimate(b, interval) == EstimateOf(|b|, entrySize, interval);
    if capacity < |b| {
      DataLength(b[..capacity], entrySize);
    }
  }

  lemma PartialBlockIsSmaller(b: seq<Raw>, entrySize: nat, interval: nat, blockSize: nat, capacity: nat)
    requires interval > 0 && Uniform(b, entrySize) && Growing(b, interval, blockSize)
    requires Capacity(capacity, entrySize, interval, blockSize)
    ensures |b| < capacity
  {
    hide Data, NumRestarts, EncodeEntry;
    if capacity <= |b| {
      DataLength(b[..capacity], entrySize);
    }
  }

  lemma {:induction false} DataAt(entries: seq<Raw>, entrySize: nat, j: nat)
    requires Uniform(entries, entrySize) && j < |entries|
    ensures j * entrySize + entrySize <= |Data(entries)|
    ensures Data(entries)[j * entrySize..j * entrySize + entrySize] == EncodeEntry(entries[j])
  {
    hide EncodeEntry;
    var n := |entries| - 1;
    var init := entries[..n];
    DataLength(init, entrySize);
    if j < n {
      DataAt(init, entrySize, j);
      assert init[j] == entries[j];
      assert Data(entries)[..|Data(init)|] == Data(init);
      assert Data(entries)[j * entrySize..j * entrySize + entrySize]
        == Data(init)[j * entrySize..j * entrySize + entrySize];
    }
  }

  /** All blocks hold `capacity` entries, but for the last, which may hold fewer. */
  ghost predicate Even(blocks: seq<seq<Raw>>, capacity: nat) {
    forall k :: 0 <= k < |blocks| ==> 0 < |blocks[k]| <= capacity && (k + 1 < |blocks| ==> |blocks[k]| == capacity)
  }

  ghost predicate AllUniform(blocks: seq<seq<Raw>>, entrySize: nat) {
    forall k :: 0 <= k < |blocks| ==> Uniform(blocks[k], entrySize)
  }

  /** A finished table of entries of one size is even. */
  lemma FinishedIsEven(blocks: seq<seq<Raw>>, last: seq<Raw>, entrySize: nat, interval: nat, blockSize: nat,
                       capacity: nat)
    requires interval > 0 && AllUniform(blocks, entrySize) && Uniform(last, entrySize)
    requires AllCut(blocks, interval, blockSize) && Growing(last, interval, blockSize)
    requires Capacity(capacity, entrySize, interval, blockSize)
    ensures Even(blocks + if last == [] then [] else [last], capacity)
  {
    hide Capacity, Uniform, Growing, CutWhenFull;
    forall k | 0 <= k < |blocks|
      ensures |blocks[k]| == capacity
    {
      FullBlocksAreEqual(blocks[k], entrySize, interval, blockSize, capacity);
    }
    PartialBlockIsSmaller(last, entrySize, interval, blockSize, capacity);
    assert capacity > 0 by { CapacityPositive(capacity, entrySize, interval, blockSize); }
  }

  lemma CapacityPositive(capacity: nat, entrySize: nat, interval: nat, blockSize: nat)
    requires interval > 0 && Capacity(capacity, entrySize, interval, blockSize)
    ensures capacity > 0
  {
  }

  /** The distance between blocks (FillData: block_size). */
  ghost function Stride(capacity: nat, entrySize: nat, interval: nat): nat
    requires interval > 0
  {
    EstimateOf(capacity, entrySize, interval) + TRAILER_SIZE
  }

  lemma {:induction false} BlockOffset(crc: Checksum, interval: nat, blocks: seq<seq<Raw>>, entrySize: nat,
                                       capacity: nat, k: nat)
    requires interval > 0 && Even(blocks, capacity) && AllUniform(blocks, entrySize) && k < |blocks|
    ensures |TableBytes(crc, interval, blocks[..k])| == k * Stride(capacity, entrySize, interval)
  {
    hide BlockBytes, BlockImage, NumRestarts, EncodeEntry, Data;
    if k > 0 {
      BlockOffset(crc, interval, blocks, entrySize, capacity, k - 1);
      assert blocks[..k][..k - 1] == blocks[..k - 1];
      var b := blocks[k - 1];
      BlockLength(b, interval);
      DataLength(b, entrySize);
      var stride := Stride(capacity, entrySize, interval);
      assert k * stride == (k - 1) * stride + stride;
    }
  }

  lemma {:induction false} TablePrefix(crc: Checksum, interval: nat, blocks: seq<seq<Raw>>, k: nat)
    requires interval > 0 && k < |blocks|
    ensures var before := TableBytes(crc, interval, blocks[..k]);
      before + Data(blocks[k]) <= TableBytes(crc, interval, blocks)
  {
    hide Data, EncodeRestarts, Fixed, Mask;
    var n := |blocks| - 1;
    if k == n {
      var block := BlockBytes(blocks[n], interval);
      assert Data(blocks[n]) <= block && block <= BlockImage(crc, block);
    } else {
      TablePrefix(crc, interval, blocks[..n], k);
      assert blocks[..n][..k] == blocks[..k];
    }
  }

  function OffsetOf(k: nat, stride: nat, j: nat, entrySize: nat): nat {
    k * stride + j * entrySize
  }

  /** The file holds the encoding of `e` at `o`. */
  ghost predicate EntryIs(file: Bytes, o: nat, e: Raw) {
    o + |EncodeEntry(e)| <= |file| && file[o..o + |EncodeEntry(e)|] == EncodeEntry(e)
  }

  lemma EntryIsWithin(before: Bytes, data: Bytes, file: Bytes, o: nat, e: Raw)
    requires before + data <= file && EntryIs(data, o, e)
    ensures EntryIs(file, |before| + o, e)
  {
    hide EncodeEntry;
    var p := |before| + o;
    assert forall i :: 0 <= i < |data| ==> file[|before| + i] == (before + data)[|before| + i] == data[i];
    assert file[p..p + |EncodeEntry(e)|] == data[o..o + |EncodeEntry(e)|];
  }

  /** Where entry `j` of block `k` is in the file, to the byte. */
  lemma EntryOffset(crc: Checksum, interval: nat, blocks: seq<seq<Raw>>, entrySize: nat, capacity: nat, stride: nat,
                    k: nat, j: nat)
    requires interval > 0 && Even(blocks, capacity) && AllUniform(blocks, entrySize) && k < |blocks| && j < |blocks[k]|
    requires stride == Stride(capacity, entrySize, interval)
    ensures EntryIs(TableBytes(crc, interval, blocks), OffsetOf(k, stride, j, entrySize), blocks[k][j])
  {
    hide Data, EncodeEntry, TableBytes, Stride;
    BlockOffset(crc, interval, blocks, entrySize, capacity, k);
    TablePrefix(crc, interval, blocks, k);
    DataAt(blocks[k], entrySize, j);
    EntryIsWithin(TableBytes(crc, interval, blocks[..k]), Data(blocks[k]), TableBytes(crc, interval, blocks),
                  j * entrySize, blocks[k][j]);
  }
}

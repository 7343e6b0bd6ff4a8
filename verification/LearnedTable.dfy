/**
 A table from its entries to its lookups: built, read for training, learned, and
 then read through the model and through the index block, with the same answer.
 */
module LearnedTable {
  import opened Format
  import opened Coding
  import opened Keys
  import opened Log
  import opened Table
  import opened BlockRead
  import opened Baseline
  import opened LevelRead
  import LearnedIndex

  // ---------------------------------------------------------------- building

  ghost function Joined(blocks: seq<seq<Raw>>): seq<Raw> {
    if blocks == [] then [] else Joined(blocks[..|blocks| - 1]) + blocks[|blocks| - 1]
  }

  lemma NothingJoined()
    ensures Joined([]) == []
  {
  }

  lemma JoinedAppend(blocks: seq<seq<Raw>>, b: seq<Raw>)
    ensures Joined(blocks + [b]) == Joined(blocks) + b
  {
    assert (blocks + [b])[..|blocks|] == blocks;
  }

  /** An upper bound for what `n` entries take up in a file, and in the index. */
  function Room(n: nat, entrySize: nat): nat {
    n * (entrySize + 48)
  }

  lemma RoomAdds(a: nat, b: nat, entrySize: nat)
    ensures Room(a + b, entrySize) == Room(a, entrySize) + Room(b, entrySize)
    ensures a <= b ==> Room(a, entrySize) <= Room(b, entrySize)
  {
    assert (a + b) * (entrySize + 48) == a * (entrySize + 48) + b * (entrySize + 48);
    if a <= b { MulMonotone(a, b, entrySize + 48); }
  }

  lemma FewRestarts(n: nat, interval: nat)
    requires interval > 0 && n > 0
    ensures NumRestarts(n, interval) <= n
  {
    DivBelow(n - 1, interval);
  }

  lemma DivBelow(n: nat, m: nat)
    requires m > 0
    ensures n / m <= n
  {
    var q := n / m;
    assert n == q * m + n % m;
    assert q * m >= q by { MulMonotone(1, m, q); }
  }

  lemma EstimateBelow(b: seq<Raw>, entrySize: nat, interval: nat)
    requires interval > 0 && b != [] && Uniform(b, entrySize)
    ensures |Data(b)| + TRAILER_SIZE < Room(|b|, entrySize) && NumRestarts(|b|, interval) <= |b| <= Room(|b|, entrySize)
    ensures Estimate(b, interval) + TRAILER_SIZE < Room(|b|, entrySize)
  {
    hide Data, Uniform, NumRestarts;
    DataLength(b, entrySize);
    FewRestarts(|b|, interval);
    var n := |b|;
    assert n * (entrySize + 48) == n * entrySize + n * 48;
  }

  lemma {:induction false} FileBelow(crc: Checksum, interval: nat, blocks: seq<seq<Raw>>, entrySize: nat)
    requires interval > 0 && AllUniform(blocks, entrySize) && forall k :: 0 <= k < |blocks| ==> blocks[k] != []
    ensures |TableBytes(crc, interval, blocks)| <= Room(|Joined(blocks)|, entrySize)
  {
    hide BlockBytes, Room, Uniform, Estimate;
    if blocks != [] {
      var n := |blocks| - 1;
      FileBelow(crc, interval, blocks[..n], entrySize);
      EstimateBelow(blocks[n], entrySize, interval);
      BlockLength(blocks[n], interval);
      RoomAdds(|Joined(blocks[..n])|, |blocks[n]|, entrySize);
    } else {
      assert Room(0, entrySize) == 0 by { NoRoom(entrySize); }
    }
  }

  lemma NoRoom(entrySize: nat)
    ensures Room(0, entrySize) == 0
  {
  }

  lemma {:induction false} UniformParts(blocks: seq<seq<Raw>>, rest: seq<Raw>, entries: seq<Raw>, entrySize: nat)
    requires Joined(blocks) + rest <= entries && Uniform(entries, entrySize)
    ensures AllUniform(blocks, entrySize) && Uniform(rest, entrySize)
  {
    hide EncodeEntry;
    forall i | 0 <= i < |rest| ensures |EncodeEntry(rest[i])| == entrySize {
      assert entries[|Joined(blocks)| + i] == (Joined(blocks) + rest)[|Joined(blocks)| + i] == rest[i];
    }
    if blocks != [] {
      var n := |blocks| - 1;
      assert Joined(blocks[..n]) + blocks[n] <= entries;
      UniformParts(blocks[..n], blocks[n], entries, entrySize);
    }
  }

  /** A table builder fed with the entries, and finished. */
  method BuildTable(crc: Checksum, interval: nat, blockSize: nat, entries: seq<Raw>, ghost entrySize: nat)
    returns (file: Bytes, index: Bytes, ghost blocks: seq<seq<Raw>>, ghost last: seq<Raw>)
    requires interval > 0 && entries != [] && Uniform(entries, entrySize) && Room(|entries| + 1, entrySize) < TWO_32
    requires forall i :: 0 <= i < |entries| ==> |entries[i].key| + |entries[i].value| + 20 < TWO_32
    ensures file == TableBytes(crc, interval, blocks) && index == BlockBytes(IndexEntries(crc, interval, blocks), 1)
    ensures Joined(blocks) == entries && forall k :: 0 <= k < |blocks| ==> blocks[k] != []
    ensures last == [] || (blocks != [] && last == blocks[|blocks| - 1])
    ensures var full := if last == [] then blocks else blocks[..|blocks| - 1];
      AllCut(full, interval, blockSize) && Growing(last, interval, blockSize)
  {
    hide Growing, CutWhenFull, AllCut, Written, Estimate, RestartOffsets, Data, BlockBytes, TableBytes, IndexEntries,
         Uniform, Room, Joined;
    NothingJoined();
    var builder := new TableBuilder(crc, interval, blockSize);
    for i := 0 to |entries|
      invariant fresh(builder) && fresh(builder.dataBlock) && fresh(builder.indexBlock) && builder.Valid()
      invariant builder.crc == crc && builder.interval == interval && builder.blockSize == blockSize
      invariant Joined(builder.blocks) + builder.dataBlock.entries == entries[..i]
    {
      SizesFit(crc, interval, blockSize, builder.blocks, builder.dataBlock.entries, entries, i, entrySize);
      WrittenFile(crc, interval, builder.blocks, builder.file, builder.indexBlock.entries, builder.Pending());
      JoinedAppend(builder.blocks, builder.dataBlock.entries + [entries[i]]);
      assert entries[..i + 1] == Joined(builder.blocks) + (builder.dataBlock.entries + [entries[i]]);
      builder.Add(entries[i]);
    }
    assert entries[..|entries|] == entries;
    ghost var before;
    before, last := builder.blocks, builder.dataBlock.entries;
    WholeFits(crc, interval, blockSize, before, last, entries, entrySize);
    WrittenFile(crc, interval, builder.blocks, builder.file, builder.indexBlock.entries, builder.Pending());
    index := builder.Finish();
    file, blocks := builder.file, builder.blocks;
    JoinedAppend(before, last);
    CutNotEmpty(before, interval, blockSize);
    assert last == [] ==> before + [] == before && Joined(before) + [] == Joined(before);
    assert last != [] ==> blocks[..|blocks| - 1] == before;
  }

  lemma WrittenFile(crc: Checksum, interval: nat, blocks: seq<seq<Raw>>, file: Bytes, index: seq<Raw>,
                    pending: Option<Raw>)
    requires interval > 0 && Written(crc, interval, blocks, file, index, pending)
    ensures file == TableBytes(crc, interval, blocks)
  {
  }

  lemma CutNotEmpty(blocks: seq<seq<Raw>>, interval: nat, blockSize: nat)
    requires interval > 0 && AllCut(blocks, interval, blockSize)
    ensures forall k :: 0 <= k < |blocks| ==> blocks[k] != []
  {
    hide Estimate;
  }

  lemma SizesFit(crc: Checksum, interval: nat, blockSize: nat, blocks: seq<seq<Raw>>, rest: seq<Raw>, entries: seq<Raw>,
                 i: nat, entrySize: nat)
    requires interval > 0 && i < |entries| && Joined(blocks) + rest == entries[..i]
    requires AllCut(blocks, interval, blockSize)
    requires Uniform(entries, entrySize) && Room(|entries| + 1, entrySize) < TWO_32
    ensures |TableBytes(crc, interval, blocks)| + Estimate(rest + [entries[i]], interval) < TWO_64
  {
    hide TableBytes, Estimate, Uniform, Room, CutWhenFull;
    var more := rest + [entries[i]];
    assert Joined(blocks) + more == entries[..i + 1];
    UniformParts(blocks, more, entries, entrySize);
    CutNotEmpty(blocks, interval, blockSize);
    FileBelow(crc, interval, blocks, entrySize);
    EstimateBelow(more, entrySize, interval);
    RoomAdds(|Joined(blocks)|, |more|, entrySize);
    RoomAdds(i + 1, |entries| + 1, entrySize);
  }

  lemma WholeFits(crc: Checksum, interval: nat, blockSize: nat, blocks: seq<seq<Raw>>, rest: seq<Raw>,
                  entries: seq<Raw>, entrySize: nat)
    requires interval > 0 && Joined(blocks) + rest == entries && AllCut(blocks, interval, blockSize)
    requires Uniform(entries, entrySize) && Room(|entries| + 1, entrySize) < TWO_32
    ensures |TableBytes(crc, interval, blocks)| + Estimate(rest, interval) < TWO_64
  {
    hide TableBytes, Uniform, Room, CutWhenFull, NumRestarts;
    UniformParts(blocks, rest, entries, entrySize);
    CutNotEmpty(blocks, interval, blockSize);
    FileBelow(crc, interval, blocks, entrySize);
    RoomAdds(|Joined(blocks)|, |rest|, entrySize);
    RoomAdds(|entries|, |entries| + 1, entrySize);
    if rest == [] {
      EstimateOfNone(interval);
    } else {
      EstimateBelow(rest, entrySize, interval);
    }
  }

  lemma EstimateOfNone(interval: nat)
    requires interval > 0
    ensures Estimate([], interval) == 8
  {
  }

  // ---------------------------------------------------------------- the index block fits

  lemma IndexEntryBelow(key: Bytes, offset: nat, size: nat)
    requires |key| + 20 < TWO_32 && offset < TWO_64 && size < TWO_64
    ensures |EncodeEntry(Raw(key, Handle(offset, size)))| <= |key| + 45 && Storable(Raw(key, Handle(offset, size)))
  {
    hide Varint;
    VarintFits(offset);
    VarintFits(size);
    VarintFits(0);
    VarintFits(|key|);
    VarintFits(|Handle(offset, size)|);
  }

  lemma KeyBelow(e: Raw, entrySize: nat)
    requires |EncodeEntry(e)| == entrySize
    ensures |e.key| + 3 <= entrySize
  {
    hide Varint;
  }

  lemma {:induction false} IndexBelow(crc: Checksum, interval: nat, blocks: seq<seq<Raw>>, entrySize: nat)
    requires interval > 0 && AllUniform(blocks, entrySize) && (forall k :: 0 <= k < |blocks| ==> blocks[k] != [])
    requires Room(|Joined(blocks)|, entrySize) + entrySize + 48 < TWO_32
    ensures |Data(IndexEntries(crc, interval, blocks))| <= Room(|Joined(blocks)|, entrySize)
    ensures |blocks| <= |Joined(blocks)|
    ensures forall k :: 0 <= k < |blocks| ==> Storable(IndexEntries(crc, interval, blocks)[k])
  {
    hide BlockBytes, Room, Uniform, Estimate, EncodeEntry, Handle, TableBytes, Storable;
    if blocks != [] {
      var n := |blocks| - 1;
      var b := blocks[n];
      RoomAdds(|Joined(blocks[..n])|, |b|, entrySize);
      IndexBelow(crc, interval, blocks[..n], entrySize);
      FileBelow(crc, interval, blocks[..n], entrySize);
      EstimateBelow(b, entrySize, interval);
      BlockLength(b, interval);
      LastKeyBelow(b, entrySize);
      IndexEntryBelow(LastKey(b), |TableBytes(crc, interval, blocks[..n])|, |BlockBytes(b, interval)|);
      RoomForOne(|b|, entrySize);
      var index := IndexEntries(crc, interval, blocks);
      assert index[..n] == IndexEntries(crc, interval, blocks[..n]);
    } else {
      NoRoom(entrySize);
    }
  }

  lemma LastKeyBelow(b: seq<Raw>, entrySize: nat)
    requires b != [] && Uniform(b, entrySize)
    ensures |LastKey(b)| + 3 <= entrySize
  {
    hide EncodeEntry;
    KeyBelow(b[|b| - 1], entrySize);
  }

  lemma RoomForOne(n: nat, entrySize: nat)
    requires n > 0
    ensures entrySize + 48 <= Room(n, entrySize)
  {
    MulMonotone(1, n, entrySize + 48);
  }

  // ---------------------------------------------------------------- positions

  lemma {:induction false} JoinedLength(blocks: seq<seq<Raw>>, n: nat)
    requires forall k :: 0 <= k < |blocks| ==> |blocks[k]| == n
    ensures |Joined(blocks)| == Position(|blocks|, n, 0)
  {
    if blocks != [] {
      var m := |blocks| - 1;
      JoinedLength(blocks[..m], n);
      assert (m + 1) * n == m * n + n;
    }
  }

  /** Entry `j` of block `k` is the entry at its position. */
  lemma {:induction false} JoinedAt(blocks: seq<seq<Raw>>, n: nat, k: nat, j: nat)
    requires Even(blocks, n) && InTable(blocks, k, j)
    ensures Position(k, n, j) < |Joined(blocks)| && Joined(blocks)[Position(k, n, j)] == blocks[k][j]
  {
    hide Position;
    var m := |blocks| - 1;
    var init := blocks[..m];
    assert forall i :: 0 <= i < m ==> |init[i]| == n;
    JoinedLength(init, n);
    if k < m {
      JoinedAt(init, n, k, j);
    } else {
      assert Position(m, n, j) == Position(m, n, 0) + j by { PositionPlus(m, n, j); }
    }
  }

  lemma PositionPlus(k: nat, n: nat, j: nat)
    ensures Position(k, n, j) == Position(k, n, 0) + j
  {
  }

  /** Stored entries whose user keys increase, all visible at the snapshot. */
  ghost predicate Increasing(entries: seq<Raw>, keySize: nat, snapshot: nat) {
    && (forall i :: 0 <= i < |entries| ==>
        Numeric(entries[i], keySize) && KeyOf(entries[i].key, keySize).seqno <= snapshot)
    && (forall i, j :: 0 <= i < j < |entries| ==> User(entries[i], keySize) < User(entries[j], keySize))
  }

  lemma LaterIsFurther(k: nat, j: nat, k': nat, j': nat, n: nat)
    requires j < n && j' < n && (k < k' || (k == k' && j < j'))
    ensures Position(k, n, j) < Position(k', n, j')
  {
    if k < k' { MulMonotone(k + 1, k', n); }
  }

  lemma BlocksIncrease(blocks: seq<seq<Raw>>, n: nat, keySize: nat, snapshot: nat)
    requires Even(blocks, n) && Increasing(Joined(blocks), keySize, snapshot)
    ensures UsersIncrease(blocks, keySize, snapshot) && AllNumeric(blocks, keySize)
  {
    hide Joined, KeyOf, WellFormed, Position, Number;
    var entries := Joined(blocks);
    forall k: nat, j: nat | InTable(blocks, k, j)
      ensures Numeric(blocks[k][j], keySize) && KeyOf(blocks[k][j].key, keySize).seqno <= snapshot
    {
      JoinedAt(blocks, n, k, j);
    }
    forall k: nat, j: nat, k': nat, j': nat | InTable(blocks, k, j) && InTable(blocks, k', j')
      && (k < k' || (k == k' && j < j'))
      ensures User(blocks[k][j], keySize) < User(blocks[k'][j'], keySize)
    {
      JoinedAt(blocks, n, k, j);
      JoinedAt(blocks, n, k', j');
      LaterIsFurther(k, j, k', j', n);
    }
  }

  /** The training keys of such a table increase strictly. */
  lemma TrainingIncreases(keys: seq<nat>, blocks: seq<seq<Raw>>, n: nat, keySize: nat, snapshot: nat)
    requires TrainedOnTable(keys, blocks, n, keySize) && UsersIncrease(blocks, keySize, snapshot)
    ensures LearnedIndex.StrictlyIncreasing(keys)
  {
    hide KeyOf, WellFormed, Position;
    forall p: nat, q: nat | p < q < |keys|
      ensures keys[p] < keys[q]
    {
      PositionBack(p, n);
      PositionBack(q, n);
      PositionOrder(p / n, p % n, q / n, q % n, n);
      assert InTable(blocks, p / n, p % n) && InTable(blocks, q / n, q % n);
    }
  }

  lemma PositionBack(p: nat, n: nat)
    requires n > 0
    ensures p % n < n && Position(p / n, n, p % n) == p
  {
  }

  lemma FirstIsFull(blocks: seq<seq<Raw>>, interval: nat, blockSize: nat, entrySize: nat, n: nat)
    requires interval > 0 && blocks != [] && Even(blocks, n) && |Joined(blocks)| >= n
    requires Capacity(n, entrySize, interval, blockSize)
    ensures |blocks[0]| == n
  {
    if |blocks| == 1 {
      assert blocks[..0] == [] && Joined(blocks) == Joined([]) + blocks[0];
    }
  }

  lemma FinishedEven(blocks: seq<seq<Raw>>, last: seq<Raw>, entries: seq<Raw>, entrySize: nat, interval: nat,
                     blockSize: nat, n: nat)
    requires interval > 0 && Joined(blocks) == entries && Uniform(entries, entrySize)
    requires Capacity(n, entrySize, interval, blockSize)
    requires last == [] || (blocks != [] && last == blocks[|blocks| - 1])
    requires var full := if last == [] then blocks else blocks[..|blocks| - 1];
      AllCut(full, interval, blockSize) && Growing(last, interval, blockSize)
    ensures Even(blocks, n) && AllUniform(blocks, entrySize)
  {
    hide Growing, AllCut, Capacity, Uniform, Joined;
    var full := if last == [] then blocks else blocks[..|blocks| - 1];
    assert Joined(blocks) + [] == entries;
    UniformParts(blocks, [], entries, entrySize);
    assert blocks == full + if last == [] then [] else [last];
    assert Uniform(last, entrySize) by { if last == [] { NothingUniform(entrySize); } }
    FinishedIsEven(full, last, entrySize, interval, blockSize, n);
  }

  lemma NothingUniform(entrySize: nat)
    ensures Uniform([], entrySize)
  {
  }

  // ---------------------------------------------------------------- the table as both readers see it

  lemma BlockFits(crc: Checksum, interval: nat, blocks: seq<seq<Raw>>, entrySize: nat, k: nat)
    requires interval > 0 && AllUniform(blocks, entrySize) && k < |blocks| && blocks[k] != []
    requires Room(|Joined(blocks)|, entrySize) < TWO_32 && forall j :: 0 <= j < |blocks[k]| ==> Storable(blocks[k][j])
    ensures FitsWidths(blocks[k], interval)
  {
    hide Room, Uniform, NumRestarts, Data;
    EstimateBelow(blocks[k], entrySize, interval);
    PartBelow(blocks, k);
    RoomAdds(|blocks[k]|, |Joined(blocks)|, entrySize);
  }

  lemma {:induction false} PartBelow(blocks: seq<seq<Raw>>, k: nat)
    requires k < |blocks|
    ensures |blocks[k]| <= |Joined(blocks)|
  {
    if k < |blocks| - 1 { PartBelow(blocks[..|blocks| - 1], k); }
  }

  ghost predicate AllNumeric(blocks: seq<seq<Raw>>, keySize: nat) {
    forall k: nat, j: nat :: InTable(blocks, k, j) ==> Numeric(blocks[k][j], keySize)
  }

  lemma BuiltIsStored(crc: Checksum, interval: nat, blocks: seq<seq<Raw>>, entrySize: nat, n: nat, keySize: nat,
                      snapshot: nat)
    requires interval > 0 && blocks != [] && Even(blocks, n) && AllUniform(blocks, entrySize)
    requires UsersIncrease(blocks, keySize, snapshot) && AllNumeric(blocks, keySize)
    requires Room(|Joined(blocks)|, entrySize) + entrySize + 48 < TWO_32
    ensures var index := IndexEntries(crc, interval, blocks);
      && IndexBlock(BlockBytes(index, 1), index)
      && StoredTable(TableBytes(crc, interval, blocks), BlockBytes(index, 1), crc, interval, blocks, keySize)
    ensures AllStorable(blocks)
    ensures forall k :: 0 <= k < |blocks| ==> Readable(BlockBytes(blocks[k], interval), blocks[k], interval, keySize)
  {
    hide Room, Joined, WellFormed, KeyOf, TableBytes, IndexEntries, BlockBytes, Data, Sorted, Number, Uniform, Concat,
         Storable, NumRestarts;
    FileBelow(crc, interval, blocks, entrySize);
    IndexBelow(crc, interval, blocks, entrySize);
    RoomForOne(1, entrySize);
    BlocksInOrder(blocks, keySize, snapshot);
    ConcatSorted(AsBlocks(blocks, keySize));
    JoinedRoom(|Joined(blocks)|, entrySize);
    forall k | 0 <= k < |blocks|
      ensures FitsWidths(blocks[k], interval) && Readable(BlockBytes(blocks[k], interval), blocks[k], interval, keySize)
    {
      forall j: nat | j < |blocks[k]| ensures Numeric(blocks[k][j], keySize) { assert InTable(blocks, k, j); }
      BlockFits(crc, interval, blocks, entrySize, k);
    }
    assert NumRestarts(|blocks|, 1) == |blocks| by { OnePerEntry(|blocks|); }
  }

  lemma OnePerEntry(n: nat)
    requires n > 0
    ensures NumRestarts(n, 1) == n
  {
  }

  lemma JoinedRoom(n: nat, entrySize: nat)
    ensures n <= Room(n, entrySize)
  {
    MulMonotone(1, entrySize + 48, n);
  }

  // ---------------------------------------------------------------- from entries to answers

  /** A table as it lies in its file, with the geometry of its blocks. */
  ghost predicate Built(file: Bytes, indexBlock: Bytes, crc: Checksum, interval: nat, blocks: seq<seq<Raw>>,
                        g: Geometry, keySize: nat, snapshot: nat)
  {
    && interval > 0 && blocks != [] && Even(blocks, g.numEntries) && AllUniform(blocks, g.entrySize)
    && g.blockSize == Stride(g.numEntries, g.entrySize, interval) && UsersIncrease(blocks, keySize, snapshot)
    && IndexBlock(indexBlock, IndexEntries(crc, interval, blocks))
    && StoredTable(file, indexBlock, crc, interval, blocks, keySize)
    && (forall k :: 0 <= k < |blocks| ==> Readable(BlockBytes(blocks[k], interval), blocks[k], interval, keySize))
    && Laid(file, indexBlock, IndexEntries(crc, interval, blocks), blocks, g)
  }

  lemma BuiltFacts(file: Bytes, indexBlock: Bytes, crc: Checksum, interval: nat, blocks: seq<seq<Raw>>, g: Geometry,
                   keySize: nat, snapshot: nat)
    requires Built(file, indexBlock, crc, interval, blocks, g, keySize, snapshot)
    ensures interval > 0 && blocks != [] && Even(blocks, g.numEntries) && AllUniform(blocks, g.entrySize)
    ensures g.numEntries > 0
    ensures g.blockSize == Stride(g.numEntries, g.entrySize, interval) && UsersIncrease(blocks, keySize, snapshot)
    ensures IndexBlock(indexBlock, IndexEntries(crc, interval, blocks))
    ensures StoredTable(file, indexBlock, crc, interval, blocks, keySize)
    ensures forall k :: 0 <= k < |blocks| ==> Readable(BlockBytes(blocks[k], interval), blocks[k], interval, keySize)
    ensures Laid(file, indexBlock, IndexEntries(crc, interval, blocks), blocks, g)
    ensures TableBytes(crc, interval, blocks) <= file && |file| < TWO_64 && AllWellFormed(blocks, keySize)
    ensures forall k: nat, j: nat :: InTable(blocks, k, j) ==> WellFormed(blocks[k][j].key, keySize)
  {
    hide Even, Stride, IndexBlock, Readable, EntryIs, OffsetOf, KeyOf, WellFormed, BlockBytes, Uniform;
  }

  /** What is put in a table that can be learned. */
  ghost predicate Learnable(entries: seq<Raw>, interval: nat, blockSize: nat, entrySize: nat, capacity: nat,
                            keySize: nat, snapshot: nat) {
    && interval > 0 && entries != [] && Uniform(entries, entrySize) && Room(|entries| + 1, entrySize) < TWO_32
    && (forall i :: 0 <= i < |entries| ==> |entries[i].key| + |entries[i].value| + 20 < TWO_32)
    && Increasing(entries, keySize, snapshot)
    && Capacity(capacity, entrySize, interval, blockSize) && capacity <= |entries|
  }

  method BuildFor(crc: Checksum, interval: nat, blockSize: nat, entries: seq<Raw>, ghost keySize: nat,
                  ghost entrySize: nat, ghost capacity: nat, ghost snapshot: nat)
    returns (file: Bytes, indexBlock: Bytes, ghost blocks: seq<seq<Raw>>, ghost g: Geometry)
    requires Learnable(entries, interval, blockSize, entrySize, capacity, keySize, snapshot)
    ensures Built(file, indexBlock, crc, interval, blocks, g, keySize, snapshot)
    ensures Joined(blocks) == entries && blocks != [] && |blocks[0]| == g.numEntries == capacity
  {
    LearnableFacts(entries, interval, blockSize, entrySize, capacity, keySize, snapshot);
    hide *;
    ghost var last;
    file, indexBlock, blocks, last := BuildTable(crc, interval, blockSize, entries, entrySize);
    g := Geometry(capacity, Stride(capacity, entrySize, interval), entrySize);
    FinishedEven(blocks, last, entries, entrySize, interval, blockSize, capacity);
    BlocksBuilt(crc, interval, blockSize, blocks, entries, g, keySize, snapshot);
  }

  lemma BlocksBuilt(crc: Checksum, interval: nat, blockSize: nat, blocks: seq<seq<Raw>>, entries: seq<Raw>, g: Geometry,
                    keySize: nat, snapshot: nat)
    requires Learnable(entries, interval, blockSize, g.entrySize, g.numEntries, keySize, snapshot)
    requires interval > 0 && Joined(blocks) == entries && Even(blocks, g.numEntries) && AllUniform(blocks, g.entrySize)
    requires g.blockSize == Stride(g.numEntries, g.entrySize, interval)
    ensures blocks != [] && |blocks[0]| == g.numEntries
    ensures var index := BlockBytes(IndexEntries(crc, interval, blocks), 1);
      Built(TableBytes(crc, interval, blocks), index, crc, interval, blocks, g, keySize, snapshot)
  {
    LearnableFacts(entries, interval, blockSize, g.entrySize, g.numEntries, keySize, snapshot);
    hide *;
    var n := g.numEntries;
    assert blocks != [] by { NothingJoined(); }
    CapacityPositive(n, g.entrySize, interval, blockSize);
    FirstIsFull(blocks, interval, blockSize, g.entrySize, n);
    BlocksIncrease(blocks, n, keySize, snapshot);
    RoomSplit(|entries|, g.entrySize);
    BuiltIsStored(crc, interval, blocks, g.entrySize, n, keySize, snapshot);
    BuiltIsLaid(crc, interval, blocks, g, []);
    var file := TableBytes(crc, interval, blocks);
    assert file + [] == file;
    BuiltBundle(file, BlockBytes(IndexEntries(crc, interval, blocks), 1), crc, interval, blocks, g, keySize, snapshot);
  }

  lemma BuiltBundle(file: Bytes, indexBlock: Bytes, crc: Checksum, interval: nat, blocks: seq<seq<Raw>>, g: Geometry,
                    keySize: nat, snapshot: nat)
    requires interval > 0 && blocks != [] && Even(blocks, g.numEntries) && AllUniform(blocks, g.entrySize)
    requires g.blockSize == Stride(g.numEntries, g.entrySize, interval) && UsersIncrease(blocks, keySize, snapshot)
    requires IndexBlock(indexBlock, IndexEntries(crc, interval, blocks))
    requires StoredTable(file, indexBlock, crc, interval, blocks, keySize)
    requires forall k :: 0 <= k < |blocks| ==> Readable(BlockBytes(blocks[k], interval), blocks[k], interval, keySize)
    requires Laid(file, indexBlock, IndexEntries(crc, interval, blocks), blocks, g)
    ensures Built(file, indexBlock, crc, interval, blocks, g, keySize, snapshot)
  {
    hide Even, AllUniform, Stride, UsersIncrease, IndexBlock, StoredTable, Readable, Laid;
  }

  lemma LearnableFacts(entries: seq<Raw>, interval: nat, blockSize: nat, entrySize: nat, capacity: nat, keySize: nat,
                       snapshot: nat)
    requires Learnable(entries, interval, blockSize, entrySize, capacity, keySize, snapshot)
    ensures interval > 0 && entries != [] && Uniform(entries, entrySize) && Room(|entries| + 1, entrySize) < TWO_32
    ensures forall i :: 0 <= i < |entries| ==> |entries[i].key| + |entries[i].value| + 20 < TWO_32
    ensures Increasing(entries, keySize, snapshot)
    ensures forall i :: 0 <= i < |entries| ==> WellFormed(entries[i].key, keySize)
    ensures Capacity(capacity, entrySize, interval, blockSize) && capacity <= |entries|
  {
    IncreasingFacts(entries, keySize, snapshot);
    hide Increasing, Uniform, Room, Capacity, WellFormed;
  }

  /** LearnedIndexData filled from the table and trained. */
  method TrainOn(file: Bytes, indexBlock: Bytes, keySize: nat, error: nat, ghost crc: Checksum, ghost interval: nat,
                 ghost blocks: seq<seq<Raw>>, ghost g: Geometry, ghost snapshot: nat)
    returns (model: LearnedIndex.LearnedIndexData, geometry: Geometry)
    requires Built(file, indexBlock, crc, interval, blocks, g, keySize, snapshot) && error >= 1
    requires blocks != [] && |blocks[0]| == g.numEntries >= 2
    ensures fresh(model) && model.Valid() && model.learned && !model.isLevel && model.error == error && geometry == g
    ensures TrainedOnTable(model.trainedOn, blocks, g.numEntries, keySize)
  {
    BuiltFacts(file, indexBlock, crc, interval, blocks, g, keySize, snapshot);
    hide *;
    model := new LearnedIndex.LearnedIndexData(error, false);
    ghost var n := g.numEntries;
    ghost var added;
    var recorded;
    added, recorded := FillData(model, false, file, indexBlock, keySize, None, crc, interval, blocks, n, g.entrySize);
    assert model.stringKeys == added;
    TrainingIncreases(added, blocks, n, keySize, snapshot);
    SeveralKeys(added, blocks, n, keySize);
    var ok := model.Learn(i => false);
    geometry := recorded.value;
  }

  /** Builds a table, trains a model on it, and looks a key up through the model and
      through the index block.  Both find the entry of the user key if there is one, and
      neither takes another entry for it. */
  method BuildLearnAndGet(crc: Checksum, interval: nat, blockSize: nat, entries: seq<Raw>, keySize: nat, error: nat,
                          key: Bytes, ghost entrySize: nat, ghost capacity: nat, ghost user: nat, ghost snapshot: nat)
    returns (learned: Option<Raw>, baseline: Option<Raw>)
    requires Learnable(entries, interval, blockSize, entrySize, capacity, keySize, snapshot) && error >= 1
    requires 2 * error + 1 <= capacity
    requires WellFormed(key, keySize) && Number(key[..keySize]) < TWO_64
    requires KeyOf(key, keySize) == LookupKey(user, snapshot)
    requires forall i :: 0 <= i < |entries| ==> WellFormed(entries[i].key, keySize)
    ensures forall i :: 0 <= i < |entries| && User(entries[i], keySize) == user ==>
      learned == Some(entries[i]) && baseline == Some(entries[i])
    ensures (learned.Some? ==> learned.value in entries) && (baseline.Some? ==> baseline.value in entries)
  {
    LookupUser(user, snapshot);
    hide *;
    var file, indexBlock;
    ghost var blocks, g;
    file, indexBlock, blocks, g := BuildFor(crc, interval, blockSize, entries, keySize, entrySize, capacity, snapshot);
    var model, geometry := TrainOn(file, indexBlock, keySize, error, crc, interval, blocks, g, snapshot);
    BuiltFacts(file, indexBlock, crc, interval, blocks, g, keySize, snapshot);
    ghost var index := IndexEntries(crc, interval, blocks);
    learned := LevelRead.LevelRead(file, indexBlock, geometry, key, model, o => true, index, blocks, keySize, snapshot);
    baseline := InternalGet(file, indexBlock, key, o => true, crc, interval, blocks, keySize, user, snapshot);
    LevelReadAgrees(blocks, keySize, snapshot, user, learned);
    Translated(blocks, entries, capacity, keySize, user, snapshot, learned, baseline);
  }

  lemma LookupUser(user: nat, snapshot: nat)
    ensures LookupKey(user, snapshot).user == user
  {
  }

  lemma IncreasingFacts(entries: seq<Raw>, keySize: nat, snapshot: nat)
    requires Increasing(entries, keySize, snapshot)
    ensures forall i :: 0 <= i < |entries| ==> WellFormed(entries[i].key, keySize)
  {
    hide WellFormed, KeyOf;
  }

  lemma RoomSplit(n: nat, entrySize: nat)
    requires Room(n + 1, entrySize) < TWO_32
    ensures Room(n, entrySize) + entrySize + 48 < TWO_32
  {
  }

  lemma SeveralKeys(keys: seq<nat>, blocks: seq<seq<Raw>>, n: nat, keySize: nat)
    requires TrainedOnTable(keys, blocks, n, keySize) && blocks != [] && |blocks[0]| == n && n >= 2
    ensures |keys| >= 2
  {
    hide WellFormed, KeyOf;
    assert InTable(blocks, 0, 1);
    assert Position(0, n, 1) == 1;
  }

  /** Entries of the blocks are entries of the table, and the other way round. */
  lemma Translated(blocks: seq<seq<Raw>>, entries: seq<Raw>, n: nat, keySize: nat, user: nat, snapshot: nat,
                   learned: Option<Raw>, baseline: Option<Raw>)
    requires Joined(blocks) == entries && Even(blocks, n) && UsersIncrease(blocks, keySize, snapshot)
    requires forall i :: 0 <= i < |entries| ==> WellFormed(entries[i].key, keySize)
    requires forall k: nat, j: nat :: InTable(blocks, k, j) && User(blocks[k][j], keySize) == user ==>
      learned == Some(blocks[k][j])
    requires learned.Some? ==> exists k: nat, j: nat :: InTable(blocks, k, j) && learned.value == blocks[k][j]
    requires baseline.Some? ==> exists k: nat, j: nat :: InTable(blocks, k, j) && baseline.value == blocks[k][j]
    requires learned.Some? ==> WellFormed(learned.value.key, keySize)
    requires baseline.Some? ==> WellFormed(baseline.value.key, keySize)
    requires (learned.Some? && User(learned.value, keySize) == user) <==>
      (baseline.Some? && User(baseline.value, keySize) == user)
    ensures forall i :: 0 <= i < |entries| && User(entries[i], keySize) == user ==>
      learned == Some(entries[i]) && baseline == Some(entries[i])
    ensures (learned.Some? ==> learned.value in entries) && (baseline.Some? ==> baseline.value in entries)
  {
    hide WellFormed, KeyOf, Joined, UsersIncrease;
    forall k: nat, j: nat | InTable(blocks, k, j) ensures blocks[k][j] in entries { JoinedAt(blocks, n, k, j); }
    forall i | 0 <= i < |entries| && User(entries[i], keySize) == user
      ensures learned == Some(entries[i]) && baseline == Some(entries[i])
    {
      var k, j := PlaceInBlocks(blocks, n, i);
    }
  }

  lemma {:induction false} PlaceInBlocks(blocks: seq<seq<Raw>>, n: nat, i: nat) returns (k: nat, j: nat)
    requires i < |Joined(blocks)|
    ensures InTable(blocks, k, j) && blocks[k][j] == Joined(blocks)[i]
  {
    var m := |blocks| - 1;
    if i < |Joined(blocks[..m])| {
      k, j := PlaceInBlocks(blocks[..m], n, i);
    } else {
      k, j := m, i - |Joined(blocks[..m])|;
    }
  }
}

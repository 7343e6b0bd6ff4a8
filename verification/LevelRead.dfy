/**
 Reading a table through a predicted range of positions (db/table_cache.cc:
 LevelRead) against the baseline lookup (table/table.cc: InternalGet).
 */
module LevelRead {
  import opened Format
  import opened Coding
  import opened Keys
  import LearnedIndex
  import opened Baseline
  import opened BlockRead
  import opened Log
  import opened Table
  import opened Version

  // ---------------------------------------------------------------- the index block

  ghost predicate IndexBlock(block: Bytes, index: seq<Raw>) {
    && block == BlockBytes(index, 1) && index != [] && |Data(index)| < TWO_32 && |index| < TWO_32
    && forall i :: 0 <= i < |index| ==> Storable(index[i])
  }

  /** An entry of the index block, found through the restart array. */
  method IndexEntry(block: Bytes, restartOffset: nat, k: nat, ghost index: seq<Raw>) returns (e: Raw)
    requires IndexBlock(block, index) && restartOffset == |Data(index)| && k < |index|
    ensures e == index[k]
  {
    hide Data, BlockBytes;
    assert RestartEntry(k, 1) == k && k < NumRestarts(|index|, 1);
    var offset := RestartPoint(block, restartOffset, k, index, 1);
    DataIsFirst(block, index, 1);
    var next;
    e, next := ReadEntry(block, offset, restartOffset, index, k);
  }

  // ---------------------------------------------------------------- what is stored

  /** What FillData records of the first block it sees: entries in a full block,
      distance between blocks, size of an entry. */
  datatype Geometry = Geometry(numEntries: nat, blockSize: nat, entrySize: nat)

  /** The file and its index block hold the blocks, with this geometry. */
  ghost predicate Laid(file: Bytes, indexBlock: Bytes, index: seq<Raw>, blocks: seq<seq<Raw>>, g: Geometry) {
    && g.numEntries > 0 && Even(blocks, g.numEntries) && AllUniform(blocks, g.entrySize)
    && (forall k: nat, j: nat :: InTable(blocks, k, j) ==>
        Storable(blocks[k][j]) && EntryIs(file, OffsetOf(k, g.blockSize, j, g.entrySize), blocks[k][j]))
    && IndexBlock(indexBlock, index) && |index| == |blocks|
    && (forall k :: 0 <= k < |blocks| ==> index[k].key == LastKey(blocks[k]))
  }

  /** What a table builder writes is laid out so, whatever is appended after it. */
  lemma BuiltIsLaid(crc: Checksum, interval: nat, blocks: seq<seq<Raw>>, g: Geometry, rest: Bytes)
    requires interval > 0 && g.numEntries > 0 && Even(blocks, g.numEntries) && AllUniform(blocks, g.entrySize)
    requires AllStorable(blocks)
    requires g.blockSize == Stride(g.numEntries, g.entrySize, interval)
    requires IndexBlock(BlockBytes(IndexEntries(crc, interval, blocks), 1), IndexEntries(crc, interval, blocks))
    ensures var index := IndexEntries(crc, interval, blocks);
      Laid(TableBytes(crc, interval, blocks) + rest, BlockBytes(index, 1), index, blocks, g)
  {
    hide TableBytes, IndexEntries, BlockBytes, Stride, OffsetOf, EntryIs, IndexBlock, Uniform;
    var file := TableBytes(crc, interval, blocks);
    forall k: nat, j: nat | InTable(blocks, k, j)
      ensures EntryIs(file + rest, OffsetOf(k, g.blockSize, j, g.entrySize), blocks[k][j])
    {
      EntryOffset(crc, interval, blocks, g.entrySize, g.numEntries, g.blockSize, k, j);
      EntryIsAppended(file, rest, OffsetOf(k, g.blockSize, j, g.entrySize), blocks[k][j]);
    }
    forall k | 0 <= k < |blocks|
      ensures IndexEntries(crc, interval, blocks)[k].key == LastKey(blocks[k])
    {
      IndexKeys(crc, interval, blocks, k);
    }
  }

  lemma EntryIsAppended(file: Bytes, rest: Bytes, o: nat, e: Raw)
    requires EntryIs(file, o, e)
    ensures EntryIs(file + rest, o, e)
  {
    hide EncodeEntry;
    assert (file + rest)[o..o + |EncodeEntry(e)|] == file[o..o + |EncodeEntry(e)|];
  }

  // ---------------------------------------------------------------- keys in order

  /** Each user key occurs once, in order, with a sequence number that the lookup may see. */
  ghost predicate UsersIncrease(blocks: seq<seq<Raw>>, keySize: nat, snapshot: nat) {
    && AllWellFormed(blocks, keySize)
    && (forall k: nat, j: nat, k': nat, j': nat ::
        InTable(blocks, k, j) && InTable(blocks, k', j') && (k < k' || (k == k' && j < j')) ==>
          User(blocks[k][j], keySize) < User(blocks[k'][j'], keySize))
    && (forall k: nat, j: nat :: InTable(blocks, k, j) ==> KeyOf(blocks[k][j].key, keySize).seqno <= snapshot)
  }

  /** Against a lookup key that sees it, a stored key compares as its user key does. */
  lemma ComparesByUser(a: Bytes, key: Bytes, keySize: nat, user: nat, snapshot: nat)
    requires WellFormed(a, keySize) && WellFormed(key, keySize) && KeyOf(key, keySize) == LookupKey(user, snapshot)
    requires KeyOf(a, keySize).seqno <= snapshot
    ensures |a| >= TAG_SIZE && |key| >= TAG_SIZE && (CompareStored(a, key) < 0 <==> KeyOf(a, keySize).user < user)
  {
    hide KeyOf, CompareStored;
    StoredOrder(a, key, keySize);
  }

  /** The position of entry `j` of block `k`. */
  function Position(k: nat, n: nat, j: nat): nat {
    k * n + j
  }

  /** The block of a position, and the place in it. */
  method SplitPosition(p: nat, n: nat) returns (k: nat, j: nat)
    requires n > 0
    ensures j < n && Position(k, n, j) == p
  {
    k, j := p / n, p % n;
  }

  /** Positions are ordered by block, then by place. */
  lemma PositionOrder(k: nat, j: nat, k': nat, j': nat, n: nat)
    requires j < n && j' < n && Position(k, n, j) <= Position(k', n, j')
    ensures k < k' || (k == k' && j <= j')
  {
    if k' < k { MulMonotone(k' + 1, k, n); }
  }

  lemma PositionNear(k: nat, j: nat, k': nat, j': nat, n: nat)
    requires j < n && j' < n && Position(k', n, j') <= Position(k, n, j) + n
    ensures k' <= k + 1
  {
    if k + 2 <= k' { MulMonotone(k + 2, k', n); }
  }

  // ---------------------------------------------------------------- LevelRead

  /** One entry out of the bytes that were read. */
  method EntryAt(bytes: Bytes, o: nat, ghost e: Raw, ghost tail: Bytes) returns (r: Raw)
    requires Storable(e) && o <= |bytes| && bytes[o..] == EncodeEntry(e) + tail
    ensures r == e
  {
    hide ParseEntry, EncodeEntry;
    EntryRoundTrip(e, tail);
    var h := DecodeEntry(bytes[o..]);
    var (n, rest) := (h.value.nonShared, h.value.rest);
    r := Raw(rest[..n], rest[n..n + h.value.valueLength]);
  }

  /** The binary search of LevelRead over the positions `low` to `high` of one block,
      reading entries of one size from `bytes`. */
  method SearchBlock(bytes: Bytes, low: nat, high: nat, entrySize: nat, key: Bytes, ghost block: seq<Raw>,
                     ghost keySize: nat, ghost user: nat, ghost snapshot: nat)
    returns (r: Raw)
    requires low <= high < |block| && Covers(bytes, low, high, entrySize, block)
    requires WellFormed(key, keySize) && KeyOf(key, keySize) == LookupKey(user, snapshot)
    requires forall j :: 0 <= j < |block| ==>
      WellFormed(block[j].key, keySize) && KeyOf(block[j].key, keySize).seqno <= snapshot
    requires forall i, j :: 0 <= i < j < |block| ==> User(block[i], keySize) < User(block[j], keySize)
    ensures exists j :: 0 <= j < |block| && r == block[j] && Lands(block, keySize, user, low, high, j)
    ensures forall j :: low <= j <= high && User(block[j], keySize) == user ==> r == block[j]
  {
    hide Covers, WellFormed, KeyOf, CompareStored;
    var (l: nat, right: nat) := (low, high);
    while l < right
      invariant low <= l <= right <= high
      invariant forall j :: low <= j < l ==> User(block[j], keySize) < user
      invariant forall j :: right <= j <= high && right < high ==> user <= User(block[j], keySize)
    {
      var mid := (l + right) / 2;
      var e := ReadAt(bytes, low, high, entrySize, mid, block);
      ComparesByUser(e.key, key, keySize, user, snapshot);
      if CompareStored(e.key, key) < 0 {
        l := mid + 1;
      } else {
        right := mid;
      }
    }
    r := ReadAt(bytes, low, high, entrySize, l, block);
    assert Lands(block, keySize, user, low, high, l);
  }

  /** `j` is the first position from `low` on whose user key is not below `user`, or `high`. */
  ghost predicate Lands(block: seq<Raw>, keySize: nat, user: nat, low: nat, high: nat, j: nat)
    requires high < |block| && forall i :: 0 <= i < |block| ==> WellFormed(block[i].key, keySize)
  {
    low <= j <= high && (forall i :: low <= i < j ==> User(block[i], keySize) < user)
      && (j < high ==> user <= User(block[j], keySize))
  }

  /** `bytes` holds exactly the entries `low` to `high` of the block. */
  ghost predicate Covers(bytes: Bytes, low: nat, high: nat, entrySize: nat, block: seq<Raw>)
    requires low <= high < |block|
  {
    forall j: nat :: low <= j <= high ==> Storable(block[j]) && EntryIs(bytes, Extent(j - low, entrySize), block[j])
  }

  method ReadAt(bytes: Bytes, low: nat, high: nat, entrySize: nat, j: nat, ghost block: seq<Raw>) returns (e: Raw)
    requires low <= j <= high < |block| && Covers(bytes, low, high, entrySize, block)
    ensures e == block[j]
  {
    hide EncodeEntry;
    var o := Extent(j - low, entrySize);
    assert EntryIs(bytes, o, block[j]);
    ghost var tail := bytes[o + |EncodeEntry(block[j])|..];
    assert bytes[o..] == EncodeEntry(block[j]) + tail;
    e := EntryAt(bytes, o, block[j], tail);
  }

  /** The size of `n` entries. */
  function Extent(n: nat, entrySize: nat): nat {
    n * entrySize
  }

  /** What the read of positions `low` to `high` of block `i` returns. */
  lemma ReadCovers(file: Bytes, indexBlock: Bytes, index: seq<Raw>, blocks: seq<seq<Raw>>, g: Geometry, i: nat,
                   low: nat, high: nat)
    requires Laid(file, indexBlock, index, blocks, g) && i < |blocks| && low <= high < |blocks[i]|
    ensures var (o, size) := (OffsetOf(i, g.blockSize, low, g.entrySize), Extent(high - low + 1, g.entrySize));
      o + size <= |file| && Covers(file[o..o + size], low, high, g.entrySize, blocks[i])
  {
    hide Laid, OffsetOf, Extent;
    var (o, size) := (OffsetOf(i, g.blockSize, low, g.entrySize), Extent(high - low + 1, g.entrySize));
    forall j: nat | low <= j <= high
      ensures o + size <= |file| && Storable(blocks[i][j])
      ensures EntryIs(file[o..o + size], Extent(j - low, g.entrySize), blocks[i][j])
    {
      OneCovered(file, indexBlock, index, blocks, g, i, low, high, j);
    }
    OneCovered(file, indexBlock, index, blocks, g, i, low, high, low);
  }

  lemma OneCovered(file: Bytes, indexBlock: Bytes, index: seq<Raw>, blocks: seq<seq<Raw>>, g: Geometry, i: nat,
                   low: nat, high: nat, j: nat)
    requires Laid(file, indexBlock, index, blocks, g) && i < |blocks| && low <= j <= high < |blocks[i]|
    ensures var (o, size) := (OffsetOf(i, g.blockSize, low, g.entrySize), Extent(high - low + 1, g.entrySize));
      o + size <= |file| && Storable(blocks[i][j])
        && EntryIs(file[o..o + size], Extent(j - low, g.entrySize), blocks[i][j])
  {
    hide IndexBlock, EncodeEntry, Even, Uniform, OffsetOf, Extent;
    var E := g.entrySize;
    assert InTable(blocks, i, j) && InTable(blocks, i, high);
    EntrySizes(blocks, E, i, j);
    EntrySizes(blocks, E, i, high);
    Spread(i, g.blockSize, low, j, E);
    Spread(i, g.blockSize, low, high, E);
    Extents(j - low, high - low, E);
    var (o, size, d) := (OffsetOf(i, g.blockSize, low, E), Extent(high - low + 1, E), Extent(j - low, E));
    assert file[o..o + size][d..d + E] == file[o + d..o + d + E];
  }

  lemma Extents(a: nat, b: nat, entrySize: nat)
    requires a <= b
    ensures Extent(a, entrySize) + entrySize <= Extent(b, entrySize) + entrySize == Extent(b + 1, entrySize)
  {
    MulMonotone(a, b, entrySize);
    assert (b + 1) * entrySize == b * entrySize + entrySize;
  }

  lemma EntrySizes(blocks: seq<seq<Raw>>, entrySize: nat, i: nat, j: nat)
    requires AllUniform(blocks, entrySize) && InTable(blocks, i, j)
    ensures |EncodeEntry(blocks[i][j])| == entrySize
  {
    hide EncodeEntry;
  }

  lemma Spread(i: nat, stride: nat, a: nat, b: nat, entrySize: nat)
    requires a <= b
    ensures OffsetOf(i, stride, b, entrySize) == OffsetOf(i, stride, a, entrySize) + Extent(b - a, entrySize)
  {
    assert b * entrySize == a * entrySize + (b - a) * entrySize;
  }

  // ---------------------------------------------------------------- training data

  /** The model was trained on the user keys of the table, position by position. */
  ghost predicate TrainedOnTable(keys: seq<nat>, blocks: seq<seq<Raw>>, n: nat, keySize: nat) {
    && n > 0 && AllWellFormed(blocks, keySize)
    && (forall k: nat, j: nat :: InTable(blocks, k, j) ==>
          Position(k, n, j) < |keys| && keys[Position(k, n, j)] == User(blocks[k][j], keySize))
    && (forall p: nat :: p < |keys| ==> InTable(blocks, p / n, p % n))
  }

  function BlockStart(k: nat, stride: nat): nat {
    k * stride
  }

  lemma KeyIsTrained(keys: seq<nat>, blocks: seq<seq<Raw>>, n: nat, keySize: nat, k: nat, j: nat)
    requires TrainedOnTable(keys, blocks, n, keySize) && InTable(blocks, k, j)
    ensures Position(k, n, j) < |keys| && keys[Position(k, n, j)] == User(blocks[k][j], keySize)
  {
  }

  lemma TableWellFormed(keys: seq<nat>, blocks: seq<seq<Raw>>, n: nat, keySize: nat)
    requires TrainedOnTable(keys, blocks, n, keySize)
    ensures n > 0 && AllWellFormed(blocks, keySize)
  {
  }

  lemma PositionInTable(keys: seq<nat>, blocks: seq<seq<Raw>>, n: nat, keySize: nat, k: nat, j: nat)
    requires TrainedOnTable(keys, blocks, n, keySize) && j < n && Position(k, n, j) < |keys|
    ensures InTable(blocks, k, j)
  {
    DivMod(Position(k, n, j), n, k, j);
  }

  method UserNumber(key: Bytes, keySize: nat) returns (r: nat)
    requires WellFormed(key, keySize) && Number(key[..keySize]) < TWO_64
    ensures r == KeyOf(key, keySize).user
  {
    r := SliceToInteger(key[..keySize]);
  }

  /** The index key decides rightly between the two blocks of the range. */
  lemma RightBlock(blocks: seq<seq<Raw>>, keySize: nat, snapshot: nat, n: nat, k0: nat, j0: nat, k1: nat, j1: nat,
                   k: nat, j: nat)
    requires n > 0 && Even(blocks, n) && UsersIncrease(blocks, keySize, snapshot) && InTable(blocks, k, j)
    requires j0 < n && j1 < n && k1 < |blocks| && k1 <= k0 + 1
    requires Position(k0, n, j0) <= Position(k, n, j) <= Position(k1, n, j1)
    ensures k0 <= k <= k1 && j < n && (k == k0 ==> j0 <= j) && (k == k1 ==> j <= j1)
    ensures k0 < k1 ==> |blocks[k0]| == n
    ensures k0 < k1 ==> (k == k0 <==> User(blocks[k][j], keySize) <= User(blocks[k0][n - 1], keySize))
  {
    hide WellFormed, KeyOf, Position;
    PositionOrder(k0, j0, k, j, n);
    PositionOrder(k, j, k1, j1, n);
    if k0 < k1 {
      assert InTable(blocks, k0, n - 1);
    }
  }

  /** Which of the two blocks of the range to read: the key of the index entry of the
      first, its last key, decides. */
  method ChooseBlock(indexBlock: Bytes, indexLower: nat, indexUpper: nat, key: Bytes, ghost file: Bytes,
                     ghost g: Geometry, ghost index: seq<Raw>, ghost blocks: seq<seq<Raw>>, ghost keySize: nat,
                     ghost user: nat, ghost snapshot: nat)
    returns (i: nat)
    requires Laid(file, indexBlock, index, blocks, g) && UsersIncrease(blocks, keySize, snapshot)
    requires AllWellFormed(blocks, keySize)
    requires WellFormed(key, keySize) && KeyOf(key, keySize) == LookupKey(user, snapshot)
    requires indexLower <= indexUpper < |blocks|
    ensures i == indexLower || i == indexUpper
    ensures indexLower < indexUpper ==>
      |blocks[indexLower]| == g.numEntries > 0 && InTable(blocks, indexLower, g.numEntries - 1)
    ensures indexLower < indexUpper ==>
      (i == indexLower <==> user <= User(blocks[indexLower][g.numEntries - 1], keySize))
  {
    hide Laid, UsersIncrease, WellFormed, KeyOf, CompareStored;
    LaidFacts(file, indexBlock, index, blocks, g);
    i := indexLower;
    if indexLower != indexUpper {
      var restartOffset := RestartOffset(indexBlock, index, 1);
      var mid := IndexEntry(indexBlock, restartOffset, indexLower, index);
      MidKey(file, indexBlock, index, blocks, g, indexLower);
      BlockFacts(blocks, keySize, snapshot, indexLower);
      ComparesByUser(mid.key, key, keySize, user, snapshot);
      i := if CompareStored(mid.key, key) < 0 then indexUpper else indexLower;
    }
  }

  /** The part of LevelRead that reads the positions `lower` to `upper`. */
  method ReadRange(file: Bytes, indexBlock: Bytes, g: Geometry, key: Bytes, lower: nat, upper: nat,
                   mayMatch: nat -> bool, ghost index: seq<Raw>, ghost blocks: seq<seq<Raw>>, ghost keySize: nat,
                   ghost user: nat, ghost snapshot: nat, ghost keys: seq<nat>)
    returns (r: Option<Raw>)
    requires Laid(file, indexBlock, index, blocks, g) && UsersIncrease(blocks, keySize, snapshot)
    requires WellFormed(key, keySize) && KeyOf(key, keySize) == LookupKey(user, snapshot)
    requires TrainedOnTable(keys, blocks, g.numEntries, keySize) && lower <= upper < |keys|
    requires upper - lower <= g.numEntries
    requires forall k: nat, j: nat :: InTable(blocks, k, j) && User(blocks[k][j], keySize) == user ==>
      lower <= Position(k, g.numEntries, j) <= upper && mayMatch(BlockStart(k, g.blockSize))
    ensures forall k: nat, j: nat :: InTable(blocks, k, j) && User(blocks[k][j], keySize) == user ==>
      r == Some(blocks[k][j])
    ensures r.Some? ==> exists k: nat, j: nat ::
      InTable(blocks, k, j) && r.value == blocks[k][j] && mayMatch(BlockStart(k, g.blockSize))
  {
    hide Laid, UsersIncrease, WellFormed, KeyOf, TrainedOnTable, BlockStart, Position, IndexBlock, AllWellFormed;
    LaidFacts(file, indexBlock, index, blocks, g);
    var n := g.numEntries;
    var indexLower, placeLower := SplitPosition(lower, n);
    var indexUpper, placeUpper := SplitPosition(upper, n);
    PositionInTable(keys, blocks, n, keySize, indexLower, placeLower);
    PositionInTable(keys, blocks, n, keySize, indexUpper, placeUpper);
    PositionNear(indexLower, placeLower, indexUpper, placeUpper, n);
    PositionOrder(indexLower, placeLower, indexUpper, placeUpper, n);
    TableWellFormed(keys, blocks, n, keySize);
    var i := ChooseBlock(indexBlock, indexLower, indexUpper, key, file, g, index, blocks, keySize, user, snapshot);
    var low := if i == indexLower then placeLower else 0;
    var high := if i == indexUpper then placeUpper else n - 1;
    forall k: nat, j: nat | InTable(blocks, k, j) && User(blocks[k][j], keySize) == user
      ensures k == i && low <= j <= high
    {
      RightBlock(blocks, keySize, snapshot, n, indexLower, placeLower, indexUpper, placeUpper, k, j);
    }
    if !mayMatch(BlockStart(i, g.blockSize)) {
      return None;
    }
    r := ReadPart(file, g, key, i, low, high, indexBlock, index, blocks, keySize, user, snapshot);
  }

  /** The read of the positions `low` to `high` of block `i`, and the search in them. */
  method ReadPart(file: Bytes, g: Geometry, key: Bytes, i: nat, low: nat, high: nat, ghost indexBlock: Bytes,
                  ghost index: seq<Raw>, ghost blocks: seq<seq<Raw>>, ghost keySize: nat, ghost user: nat,
                  ghost snapshot: nat)
    returns (r: Option<Raw>)
    requires Laid(file, indexBlock, index, blocks, g) && UsersIncrease(blocks, keySize, snapshot)
    requires AllWellFormed(blocks, keySize)
    requires WellFormed(key, keySize) && KeyOf(key, keySize) == LookupKey(user, snapshot)
    requires i < |blocks| && low <= high < |blocks[i]|
    ensures r.Some? && exists j: nat :: InTable(blocks, i, j) && r.value == blocks[i][j]
    ensures forall j: nat :: InTable(blocks, i, j) && low <= j <= high && User(blocks[i][j], keySize) == user ==>
      r == Some(blocks[i][j])
  {
    hide Laid, UsersIncrease, WellFormed, KeyOf, OffsetOf, Extent;
    ReadCovers(file, indexBlock, index, blocks, g, i, low, high);
    BlockFacts(blocks, keySize, snapshot, i);
    var (o, size) := (OffsetOf(i, g.blockSize, low, g.entrySize), Extent(high - low + 1, g.entrySize));
    var e := SearchBlock(file[o..o + size], low, high, g.entrySize, key, blocks[i], keySize, user, snapshot);
    ghost var left :| 0 <= left < |blocks[i]| && e == blocks[i][left];
    assert InTable(blocks, i, left);
    r := Some(e);
  }

  lemma LaidFacts(file: Bytes, indexBlock: Bytes, index: seq<Raw>, blocks: seq<seq<Raw>>, g: Geometry)
    requires Laid(file, indexBlock, index, blocks, g)
    ensures g.numEntries > 0 && Even(blocks, g.numEntries) && |index| == |blocks| && IndexBlock(indexBlock, index)
    ensures index != [] ==> NumRestarts(|index|, 1) < TWO_32
  {
    hide OffsetOf, EntryIs, Uniform, BlockBytes, Data;
  }

  lemma MidKey(file: Bytes, indexBlock: Bytes, index: seq<Raw>, blocks: seq<seq<Raw>>, g: Geometry, k: nat)
    requires Laid(file, indexBlock, index, blocks, g) && k + 1 < |blocks|
    ensures |blocks[k]| == g.numEntries && |index| == |blocks| && index[k].key == blocks[k][g.numEntries - 1].key
  {
    hide OffsetOf, EntryIs, IndexBlock, Uniform, Storable;
  }

  lemma BlockFacts(blocks: seq<seq<Raw>>, keySize: nat, snapshot: nat, k: nat)
    requires UsersIncrease(blocks, keySize, snapshot) && k < |blocks|
    ensures AllWellFormed(blocks, keySize)
    ensures forall j :: 0 <= j < |blocks[k]| ==>
      WellFormed(blocks[k][j].key, keySize) && KeyOf(blocks[k][j].key, keySize).seqno <= snapshot
    ensures forall i, j :: 0 <= i < j < |blocks[k]| ==> User(blocks[k][i], keySize) < User(blocks[k][j], keySize)
  {
    hide WellFormed, KeyOf;
    assert forall j: nat :: j < |blocks[k]| ==> InTable(blocks, k, j);
  }

  /** TableCache::LevelRead, through the model of the file.  `mayMatch` stands for
      the filter of the block at an offset. */
  method LevelRead(file: Bytes, indexBlock: Bytes, g: Geometry, key: Bytes, model: LearnedIndex.LearnedIndexData,
                   mayMatch: nat -> bool, ghost index: seq<Raw>, ghost blocks: seq<seq<Raw>>, keySize: nat,
                   ghost snapshot: nat)
    returns (r: Option<Raw>)
    requires Laid(file, indexBlock, index, blocks, g) && UsersIncrease(blocks, keySize, snapshot)
    requires WellFormed(key, keySize) && KeyOf(key, keySize) == LookupKey(KeyOf(key, keySize).user, snapshot)
    requires Number(key[..keySize]) < TWO_64
    requires model.Valid() && model.learned && !model.isLevel && 2 * model.error + 1 <= g.numEntries
    requires TrainedOnTable(model.trainedOn, blocks, g.numEntries, keySize)
    requires forall k: nat, j: nat ::
      InTable(blocks, k, j) && User(blocks[k][j], keySize) == KeyOf(key, keySize).user ==>
      mayMatch(BlockStart(k, g.blockSize))
    modifies model`served
    ensures model.served == old(model.served) + 1
    ensures forall k: nat, j: nat ::
      InTable(blocks, k, j) && User(blocks[k][j], keySize) == KeyOf(key, keySize).user ==>
      r == Some(blocks[k][j])
    ensures r.Some? ==> exists k: nat, j: nat ::
      InTable(blocks, k, j) && r.value == blocks[k][j] && mayMatch(BlockStart(k, g.blockSize))
  {
    hide Laid, UsersIncrease, WellFormed, KeyOf, TrainedOnTable, BlockStart, Position;
    ghost var user := KeyOf(key, keySize).user;
    var n := g.numEntries;
    TableWellFormed(model.trainedOn, blocks, n, keySize);
    var target := UserNumber(key, keySize);
    var lower, upper := model.GetPosition(target);
    forall k: nat, j: nat | InTable(blocks, k, j) && User(blocks[k][j], keySize) == user
      ensures lower <= Position(k, n, j) <= upper < model.size
    {
      KeyIsTrained(model.trainedOn, blocks, n, keySize, k, j);
    }
    if lower > model.size - 1 {
      return None;
    }
    r := ReadRange(file, indexBlock, g, key, lower, upper, mayMatch, index, blocks, keySize, user, snapshot,
                   model.trainedOn);
  }

  // ---------------------------------------------------------------- FillData

  ghost predicate Numeric(e: Raw, keySize: nat) {
    WellFormed(e.key, keySize) && Number(e.key[..keySize]) < TWO_64 && Storable(e)
  }

  ghost predicate Readable(block: Bytes, entries: seq<Raw>, interval: nat, keySize: nat) {
    && interval > 0 && block == BlockBytes(entries, interval) && NumRestarts(|entries|, interval) < TWO_32
    && forall j :: 0 <= j < |entries| ==> Numeric(entries[j], keySize)
  }

  /** The inner loop of FillData: the user keys of a block, parsed entry by entry, and
      where its restart array starts. */
  method FillBlock(block: Bytes, keySize: nat, ghost entries: seq<Raw>, ghost interval: nat)
    returns (keys: seq<nat>, restarts: nat)
    requires Readable(block, entries, interval, keySize)
    ensures |keys| == |entries| && restarts == |Data(entries)|
    ensures forall j :: 0 <= j < |entries| ==>
      WellFormed(entries[j].key, keySize) && keys[j] == User(entries[j], keySize)
  {
    hide Data, EncodeEntry, WellFormed, KeyOf, ParseEntry, BlockBytes;
    restarts := RestartOffset(block, entries, interval);
    DataIsFirst(block, entries, interval);
    keys := [];
    var current := 0;
    ghost var i := 0;
    EmptyPrefix(entries);
    while current < restarts
      invariant 0 <= i <= |entries| && |keys| == i && current == |Data(entries[..i])|
      invariant current < restarts <==> i < |entries|
      invariant forall j :: 0 <= j < i ==> keys[j] == User(entries[j], keySize)
      decreases |entries| - i
    {
      var e, next := ReadEntry(block, current, restarts, entries, i);
      var number := UserNumber(e.key, keySize);
      keys := keys + [number];
      current, i := next, i + 1;
    }
  }

  /** Table::FillData: the user keys of a table, appended to the training keys of a model
      that was not filled before, and the geometry, recorded once from the first block seen. */
  method FillData(model: LearnedIndex.LearnedIndexData, filled: bool, file: Bytes, indexBlock: Bytes, keySize: nat,
                  recorded: Option<Geometry>, ghost crc: Checksum, ghost interval: nat, ghost blocks: seq<seq<Raw>>,
                  ghost n: nat, ghost entrySize: nat)
    returns (ghost added: seq<nat>, g: Option<Geometry>)
    requires interval > 0 && blocks != [] && n > 0 && Even(blocks, n) && AllUniform(blocks, entrySize)
    requires TableBytes(crc, interval, blocks) <= file && |file| < TWO_64
    requires IndexBlock(indexBlock, IndexEntries(crc, interval, blocks))
    requires forall k :: 0 <= k < |blocks| ==> Readable(BlockBytes(blocks[k], interval), blocks[k], interval, keySize)
    modifies model`stringKeys
    ensures model.stringKeys == old(model.stringKeys) + added
    ensures filled ==> added == [] && g == recorded
    ensures !filled ==> TrainedOnTable(added, blocks, n, keySize)
    ensures recorded.Some? ==> g == recorded
    ensures !filled && recorded.None? && |blocks[0]| == n ==>
      g == Some(Geometry(n, Stride(n, entrySize, interval), entrySize))
  {
    hide WellFormed, KeyOf, Position, BlockBytes, Data, Uniform, Number, NumRestarts, TableBytes, IndexEntries,
         Readable;
    added, g := [], recorded;
    if filled {
      return;
    }
    var restarts := RestartOffset(indexBlock, IndexEntries(crc, interval, blocks), 1) by {
      IndexFits(indexBlock, IndexEntries(crc, interval, blocks));
    }
    var numRestarts := NumIndexEntries(indexBlock, IndexEntries(crc, interval, blocks));
    for k := 0 to numRestarts
      invariant model.stringKeys == old(model.stringKeys) + added && |added| == Filled(blocks, n, k)
      invariant forall m: nat, j: nat :: InTable(blocks, m, j) && m < k ==> KeyAt(added, blocks, n, keySize, m, j)
      invariant k == 0 ==> g == recorded
      invariant recorded.Some? ==> g == recorded
      invariant k > 0 && recorded.None? && |blocks[0]| == n ==>
        g == Some(Geometry(n, Stride(n, entrySize, interval), entrySize))
    {
      var entry := IndexEntry(indexBlock, restarts, k, IndexEntries(crc, interval, blocks));
      var _, block := ReadBlock(file, entry.value, crc, interval, blocks, k);
      var found, size := FillBlock(block, keySize, blocks[k], interval);
      FilledStep(blocks, n, k);
      if g.None? {
        Recorded(block, blocks[k], entrySize, interval);
        g := Some(Geometry(|found|, |block| + TRAILER_SIZE, size / |found|));
      }
      KeysAppended(added, found, blocks, n, keySize, k);
      model.stringKeys, added := model.stringKeys + found, added + found;
    }
    AllFilled(added, blocks, n, keySize);
  }

  lemma IndexFits(block: Bytes, index: seq<Raw>)
    requires IndexBlock(block, index)
    ensures block == BlockBytes(index, 1) && NumRestarts(|index|, 1) == |index| < TWO_32
  {
  }

  /** The number of restart points of the index block, one for each entry. */
  method NumIndexEntries(block: Bytes, ghost index: seq<Raw>) returns (n: nat)
    requires IndexBlock(block, index)
    ensures n == |index|
  {
    IndexFits(block, index);
    RestartsCounted(block, index, 1);
    n := DecodeFixed(block[|block| - 4..]);
  }

  ghost predicate KeyAt(keys: seq<nat>, blocks: seq<seq<Raw>>, n: nat, keySize: nat, k: nat, j: nat)
    requires InTable(blocks, k, j)
  {
    Position(k, n, j) < |keys| && WellFormed(blocks[k][j].key, keySize)
      && keys[Position(k, n, j)] == User(blocks[k][j], keySize)
  }

  lemma KeysAppended(keys: seq<nat>, found: seq<nat>, blocks: seq<seq<Raw>>, n: nat, keySize: nat, k: nat)
    requires k < |blocks| && Even(blocks, n) && |keys| == Filled(blocks, n, k) && |found| == |blocks[k]|
    requires forall m: nat, j: nat :: InTable(blocks, m, j) && m < k ==> KeyAt(keys, blocks, n, keySize, m, j)
    requires forall j :: 0 <= j < |found| ==>
      WellFormed(blocks[k][j].key, keySize) && found[j] == User(blocks[k][j], keySize)
    ensures forall m: nat, j: nat :: InTable(blocks, m, j) && m < k + 1 ==>
      KeyAt(keys + found, blocks, n, keySize, m, j)
  {
    hide WellFormed, KeyOf, Position, Filled;
    forall m: nat, j: nat | InTable(blocks, m, j) && m < k + 1
      ensures KeyAt(keys + found, blocks, n, keySize, m, j)
    {
      if m == k { PositionInBlock(blocks, n, k, j); }
    }
  }

  /** How many keys the first `k` blocks hold. */
  ghost function Filled(blocks: seq<seq<Raw>>, n: nat, k: nat): nat
    requires k <= |blocks|
  {
    if k == 0 then 0 else Position(k - 1, n, |blocks[k - 1]|)
  }

  lemma FilledStep(blocks: seq<seq<Raw>>, n: nat, k: nat)
    requires k < |blocks| && Even(blocks, n)
    ensures Filled(blocks, n, k + 1) == Filled(blocks, n, k) + |blocks[k]| && |blocks[k]| > 0
  {
  }

  lemma PositionInBlock(blocks: seq<seq<Raw>>, n: nat, k: nat, j: nat)
    requires k < |blocks| && Even(blocks, n)
    ensures Position(k, n, j) == Filled(blocks, n, k) + j
  {
  }

  lemma Recorded(image: Bytes, b: seq<Raw>, entrySize: nat, interval: nat)
    requires interval > 0 && image == BlockBytes(b, interval) && Uniform(b, entrySize) && b != []
    ensures |image| == EstimateOf(|b|, entrySize, interval) && |Data(b)| / |b| == entrySize
  {
    hide BlockBytes, Data, Uniform, NumRestarts;
    BlockLength(b, interval);
    DataLength(b, entrySize);
    DivMod(|Data(b)|, |b|, entrySize, 0);
  }

  lemma AllFilled(keys: seq<nat>, blocks: seq<seq<Raw>>, n: nat, keySize: nat)
    requires n > 0 && blocks != [] && Even(blocks, n) && |keys| == Filled(blocks, n, |blocks|)
    requires forall m: nat, j: nat :: InTable(blocks, m, j) ==> KeyAt(keys, blocks, n, keySize, m, j)
    ensures TrainedOnTable(keys, blocks, n, keySize)
  {
    hide WellFormed, KeyOf;
    forall p: nat | p < |keys|
      ensures InTable(blocks, p / n, p % n)
    {
      PlaceOf(blocks, n, p);
    }
  }

  lemma PlaceOf(blocks: seq<seq<Raw>>, n: nat, p: nat)
    requires n > 0 && blocks != [] && Even(blocks, n) && p < Filled(blocks, n, |blocks|)
    ensures InTable(blocks, p / n, p % n)
  {
    var (k, j, last) := (p / n, p % n, |blocks| - 1);
    assert p == k * n + j;
    if last < k { MulMonotone(last + 1, k, n); }
  }

  // ---------------------------------------------------------------- agreement with the baseline

  /** The blocks' entries are in order, each user key once. */
  ghost predicate InOrder(bs: seq<seq<Entry>>) {
    forall k, j, k', j' :: 0 <= k <= k' < |bs| && 0 <= j < |bs[k]| && 0 <= j' < |bs[k']| && (k < k' || j < j') ==>
      bs[k][j].key.user < bs[k'][j'].key.user
  }

  lemma {:induction false} ConcatMembers(bs: seq<seq<Entry>>, e: Entry)
    ensures e in Concat(bs) <==> exists k, j :: 0 <= k < |bs| && 0 <= j < |bs[k]| && bs[k][j] == e
  {
    if bs != [] {
      ConcatMembers(bs[1..], e);
      if k, j :| 0 <= k < |bs[1..]| && 0 <= j < |bs[1..][k]| && bs[1..][k][j] == e {
        assert bs[k + 1][j] == e;
      }
      if k, j :| 0 <= k < |bs| && 0 <= j < |bs[k]| && bs[k][j] == e && k > 0 {
        assert bs[1..][k - 1][j] == e;
      }
    }
  }

  lemma TailInOrder(bs: seq<seq<Entry>>)
    requires bs != [] && InOrder(bs)
    ensures InOrder(bs[1..])
  {
    var rest: seq<seq<Entry>> := bs[1..];
    forall k, j, k', j' | 0 <= k <= k' < |rest| && 0 <= j < |rest[k]| && 0 <= j' < |rest[k']| && (k < k' || j < j')
      ensures rest[k][j].key.user < rest[k'][j'].key.user
    {
      assert rest[k] == bs[k + 1] && rest[k'] == bs[k' + 1];
    }
  }

  lemma FirstBeforeRest(bs: seq<seq<Entry>>, i: nat, m: nat)
    requires bs != [] && InOrder(bs) && i < |bs[0]| && m < |Concat(bs[1..])|
    ensures bs[0][i].key.user < Concat(bs[1..])[m].key.user
  {
    hide Concat;
    var rest: seq<seq<Entry>> := bs[1..];
    ConcatMembers(rest, Concat(rest)[m]);
    var k, j :| 0 <= k < |rest| && 0 <= j < |rest[k]| && rest[k][j] == Concat(rest)[m];
    assert bs[k + 1] == rest[k];
  }

  lemma {:induction false} ConcatSorted(bs: seq<seq<Entry>>)
    requires InOrder(bs)
    ensures Sorted(Concat(bs))
  {
    if bs != [] {
      TailInOrder(bs);
      ConcatSorted(bs[1..]);
      var first: seq<Entry>, rest: seq<Entry> := bs[0], Concat(bs[1..]);
      forall i: nat, m: nat | i < |first| && m < |rest|
        ensures first[i].key.user < rest[m].key.user
      {
        FirstBeforeRest(bs, i, m);
      }
      SortedJoin(first, rest) by { FirstSorted(bs); }
    }
  }

  lemma FirstSorted(bs: seq<seq<Entry>>)
    requires bs != [] && InOrder(bs)
    ensures Sorted(bs[0])
  {
  }

  lemma SortedJoin(a: seq<Entry>, b: seq<Entry>)
    requires Sorted(a) && Sorted(b) && forall i: nat, m: nat :: i < |a| && m < |b| ==> a[i].key.user < b[m].key.user
    ensures Sorted(a + b)
  {
  }

  lemma BlocksInOrder(blocks: seq<seq<Raw>>, keySize: nat, snapshot: nat)
    requires UsersIncrease(blocks, keySize, snapshot)
    ensures InOrder(AsBlocks(blocks, keySize))
  {
    hide WellFormed, KeyOf;
    var bs: seq<seq<Entry>> := AsBlocks(blocks, keySize);
    forall k: nat, j: nat, k': nat, j': nat | k <= k' < |bs| && j < |bs[k]| && j' < |bs[k']| && (k < k' || j < j')
      ensures bs[k][j].key.user < bs[k'][j'].key.user
    {
      AsBlocksLength(blocks, keySize, k);
      AsBlocksLength(blocks, keySize, k');
      assert InTable(blocks, k, j) && InTable(blocks, k', j');
    }
  }

  /** What LevelRead hands on, filtered by user key, is what the baseline finds. */
  lemma LevelReadAgrees(blocks: seq<seq<Raw>>, keySize: nat, snapshot: nat, user: nat, r: Option<Raw>)
    requires UsersIncrease(blocks, keySize, snapshot)
    requires forall k: nat, j: nat :: InTable(blocks, k, j) && User(blocks[k][j], keySize) == user ==>
      r == Some(blocks[k][j])
    requires r.Some? ==> exists k: nat, j: nat :: InTable(blocks, k, j) && r.value == blocks[k][j]
    ensures r.Some? ==> WellFormed(r.value.key, keySize)
    ensures TableGet(Concat(AsBlocks(blocks, keySize)), user, snapshot) ==
      if r.Some? && User(r.value, keySize) == user then Some(AsEntry(r.value, keySize)) else None
  {
    hide WellFormed, KeyOf, TableGet, Concat, Sorted;
    var bs := AsBlocks(blocks, keySize);
    BlocksInOrder(blocks, keySize, snapshot);
    ConcatSorted(bs);
    var landed: Option<Entry> := None;
    if r.Some? {
      var k: nat, j: nat :| InTable(blocks, k, j) && r.value == blocks[k][j];
      landed := Some(AsEntry(r.value, keySize));
      assert bs[k][j] == landed.value;
      ConcatMembers(bs, landed.value);
    }
    forall e <- Concat(bs)
      ensures e.key.seqno <= snapshot && (e.key.user == user ==> landed == Some(e))
    {
      ConcatMembers(bs, e);
      var k: nat, j: nat :| k < |bs| && j < |bs[k]| && bs[k][j] == e;
      AsBlocksLength(blocks, keySize, k);
      assert InTable(blocks, k, j);
    }
    AgreesWithBaseline(Concat(bs), user, snapshot, landed);
  }
}

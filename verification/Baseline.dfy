/**
 The baseline lookup in a table (table/table.cc: InternalGet; table/block.h:
 Block::Iter::Seek), which the learned read must agree with.
 */
module Baseline {
  import opened Format
  import opened Coding
  import opened Keys
  import opened Log
  import opened Table
  import opened BlockRead
  import opened Version

  // ---------------------------------------------------------------- a table of blocks

  ghost function Concat(blocks: seq<seq<Entry>>): seq<Entry> {
    if blocks == [] then [] else blocks[0] + Concat(blocks[1..])
  }

  ghost predicate NoneEmpty(blocks: seq<seq<Entry>>) {
    forall k :: 0 <= k < |blocks| ==> blocks[k] != []
  }

  /** What the index block and one block give is what the whole table gives. */
  lemma {:induction false} BlockwiseSeek(blocks: seq<seq<Entry>>, k: nat, target: InternalKey)
    requires Sorted(Concat(blocks)) && NoneEmpty(blocks) && k <= |blocks|
    requires forall m :: 0 <= m < k ==> Compare(blocks[m][|blocks[m]| - 1].key, target) < 0
    requires k < |blocks| ==> Compare(blocks[k][|blocks[k]| - 1].key, target) >= 0
    ensures var i := SeekIndex(Concat(blocks), target);
      if k == |blocks| then i == |Concat(blocks)|
      else
        var j := SeekIndex(blocks[k], target);
        j < |blocks[k]| && i < |Concat(blocks)| && Concat(blocks)[i] == blocks[k][j]
    ensures k < |blocks| ==> Sorted(blocks[k])
  {
    hide Compare;
    if blocks != [] {
      var (first, rest) := (blocks[0], Concat(blocks[1..]));
      SortedParts(first, rest);
      if k == 0 {
        var j := SeekIndex(first, target);
        SeekUnique(first + rest, target, j);
      } else {
        assert forall m :: 0 <= m < k - 1 ==> blocks[1..][m] == blocks[m + 1];
        BlockwiseSeek(blocks[1..], k - 1, target);
        EarlierAreBelow(first, |first| - 1, target);
        SeekUnique(first + rest, target, |first| + SeekIndex(rest, target));
      }
    }
  }

  lemma SortedParts(a: seq<Entry>, b: seq<Entry>)
    requires Sorted(a + b)
    ensures Sorted(a) && Sorted(b)
  {
    hide Compare;
    forall i, j | 0 <= i < j < |a| ensures Compare(a[i].key, a[j].key) < 0 {
      assert (a + b)[i] == a[i] && (a + b)[j] == a[j];
    }
    forall i, j | 0 <= i < j < |b| ensures Compare(b[i].key, b[j].key) < 0 {
      assert (a + b)[|a| + i] == b[i] && (a + b)[|a| + j] == b[j];
    }
  }

  // ---------------------------------------------------------------- a table as bytes

  ghost predicate InTable(blocks: seq<seq<Raw>>, k: nat, j: nat) {
    k < |blocks| && j < |blocks[k]|
  }

  ghost predicate AllStorable(blocks: seq<seq<Raw>>) {
    forall k: nat, j: nat :: InTable(blocks, k, j) ==> Storable(blocks[k][j])
  }

  ghost predicate AllWellFormed(blocks: seq<seq<Raw>>, keySize: nat) {
    forall k: nat, j: nat :: InTable(blocks, k, j) ==> WellFormed(blocks[k][j].key, keySize)
  }

  ghost function User(e: Raw, keySize: nat): nat
    requires WellFormed(e.key, keySize)
  {
    KeyOf(e.key, keySize).user
  }

  ghost function AsBlocks(blocks: seq<seq<Raw>>, keySize: nat): (r: seq<seq<Entry>>)
    requires AllWellFormed(blocks, keySize)
    ensures |r| == |blocks|
    ensures forall k: nat, j: nat :: InTable(blocks, k, j) ==>
      |r[k]| == |blocks[k]| && r[k][j] == AsEntry(blocks[k][j], keySize)
  {
    hide WellFormed;
    assert forall k: nat, j: nat :: k < |blocks| && j < |blocks[k]| ==> InTable(blocks, k, j);
    seq(|blocks|, k requires 0 <= k < |blocks| => AsBlock(blocks[k], keySize))
  }

  lemma AsBlocksLength(blocks: seq<seq<Raw>>, keySize: nat, k: nat)
    requires AllWellFormed(blocks, keySize) && k < |blocks|
    ensures |AsBlocks(blocks, keySize)[k]| == |blocks[k]|
  {
  }

  lemma {:induction false} IndexKeys(crc: Checksum, interval: nat, blocks: seq<seq<Raw>>, k: nat)
    requires interval > 0 && k < |blocks|
    ensures IndexEntries(crc, interval, blocks)[k].key == LastKey(blocks[k])
  {
    hide TableBytes, BlockBytes;
    if k < |blocks| - 1 {
      IndexKeys(crc, interval, blocks[..|blocks| - 1], k);
    }
  }

  /** Every block fits the widths of its restart array and handle. */
  ghost predicate FitsWidths(entries: seq<Raw>, interval: nat)
    requires interval > 0
  {
    && NumRestarts(|entries|, interval) < TWO_32 && |Data(entries)| < TWO_32
    && forall j :: 0 <= j < |entries| ==> Storable(entries[j])
  }

  /** The file starts with the blocks that a table builder wrote, in order, and the
      index block is theirs. */
  ghost predicate StoredTable(file: Bytes, indexBlock: Bytes, crc: Checksum, interval: nat, blocks: seq<seq<Raw>>,
                              keySize: nat) {
    && interval > 0 && blocks != [] && TableBytes(crc, interval, blocks) <= file && |file| < TWO_64
    && indexBlock == BlockBytes(IndexEntries(crc, interval, blocks), 1)
    && FitsWidths(IndexEntries(crc, interval, blocks), 1)
    && (forall k :: 0 <= k < |blocks| ==> blocks[k] != [] && FitsWidths(blocks[k], interval))
    && AllWellFormed(blocks, keySize) && Sorted(Concat(AsBlocks(blocks, keySize)))
  }

  lemma {:induction false} LastsSorted(bs: seq<seq<Entry>>, k: nat, m: nat)
    requires Sorted(Concat(bs)) && NoneEmpty(bs) && k < m < |bs|
    ensures Compare(bs[k][|bs[k]| - 1].key, bs[m][|bs[m]| - 1].key) < 0
  {
    hide Compare;
    var (first, rest) := (bs[0], Concat(bs[1..]));
    SortedParts(first, rest);
    if k > 0 {
      LastsSorted(bs[1..], k - 1, m - 1);
    } else {
      var i := LastIn(bs[1..], m - 1);
      assert (first + rest)[|first| - 1] == first[|first| - 1] && (first + rest)[|first| + i] == rest[i];
    }
  }

  lemma {:induction false} LastIn(bs: seq<seq<Entry>>, m: nat) returns (i: nat)
    requires NoneEmpty(bs) && m < |bs|
    ensures i < |Concat(bs)| && Concat(bs)[i] == bs[m][|bs[m]| - 1]
  {
    if m == 0 {
      i := |bs[0]| - 1;
    } else {
      i := LastIn(bs[1..], m - 1);
      i := |bs[0]| + i;
    }
  }

  lemma NoneEmptyAsBlocks(blocks: seq<seq<Raw>>, keySize: nat)
    requires AllWellFormed(blocks, keySize) && forall k :: 0 <= k < |blocks| ==> blocks[k] != []
    ensures NoneEmpty(AsBlocks(blocks, keySize))
    ensures forall k :: 0 <= k < |blocks| ==>
      WellFormed(LastKey(blocks[k]), keySize) && |AsBlocks(blocks, keySize)[k]| == |blocks[k]|
      && AsBlocks(blocks, keySize)[k][|blocks[k]| - 1].key == KeyOf(LastKey(blocks[k]), keySize)
  {
    hide WellFormed, KeyOf;
    forall k | 0 <= k < |blocks|
      ensures WellFormed(LastKey(blocks[k]), keySize) && |AsBlocks(blocks, keySize)[k]| == |blocks[k]|
      ensures AsBlocks(blocks, keySize)[k][|blocks[k]| - 1].key == KeyOf(LastKey(blocks[k]), keySize)
    {
      AsBlocksLength(blocks, keySize, k);
      assert InTable(blocks, k, |blocks[k]| - 1);
    }
  }

  /** The index entries come in the order of the blocks. */
  lemma IndexIsSorted(file: Bytes, indexBlock: Bytes, crc: Checksum, interval: nat, blocks: seq<seq<Raw>>, keySize: nat)
    requires StoredTable(file, indexBlock, crc, interval, blocks, keySize)
    ensures SortedBlock(indexBlock, IndexEntries(crc, interval, blocks), 1, keySize)
    ensures forall k :: 0 <= k < |blocks| ==> WellFormed(IndexEntries(crc, interval, blocks)[k].key, keySize)
    ensures var es := AsBlock(IndexEntries(crc, interval, blocks), keySize);
      var bs := AsBlocks(blocks, keySize);
      NoneEmpty(bs) && forall k :: 0 <= k < |blocks| ==> es[k].key == bs[k][|bs[k]| - 1].key
  {
    hide WellFormed, KeyOf, Compare, IndexEntries, TableBytes, BlockBytes, Data, Concat;
    var index := IndexEntries(crc, interval, blocks);
    var bs := AsBlocks(blocks, keySize);
    NoneEmptyAsBlocks(blocks, keySize);
    forall k | 0 <= k < |index|
      ensures index[k].key == LastKey(blocks[k])
    {
      IndexKeys(crc, interval, blocks, k);
    }
    var es := AsBlock(index, keySize);
    forall i, j | 0 <= i < j < |es|
      ensures Compare(es[i].key, es[j].key) < 0
    {
      LastsSorted(bs, i, j);
    }
  }

  lemma {:induction false} IndexHandle(crc: Checksum, interval: nat, blocks: seq<seq<Raw>>, k: nat)
    requires interval > 0 && k < |blocks|
    ensures IndexEntries(crc, interval, blocks)[k].value
      == Handle(|TableBytes(crc, interval, blocks[..k])|, |BlockBytes(blocks[k], interval)|)
  {
    hide TableBytes, BlockBytes, Handle;
    var n := |blocks| - 1;
    if k < n {
      IndexHandle(crc, interval, blocks[..n], k);
      assert blocks[..n][..k] == blocks[..k];
    }
  }

  lemma {:induction false} BlockInFile(crc: Checksum, interval: nat, blocks: seq<seq<Raw>>, k: nat)
    requires interval > 0 && k < |blocks|
    ensures TableBytes(crc, interval, blocks[..k]) + BlockBytes(blocks[k], interval)
      <= TableBytes(crc, interval, blocks)
  {
    hide BlockBytes, Mask, Fixed;
    var n := |blocks| - 1;
    if k == n {
      var block := BlockBytes(blocks[n], interval);
      assert block <= BlockImage(crc, block);
    } else {
      BlockInFile(crc, interval, blocks[..n], k);
      assert blocks[..n][..k] == blocks[..k];
    }
  }

  /** BlockHandle::DecodeFrom. */
  method DecodeHandle(value: Bytes, ghost offset: nat, ghost size: nat) returns (o: nat, n: nat)
    requires value == Handle(offset, size) && offset < TWO_64 && size < TWO_64
    ensures o == offset && n == size
  {
    hide Varint, ParseVarint;
    Parse64RoundTrip(offset, Varint(size));
    Parse64RoundTrip(size, []);
    assert Varint(size) + [] == Varint(size);
    var first := GetVarint(value, 10, TWO_64);
    var second := GetVarint(first.value.1, 10, TWO_64);
    o, n := first.value.0, second.value.0;
  }

  /** The contents of the block that an index entry names. */
  method ReadBlock(file: Bytes, value: Bytes, ghost crc: Checksum, ghost interval: nat, ghost blocks: seq<seq<Raw>>,
                   ghost k: nat)
    returns (offset: nat, block: Bytes)
    requires interval > 0 && k < |blocks| && TableBytes(crc, interval, blocks) <= file && |file| < TWO_64
    requires value == IndexEntries(crc, interval, blocks)[k].value
    ensures offset == |TableBytes(crc, interval, blocks[..k])| && block == BlockBytes(blocks[k], interval)
  {
    hide TableBytes, BlockBytes, IndexEntries, Handle;
    IndexHandle(crc, interval, blocks, k);
    BlockInFile(crc, interval, blocks, k);
    ghost var (before, b) := (TableBytes(crc, interval, blocks[..k]), BlockBytes(blocks[k], interval));
    var o, n := DecodeHandle(value, |before|, |b|);
    offset, block := o, file[o..o + n];
    assert block == (before + b)[o..o + n];
  }

  lemma NoneOfUser(blocks: seq<seq<Raw>>, keySize: nat, user: nat, k: nat)
    requires AllWellFormed(blocks, keySize) && k < |blocks|
    requires forall j: nat :: InTable(blocks, k, j) ==> User(blocks[k][j], keySize) != user
    ensures forall e <- AsBlocks(blocks, keySize)[k] :: e.key.user != user
  {
    hide WellFormed, KeyOf;
    AsBlocksLength(blocks, keySize, k);
    forall e <- AsBlocks(blocks, keySize)[k] ensures e.key.user != user {
      var j :| 0 <= j < |blocks[k]| && AsBlocks(blocks, keySize)[k][j] == e;
      assert InTable(blocks, k, j);
    }
  }

  lemma OneBlockSorted(block: Bytes, blocks: seq<seq<Raw>>, interval: nat, keySize: nat, k: nat)
    requires AllWellFormed(blocks, keySize) && k < |blocks| && blocks[k] != [] && interval > 0
    requires FitsWidths(blocks[k], interval)
    requires block == BlockBytes(blocks[k], interval) && Sorted(AsBlocks(blocks, keySize)[k])
    ensures SortedBlock(block, blocks[k], interval, keySize)
    ensures AsBlocks(blocks, keySize)[k] == AsBlock(blocks[k], keySize)
  {
    hide WellFormed, Sorted, BlockBytes, Data;
    forall j | 0 <= j < |blocks[k]| ensures WellFormed(blocks[k][j].key, keySize) { assert InTable(blocks, k, j); }
    AsBlocksLength(blocks, keySize, k);
  }

  /** Table::InternalGet: the entry that the index block, the filter and one block lead to.
      `mayMatch` stands for the filters of the blocks by offset, which give no false negatives. */
  method InternalGet(file: Bytes, indexBlock: Bytes, key: Bytes, mayMatch: nat -> bool, ghost crc: Checksum,
                     ghost interval: nat, ghost blocks: seq<seq<Raw>>, ghost keySize: nat, ghost user: nat,
                     ghost snapshot: nat)
    returns (r: Option<Raw>)
    requires StoredTable(file, indexBlock, crc, interval, blocks, keySize)
    requires WellFormed(key, keySize) && KeyOf(key, keySize) == LookupKey(user, snapshot)
    requires forall k: nat, j: nat :: InTable(blocks, k, j) && User(blocks[k][j], keySize) == user ==>
      mayMatch(|TableBytes(crc, interval, blocks[..k])|)
    ensures r.Some? ==>
      && WellFormed(r.value.key, keySize)
      && exists k: nat, j: nat ::
        InTable(blocks, k, j) && r.value == blocks[k][j] && mayMatch(|TableBytes(crc, interval, blocks[..k])|)
    ensures TableGet(Concat(AsBlocks(blocks, keySize)), user, snapshot) ==
      if r.Some? && User(r.value, keySize) == user then Some(AsEntry(r.value, keySize)) else None
  {
    hide Compare, SeekIndex, Sorted, WellFormed, KeyOf, IndexEntries, TableBytes, BlockBytes, FitsWidths, Concat,
         SortedBlock;
    IndexIsSorted(file, indexBlock, crc, interval, blocks, keySize);
    ghost var (index, bs, target) := (IndexEntries(crc, interval, blocks), AsBlocks(blocks, keySize),
                                      LookupKey(user, snapshot));
    ghost var k := SeekIndex(AsBlock(index, keySize), target);
    BlockwiseSeek(bs, k, target);
    var entry := BlockSeek(indexBlock, key, index, 1, keySize);
    if entry.None? {
      return None;
    }
    var offset, block := ReadBlock(file, entry.value.value, crc, interval, blocks, k);
    AsBlocksLength(blocks, keySize, k);
    if !mayMatch(offset) {
      NoneOfUser(blocks, keySize, user, k);
      return None;
    }
    OneBlockSorted(block, blocks, interval, keySize, k);
    r := BlockSeek(block, key, blocks[k], interval, keySize);
    assert r.Some? ==> InTable(blocks, k, SeekIndex(bs[k], target));
  }

  /** A read that returns the one entry of its user key whenever there is one, and an
      entry of the table otherwise, answers as the baseline does. */
  lemma AgreesWithBaseline(entries: seq<Entry>, user: nat, snapshot: nat, r: Option<Entry>)
    requires Sorted(entries) && (forall e <- entries :: e.key.seqno <= snapshot)
    requires r.Some? ==> r.value in entries
    requires forall e <- entries :: e.key.user == user ==> r == Some(e)
    ensures TableGet(entries, user, snapshot) == if r.Some? && r.value.key.user == user then r else None
  {
    hide Sorted, TableGet;
    TableGetAnswers(entries, user, snapshot);
    var t := TableGet(entries, user, snapshot);
    if r.Some? && r.value.key.user == user {
      assert Candidate(r.value, Elements(entries), user, snapshot);
    }
  }
}

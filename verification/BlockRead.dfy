/**
 Reading blocks out of their bytes (table/block.cc, table/block.h): the restart
 array, entry after entry, and Block::Iter::Seek.
 */
module BlockRead {
  import opened Format
  import opened Coding
  import opened Keys
  import opened Log
  import opened Table
  import opened Version

  // ---------------------------------------------------------------- the restart array

  /** The index of a restart point. */
  function RestartEntry(t: nat, interval: nat): nat {
    t * interval
  }

  lemma RestartInBlock(t: nat, n: nat, interval: nat)
    requires n > 0 && interval > 0 && t < NumRestarts(n, interval)
    ensures RestartEntry(t, interval) < n
  {
    MulMonotone(t, (n - 1) / interval, interval);
  }

  /** Restart point `t` is the offset of entry `t * interval`. */
  lemma {:induction false} RestartsAre(entries: seq<Raw>, interval: nat, t: nat)
    requires interval > 0 && entries != [] && t < NumRestarts(|entries|, interval)
    ensures |RestartOffsets(entries, interval)| == NumRestarts(|entries|, interval)
    ensures RestartEntry(t, interval) < |entries|
    ensures RestartOffsets(entries, interval)[t] == |Data(entries[..RestartEntry(t, interval)])|
  {
    hide EncodeEntry, NumRestarts, RestartEntry;
    RestartCount(entries, interval);
    RestartInBlock(t, |entries|, interval);
    var n := |entries| - 1;
    var init := entries[..n];
    RestartCount(init, interval);
    if n == 0 {
      OneRestart(interval, t);
    } else if t < NumRestarts(n, interval) {
      RestartsAre(init, interval, t);
      assert init[..RestartEntry(t, interval)] == entries[..RestartEntry(t, interval)];
    } else {
      LastRestart(n, interval, t);
    }
  }

  lemma OneRestart(interval: nat, t: nat)
    requires interval > 0 && t < NumRestarts(1, interval)
    ensures t == 0 && RestartEntry(t, interval) == 0 && NumRestarts(1, interval) == NumRestarts(0, interval) == 1
  {
    DivMod(0, interval, 0, 0);
  }

  lemma LastRestart(n: nat, interval: nat, t: nat)
    requires interval > 0 && n > 0 && NumRestarts(n, interval) <= t < NumRestarts(n + 1, interval)
    ensures RestartEntry(t, interval) == n && n % interval == 0 && t == NumRestarts(n, interval)
  {
    DivStep(n, interval);
  }

  lemma {:induction false} RestartAt(restarts: seq<nat>, k: nat)
    requires k < |restarts|
    ensures 4 * k + 4 <= |EncodeRestarts(restarts)|
    ensures EncodeRestarts(restarts)[4 * k..4 * k + 4] == Fixed(restarts[k], 4)
  {
    hide Fixed;
    var n := |restarts| - 1;
    RestartsLength(restarts[..n]);
    if k < n {
      RestartAt(restarts[..n], k);
      assert EncodeRestarts(restarts)[4 * k..4 * k + 4] == EncodeRestarts(restarts[..n])[4 * k..4 * k + 4];
    }
  }

  lemma {:induction false} DataSplit(entries: seq<Raw>, k: nat) returns (tail: Bytes)
    requires k < |entries|
    ensures Data(entries) == Data(entries[..k]) + (EncodeEntry(entries[k]) + tail)
  {
    hide EncodeEntry;
    var n := |entries| - 1;
    if k == n {
      tail := [];
      assert EncodeEntry(entries[k]) + [] == EncodeEntry(entries[k]);
    } else {
      tail := DataSplit(entries[..n], k);
      assert entries[..n][..k] == entries[..k];
      assert Data(entries[..k]) + (EncodeEntry(entries[k]) + tail) + EncodeEntry(entries[n])
        == Data(entries[..k]) + (EncodeEntry(entries[k]) + (tail + EncodeEntry(entries[n])));
      tail := tail + EncodeEntry(entries[n]);
    }
  }

  /** The constructor of Block: where the restart array starts. */
  method RestartOffset(block: Bytes, ghost entries: seq<Raw>, ghost interval: nat) returns (r: nat)
    requires interval > 0 && block == BlockBytes(entries, interval) && NumRestarts(|entries|, interval) < TWO_32
    ensures r == |Data(entries)|
  {
    hide Data, RestartOffsets, EncodeRestarts, Fixed, DecodeFixed, NumRestarts;
    BlockLength(entries, interval);
    var n := |block| - 4;
    assert block[n..] == Fixed(NumRestarts(|entries|, interval), 4);
    FixedMask(NumRestarts(|entries|, interval));
    var numRestarts := DecodeFixed(block[n..]);
    r := |block| - (1 + numRestarts) * 4;
  }

  lemma RestartShape(block: Bytes, entries: seq<Raw>, interval: nat, t: nat)
    requires interval > 0 && block == BlockBytes(entries, interval) && entries != []
    requires t < NumRestarts(|entries|, interval)
    ensures RestartEntry(t, interval) < |entries|
    ensures var o := |Data(entries)|;
      && o + 4 * t + 4 <= |block| && block[..o] == Data(entries)
      && block[o + 4 * t..o + 4 * t + 4] == Fixed(|Data(entries[..RestartEntry(t, interval)])|, 4)
  {
    hide Data, RestartOffsets, EncodeRestarts, Fixed, NumRestarts, RestartEntry;
    var (data, restarts) := (Data(entries), EncodeRestarts(RestartOffsets(entries, interval)));
    RestartsAre(entries, interval, t);
    RestartAt(RestartOffsets(entries, interval), t);
    assert block == data + restarts + Fixed(NumRestarts(|entries|, interval), 4);
    assert block[|data| + 4 * t..|data| + 4 * t + 4] == restarts[4 * t..4 * t + 4];
  }

  lemma DataIsFirst(block: Bytes, entries: seq<Raw>, interval: nat)
    requires interval > 0 && block == BlockBytes(entries, interval)
    ensures |Data(entries)| <= |block| && block[..|Data(entries)|] == Data(entries)
  {
    hide Data, RestartOffsets, EncodeRestarts, Fixed;
  }

  lemma EmptyPrefix(entries: seq<Raw>)
    ensures Data(entries[..0]) == [] && (0 < |Data(entries)| <==> 0 < |entries|)
  {
    EmptyData(entries);
  }

  /** The bytes of entry `i`, and where the next one starts. */
  lemma NextEntry(block: Bytes, entries: seq<Raw>, i: nat) returns (tail: Bytes)
    requires |Data(entries)| <= |block| && block[..|Data(entries)|] == Data(entries) && i < |entries|
    ensures |Data(entries[..i])| <= |Data(entries)|
    ensures block[|Data(entries[..i])|..|Data(entries)|] == EncodeEntry(entries[i]) + tail
    ensures |Data(entries[..i + 1])| == |Data(entries)| - |tail|
    ensures |tail| > 0 <==> i + 1 < |entries|
  {
    hide EncodeEntry;
    tail := DataSplit(entries, i);
    var (before, e, all) := (Data(entries[..i]), EncodeEntry(entries[i]), Data(entries));
    assert entries[..i + 1][..i] == entries[..i];
    assert Data(entries[..i + 1]) == before + e;
    assert block[|before|..|all|] == all[|before|..] == e + tail;
    if i + 1 < |entries| {
      var after := DataSplit(entries, i + 1);
      EncodedNotEmpty(entries[i + 1]);
    } else {
      assert entries[..i + 1] == entries;
    }
  }

  lemma EncodedNotEmpty(e: Raw)
    ensures |EncodeEntry(e)| > 0
  {
  }

  // ---------------------------------------------------------------- seeking

  ghost function AsEntry(e: Raw, keySize: nat): Entry
    requires WellFormed(e.key, keySize)
  {
    Entry(KeyOf(e.key, keySize), seq(|e.value|, i requires 0 <= i < |e.value| => e.value[i] as char))
  }

  ghost function AsBlock(b: seq<Raw>, keySize: nat): (r: seq<Entry>)
    requires forall j :: 0 <= j < |b| ==> WellFormed(b[j].key, keySize)
    ensures |r| == |b| && forall j :: 0 <= j < |b| ==> r[j] == AsEntry(b[j], keySize)
  {
    seq(|b|, j requires 0 <= j < |b| => AsEntry(b[j], keySize))
  }

  lemma SeekUnique(entries: seq<Entry>, key: InternalKey, i: nat)
    requires i <= |entries| && (i < |entries| ==> Compare(entries[i].key, key) >= 0)
    requires forall j :: 0 <= j < i ==> Compare(entries[j].key, key) < 0
    ensures i == SeekIndex(entries, key)
  {
    hide Compare;
  }

  lemma EarlierAreBelow(entries: seq<Entry>, i: nat, target: InternalKey)
    requires Sorted(entries) && i < |entries| && Compare(entries[i].key, target) < 0
    ensures forall j :: 0 <= j <= i ==> Compare(entries[j].key, target) < 0
  {
  }

  lemma ZeroRestart(interval: nat)
    ensures RestartEntry(0, interval) == 0
  {
  }

  /** A block whose bytes hold entries in order. */
  ghost predicate SortedBlock(block: Bytes, entries: seq<Raw>, interval: nat, keySize: nat) {
    && interval > 0 && entries != [] && block == BlockBytes(entries, interval)
    && NumRestarts(|entries|, interval) < TWO_32 && |Data(entries)| < TWO_32
    && (forall j :: 0 <= j < |entries| ==> WellFormed(entries[j].key, keySize) && Storable(entries[j]))
    && Sorted(AsBlock(entries, keySize))
  }

  /** The entry at an offset, and where the next one starts. */
  method ReadEntry(block: Bytes, offset: nat, restarts: nat, ghost entries: seq<Raw>, ghost i: nat)
    returns (e: Raw, next: nat)
    requires restarts == |Data(entries)| <= |block| && block[..restarts] == Data(entries)
    requires i < |entries| && offset == |Data(entries[..i])| && Storable(entries[i])
    ensures e == entries[i] && next == |Data(entries[..i + 1])| && (next < restarts <==> i + 1 < |entries|)
  {
    hide Data, EncodeEntry, ParseEntry;
    ghost var tail := NextEntry(block, entries, i);
    EntryRoundTrip(entries[i], tail);
    var h := DecodeEntry(block[offset..restarts]);
    var (n, rest) := (h.value.nonShared, h.value.rest);
    e := Raw(rest[..n], rest[n..n + h.value.valueLength]);
    next := restarts - (|rest| - n - h.value.valueLength);
  }

  lemma StoredCompares(entries: seq<Raw>, keySize: nat, j: nat, key: Bytes)
    requires (forall i :: 0 <= i < |entries| ==> WellFormed(entries[i].key, keySize)) && j < |entries|
    requires WellFormed(key, keySize)
    ensures |entries[j].key| >= TAG_SIZE && |key| >= TAG_SIZE
    ensures CompareStored(entries[j].key, key) == Compare(AsBlock(entries, keySize)[j].key, KeyOf(key, keySize))
  {
    hide CompareStored, KeyOf, Compare;
    StoredOrder(entries[j].key, key, keySize);
  }

  /** Block::Iter::Seek: a binary search over the restart points, then a scan. */
  method BlockSeek(block: Bytes, key: Bytes, ghost entries: seq<Raw>, ghost interval: nat, ghost keySize: nat)
    returns (r: Option<Raw>)
    requires SortedBlock(block, entries, interval, keySize) && WellFormed(key, keySize)
    ensures var i := SeekIndex(AsBlock(entries, keySize), KeyOf(key, keySize));
      r == if i < |entries| then Some(entries[i]) else None
  {
    hide Compare, RestartEntry, SeekIndex, Data, EncodeEntry, BlockBytes, WellFormed, KeyOf, CompareStored, NumRestarts,
         Fixed, DecodeFixed;
    var restarts := RestartOffset(block, entries, interval);
    ghost var (es, target) := (AsBlock(entries, keySize), KeyOf(key, keySize));
    RestartsCounted(block, entries, interval);
    var numRestarts := DecodeFixed(block[|block| - 4..]);
    DataIsFirst(block, entries, interval);
    var left: nat, right: nat := 0, numRestarts - 1;
    RestartInBlock(0, |entries|, interval);
    assert RestartEntry(0, interval) == 0 by { ZeroRestart(interval); }
    while left < right
      invariant 0 <= left <= right < numRestarts && RestartEntry(left, interval) < |entries|
      invariant forall j :: 0 <= j < RestartEntry(left, interval) ==> Compare(es[j].key, target) < 0
    {
      var mid := (left + right + 1) / 2;
      var offset := RestartPoint(block, restarts, mid, entries, interval);
      var e, _ := ReadEntry(block, offset, restarts, entries, RestartEntry(mid, interval));
      StoredCompares(entries, keySize, RestartEntry(mid, interval), key);
      if CompareStored(e.key, key) < 0 {
        EarlierAreBelow(es, RestartEntry(mid, interval), target);
        left := mid;
      } else {
        right := mid - 1;
      }
    }
    var current := RestartPoint(block, restarts, left, entries, interval);
    ghost var i := RestartEntry(left, interval);
    assert current < restarts by { ghost var t := NextEntry(block, entries, i); EncodedNotEmpty(entries[i]); }
    while current < restarts
      invariant i <= |entries| && current == |Data(entries[..i])| && (current < restarts <==> i < |entries|)
      invariant forall j :: 0 <= j < i ==> Compare(es[j].key, target) < 0
      decreases |entries| - i
    {
      var e, next := ReadEntry(block, current, restarts, entries, i);
      StoredCompares(entries, keySize, i, key);
      if CompareStored(e.key, key) >= 0 {
        SeekUnique(es, target, i);
        return Some(e);
      }
      current, i := next, i + 1;
    }
    SeekUnique(es, target, i);
    r := None;
  }

  lemma RestartsCounted(block: Bytes, entries: seq<Raw>, interval: nat)
    requires interval > 0 && block == BlockBytes(entries, interval) && NumRestarts(|entries|, interval) < TWO_32
    ensures |block| >= 4 && DecodeFixed(block[|block| - 4..]) == NumRestarts(|entries|, interval) > 0
  {
    hide Data, RestartOffsets, EncodeRestarts, Fixed, DecodeFixed;
    assert block[|block| - 4..] == Fixed(NumRestarts(|entries|, interval), 4);
    FixedMask(NumRestarts(|entries|, interval));
  }

  /** Block::Iter::GetRestartPoint. */
  method RestartPoint(block: Bytes, restarts: nat, t: nat, ghost entries: seq<Raw>, ghost interval: nat)
    returns (offset: nat)
    requires interval > 0 && block == BlockBytes(entries, interval) && entries != [] && |Data(entries)| < TWO_32
    requires restarts == |Data(entries)| && t < NumRestarts(|entries|, interval)
    ensures RestartEntry(t, interval) < |entries| && offset == |Data(entries[..RestartEntry(t, interval)])|
  {
    hide Data, BlockBytes, Fixed, DecodeFixed, NumRestarts, RestartEntry;
    RestartShape(block, entries, interval, t);
    ghost var tail := DataSplit(entries, RestartEntry(t, interval));
    FixedMask(|Data(entries[..RestartEntry(t, interval)])|);
    var o := restarts + 4 * t;
    offset := DecodeFixed(block[o..o + 4]);
  }
}

/**
 Where a flushed memtable goes (db/version_set.cc: SomeFileOverlapsRange,
 PickLevelForMemTableOutput).
 */
module Placement {
  import opened Format
  import opened Version
  import opened Inputs
  import opened Lsm

  const MAX_MEM_COMPACT_LEVEL: nat := 2

  ghost predicate BoundedSeqnos(files: seq<File>) {
    forall i :: 0 <= i < |files| ==> files[i].largest.seqno <= MAX_SEQUENCE
  }

  /** SomeFileOverlapsRange: a scan at level 0, one binary search below it. */
  method SomeFileOverlapsRange(disjointSortedFiles: bool, files: seq<File>, smallest: Option<nat>, largest: Option<nat>)
    returns (r: bool)
    requires disjointSortedFiles ==> SortedDisjoint(files) && BoundedSeqnos(files)
    ensures r <==> exists f <- files :: Overlaps(f, smallest, largest)
  {
    hide SortedDisjoint;
    if !disjointSortedFiles {
      for i := 0 to |files|
        invariant forall j :: 0 <= j < i ==> !Overlaps(files[j], smallest, largest)
      {
        if !(smallest.Some? && smallest.value > files[i].largest.user)
           && !(largest.Some? && largest.value < files[i].smallest.user) {
          assert Overlaps(files[i], smallest, largest);
          return true;
        }
      }
      return false;
    }
    var index := 0;
    if smallest.Some? {
      index := FindFile(files, LookupKey(smallest.value, MAX_SEQUENCE));
    }
    if index >= |files| {
      return false;
    }
    r := !(largest.Some? && largest.value < files[index].smallest.user);
    forall i | index < i < |files|
      ensures files[index].smallest.user <= files[i].smallest.user
    {
      SmallestOrdered(files, index, i);
    }
    if r { assert Overlaps(files[index], smallest, largest); }
  }

  lemma SmallestOrdered(files: seq<File>, i: nat, j: nat)
    requires SortedDisjoint(files) && i < j < |files|
    ensures files[i].smallest.user <= files[j].smallest.user
  {
    FileRange(files[i], files[i].entries[0]);
  }

  /** A file of the level overlaps the user keys. */
  ghost predicate Blocked(levels: seq<seq<File>>, i: nat, smallest: nat, largest: nat)
    requires i < |levels|
  {
    exists f <- levels[i] :: Overlaps(f, Some(smallest), Some(largest))
  }

  /** Why a memtable is not pushed below `level`. */
  ghost predicate StopsAt(levels: seq<seq<File>>, smallest: nat, largest: nat, maxGrandParentOverlapBytes: nat,
                          level: nat)
    requires level + 2 < |levels|
  {
    || (level == 0 && Blocked(levels, 0, smallest, largest))
    || Blocked(levels, level + 1, smallest, largest)
    || TotalFileSize(Overlapping(levels[level + 2], Some(smallest), Some(largest))) > maxGrandParentOverlapBytes
  }

  /** The first level to stop at, or level 2. */
  ghost predicate Picked(levels: seq<seq<File>>, smallest: nat, largest: nat, maxGrandParentOverlapBytes: nat,
                         level: nat)
    requires |levels| == NUM_LEVELS
  {
    && level <= MAX_MEM_COMPACT_LEVEL
    && (forall l :: 0 <= l < level ==> !StopsAt(levels, smallest, largest, maxGrandParentOverlapBytes, l))
    && (level < MAX_MEM_COMPACT_LEVEL ==> StopsAt(levels, smallest, largest, maxGrandParentOverlapBytes, level))
  }

  /** Version::PickLevelForMemTableOutput: as deep as level 2, while no file in
      the way overlaps the new one and not too many bytes lie below. */
  method PickLevelForMemTableOutput(levels: seq<seq<File>>, smallest: nat, largest: nat,
                                    maxGrandParentOverlapBytes: nat)
    returns (level: nat)
    requires Layered(levels) && forall i :: 0 <= i < |levels| ==> BoundedSeqnos(levels[i])
    ensures Picked(levels, smallest, largest, maxGrandParentOverlapBytes, level)
  {
    hide NewerFilesHigher, SortedDisjoint, Above, BoundedSeqnos, TotalFileSize, Overlapping, Overlaps;
    var begin: Option<nat>, end: Option<nat> := Some(smallest), Some(largest);
    level := 0;
    var overlap := SomeFileOverlapsRange(false, levels[0], begin, end);
    if !overlap {
      while level < MAX_MEM_COMPACT_LEVEL
        invariant level <= MAX_MEM_COMPACT_LEVEL
        invariant forall l :: 0 <= l < level ==> !StopsAt(levels, smallest, largest, maxGrandParentOverlapBytes, l)
      {
        overlap := SomeFileOverlapsRange(true, levels[level + 1], begin, end);
        if overlap {
          break;
        }
        if level + 2 < NUM_LEVELS {
          assert RangesValid(levels[level + 2]) by { LayeredValid(levels, level + 2); ValidRanges(levels[level + 2]); }
          var overlaps, _, _ := GetOverlappingInputs(level + 2, levels[level + 2], begin, end);
          if TotalFileSize(overlaps) > maxGrandParentOverlapBytes {
            break;
          }
        }
        level := level + 1;
      }
    }
  }

  /** Over a single file in level 2 that overlaps it, a memtable goes to level 1, or stays in level 0
      if that file has more bytes than the limit. */
  lemma LimitDecides(g: File, smallest: nat, largest: nat, maxGrandParentOverlapBytes: nat, level: nat)
    requires g.smallest.user <= largest && smallest <= g.largest.user
    requires Picked([[], [], [g], [], [], [], []], smallest, largest, maxGrandParentOverlapBytes, level)
    ensures level == if g.size > maxGrandParentOverlapBytes then 0 else 1
  {
    var levels := [[], [], [g], [], [], [], []];
    assert Overlapping([g], Some(smallest), Some(largest)) == [g] by { assert [g][..0] == []; }
    SizeOfOne(g);
    assert g in levels[2] && Blocked(levels, 2, smallest, largest);
    assert StopsAt(levels, smallest, largest, maxGrandParentOverlapBytes, 0) <==> g.size > maxGrandParentOverlapBytes;
    assert StopsAt(levels, smallest, largest, maxGrandParentOverlapBytes, 1);
  }

  /** Down to the chosen level nothing touches the new file. */
  lemma PickedIsFree(levels: seq<seq<File>>, file: File, maxGrandParentOverlapBytes: nat, level: nat)
    requires |levels| == NUM_LEVELS
    requires Picked(levels, file.smallest.user, file.largest.user, maxGrandParentOverlapBytes, level)
    ensures FreePath(levels, level, file)
  {
    hide TotalFileSize, Overlapping;
    forall i, f | level > 0 && 0 <= i <= level && f in levels[i]
      ensures !Touch(f, file)
    {
      assert !StopsAt(levels, file.smallest.user, file.largest.user, maxGrandParentOverlapBytes,
                      if i == 0 then 0 else i - 1);
    }
  }
}

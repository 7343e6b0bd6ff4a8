/**
 A run in which a deleted key comes back.  A snapshot lets a compaction cut one
 user key across two files; after its release, a later compaction reads only the
 file with the deletion marker, drops the marker, and leaves the old value.
 */
module Resurrection {
  import opened Format
  import opened Version
  import opened Inputs
  import opened Compaction
  import opened Lsm
  import opened Placement
  import opened Runs

  const FIRST := Entry(InternalKey(0, 1, Value), "a")
  const OLD_VALUE := Entry(InternalKey(1, 2, Value), "old")
  const MARKER := Entry(InternalKey(1, 3, Deletion), "")
  const SECOND := Entry(InternalKey(0, 4, Value), "b")
  const THIRD := Entry(InternalKey(0, 5, Value), "c")

  const BASE := File(1, 1, FIRST.key, OLD_VALUE.key, [FIRST, OLD_VALUE])
  const UPDATE := File(2, 1, SECOND.key, MARKER.key, [SECOND, MARKER])
  const UPPER_HALF := File(3, 1, SECOND.key, MARKER.key, [SECOND, FIRST, MARKER])
  const LOWER_HALF := File(4, 1, OLD_VALUE.key, OLD_VALUE.key, [OLD_VALUE])
  const OVERWRITE := File(5, 1, THIRD.key, THIRD.key, [THIRD])
  const MERGED := File(6, 1, THIRD.key, THIRD.key, [THIRD])
  const HALVES := [UPPER_HALF, LOWER_HALF]

  function Tree(level1: seq<File>, level2: seq<File>): seq<seq<File>> {
    [[], level1, level2, [], [], [], []]
  }

  /** The compaction that cuts user key 1 in two: snapshot 2 is live. */
  const CUT := Job(1, [UPDATE], [BASE], [SECOND, FIRST, MARKER, OLD_VALUE], 2, HALVES)

  /** The compaction that reads only the upper half. */
  const DROP := Job(1, [OVERWRITE], [UPPER_HALF], [THIRD, SECOND, FIRST, MARKER], 5, [MERGED])

  const STEPS: seq<Step> := [
    Write([FIRST, OLD_VALUE]), Rotate, Flush(2, BASE), Snapshot,
    Write([MARKER, SECOND]), Rotate, Flush(1, UPDATE), Compact(CUT),
    Release(2), Write([THIRD]), Rotate, Flush(1, OVERWRITE), Compact(DROP)
  ]

  const BEFORE := {FIRST, OLD_VALUE}
  const DELETED := {FIRST, OLD_VALUE, MARKER, SECOND}
  const HISTORY := {FIRST, OLD_VALUE, MARKER, SECOND, THIRD}

  ghost const STATES: seq<State> := [
    State(Db([], [], Tree([], []), 0, 1, multiset{}), Ledger({}, 0)),
    State(Db([FIRST, OLD_VALUE], [], Tree([], []), 2, 1, multiset{}), Ledger(BEFORE, 0)),
    State(Db([], [FIRST, OLD_VALUE], Tree([], []), 2, 1, multiset{}), Ledger(BEFORE, 0)),
    State(Db([], [], Tree([], [BASE]), 2, 2, multiset{}), Ledger(BEFORE, 0)),
    State(Db([], [], Tree([], [BASE]), 2, 2, multiset{2}), Ledger(BEFORE, 0)),
    State(Db([SECOND, MARKER], [], Tree([], [BASE]), 4, 2, multiset{2}), Ledger(DELETED, 0)),
    State(Db([], [SECOND, MARKER], Tree([], [BASE]), 4, 2, multiset{2}), Ledger(DELETED, 0)),
    State(Db([], [], Tree([UPDATE], [BASE]), 4, 3, multiset{2}), Ledger(DELETED, 0)),
    State(Db([], [], Tree([], HALVES), 4, 5, multiset{2}), Ledger(DELETED, 2)),
    State(Db([], [], Tree([], HALVES), 4, 5, multiset{}), Ledger(DELETED, 2)),
    State(Db([THIRD], [], Tree([], HALVES), 5, 5, multiset{}), Ledger(HISTORY, 2)),
    State(Db([], [THIRD], Tree([], HALVES), 5, 5, multiset{}), Ledger(HISTORY, 2)),
    State(Db([], [], Tree([OVERWRITE], HALVES), 5, 6, multiset{}), Ledger(HISTORY, 2)),
    State(Db([], [], Tree([], [MERGED, LOWER_HALF]), 5, 7, multiset{}), Ledger(HISTORY, 5))
  ]

  lemma FilesAreValid()
    ensures forall f <- [BASE, UPDATE, UPPER_HALF, LOWER_HALF, OVERWRITE, MERGED] :: f.Valid()
    ensures Sorted(CUT.input) && Sorted(DROP.input)
  {
  }

  // ---------------------------------------------------------------- the first compaction

  lemma OneOverlaps(f: File, begin: nat, end: nat)
    ensures Overlapping([f], Some(begin), Some(end)) == if Overlaps(f, Some(begin), Some(end)) then [f] else []
    ensures Overlapping([], Some(begin), Some(end)) == []
  {
    assert [f][..0] == [];
  }

  lemma CutInputs()
    ensures ValidInputs(Tree([UPDATE], [BASE]), 1, [UPDATE], [BASE])
  {
    hide IsSmallest, IsLargest, Overlapping;
    RangeOfOne(UPDATE);
    OneOverlaps(BASE, 0, 1);
  }

  lemma CutReplaces()
    ensures Replaces(Tree([UPDATE], [BASE]), 1, [UPDATE], [BASE], HALVES, Tree([], HALVES))
  {
    assert UPDATE in [UPDATE] && BASE in [BASE];
    assert Installed([UPDATE], [UPDATE], [], []);
    assert Installed([BASE], [BASE], HALVES, HALVES);
  }

  lemma FlattenTwo(f: File, g: File)
    ensures Flatten(EntrySeqs([f, g])) == f.entries + g.entries
    ensures Flatten(EntrySeqs([f])) == f.entries
  {
    OutputSplit([f, g]);
    OutputSplit([f]);
    assert [f, g][..1] == [f] && [f][..0] == [];
  }

  lemma CutSurvivors(levels: seq<seq<File>>)
    ensures Survivors(CUT.input, 4, 2, levels, 1) == CUT.input
  {
    assert Survivors(CUT.input, 1, 2, levels, 1) == [SECOND];
    assert Survivors(CUT.input, 2, 2, levels, 1) == [SECOND, FIRST];
    assert Survivors(CUT.input, 3, 2, levels, 1) == [SECOND, FIRST, MARKER];
  }

  lemma CutEntries()
    ensures Elements(CUT.input) == EntriesOf(CUT.in0) + EntriesOf(CUT.in1)
  {
    SingleEntries(UPDATE);
    SingleEntries(BASE);
  }

  lemma CutStep()
    ensures Next(STATES[7], STEPS[7], STATES[8])
  {
    hide ValidInputs, Replaces, Survivors, Flatten, EntrySeqs, Sorted, EntriesOf;
    CutInputs();
    CutReplaces();
    CutEntries();
    CutSurvivors(Tree([UPDATE], [BASE]));
    FlattenTwo(UPPER_HALF, LOWER_HALF);
    FilesAreValid();
    assert CompactStep(STATES[7].db, STATES[7].ledger, STATES[8].db, STATES[8].ledger, CUT);
  }

  // ---------------------------------------------------------------- the second compaction

  lemma DropInputs()
    ensures ValidInputs(Tree([OVERWRITE], HALVES), 1, [OVERWRITE], [UPPER_HALF])
  {
    hide IsSmallest, IsLargest;
    RangeOfOne(OVERWRITE);
    UpperOverlaps();
  }

  lemma DropReplaces()
    ensures Replaces(Tree([OVERWRITE], HALVES), 1, [OVERWRITE], [UPPER_HALF], [MERGED], Tree([], [MERGED, LOWER_HALF]))
  {
    assert OVERWRITE in [OVERWRITE];
    assert Installed([OVERWRITE], [OVERWRITE], [], []);
    assert UPPER_HALF in [UPPER_HALF] && UPPER_HALF != LOWER_HALF;
    assert Installed(HALVES, [UPPER_HALF], [MERGED], [MERGED, LOWER_HALF]);
  }

  lemma DropSurvivors(levels: seq<seq<File>>)
    requires IsBase(levels, 1, 1)
    ensures Survivors(DROP.input, 4, 5, levels, 1) == [THIRD]
  {
    assert Survivors(DROP.input, 1, 5, levels, 1) == [THIRD];
    assert Survivors(DROP.input, 2, 5, levels, 1) == [THIRD];
    assert Survivors(DROP.input, 3, 5, levels, 1) == [THIRD];
  }

  lemma DropEntries()
    ensures Elements(DROP.input) == EntriesOf(DROP.in0) + EntriesOf(DROP.in1)
  {
    SingleEntries(OVERWRITE);
    SingleEntries(UPPER_HALF);
  }

  lemma DropStep()
    ensures Next(STATES[12], STEPS[12], STATES[13])
  {
    hide ValidInputs, Replaces, Survivors, Flatten, EntrySeqs, Sorted, EntriesOf;
    DropInputs();
    DropReplaces();
    DropEntries();
    DropSurvivors(Tree([OVERWRITE], HALVES));
    FlattenTwo(MERGED, MERGED);
    FilesAreValid();
    assert CompactStep(STATES[12].db, STATES[12].ledger, STATES[13].db, STATES[13].ledger, DROP);
  }

  // ---------------------------------------------------------------- the other steps

  lemma FirstFlush()
    ensures Next(STATES[2], STEPS[2], STATES[3])
  {
    hide Sorted;
    FilesAreValid();
    assert Installed([], [], [BASE], [BASE]);
  }

  lemma SecondFlush()
    ensures Next(STATES[6], STEPS[6], STATES[7])
  {
    hide Sorted;
    FilesAreValid();
    assert Installed([], [], [UPDATE], [UPDATE]);
  }

  lemma ThirdFlush()
    ensures Next(STATES[11], STEPS[11], STATES[12])
  {
    hide Sorted;
    FilesAreValid();
    assert Installed([], [], [OVERWRITE], [OVERWRITE]);
  }

  lemma FirstWrite()
    ensures Next(STATES[0], STEPS[0], STATES[1])
  {
  }

  lemma SecondWrite()
    ensures Next(STATES[4], STEPS[4], STATES[5])
  {
  }

  lemma ThirdWrite()
    ensures Next(STATES[9], STEPS[9], STATES[10])
  {
  }

  lemma QuietSteps()
    ensures Next(STATES[1], STEPS[1], STATES[2]) && Next(STATES[3], STEPS[3], STATES[4])
    ensures Next(STATES[5], STEPS[5], STATES[6]) && Next(STATES[8], STEPS[8], STATES[9])
    ensures Next(STATES[10], STEPS[10], STATES[11])
  {
  }

  lemma IsARun()
    ensures Run(STATES, STEPS)
  {
    hide Next;
    FirstWrite();
    SecondWrite();
    ThirdWrite();
    FirstFlush();
    SecondFlush();
    ThirdFlush();
    CutStep();
    DropStep();
    QuietSteps();
  }

  // ---------------------------------------------------------------- the choices of the code

  /** Memtables go to the level that PickLevelForMemTableOutput picks, and every merge
      reads files of both levels, so none is a trivial move. */
  ghost predicate AsPicked(x: State, step: Step, maxGrandParentOverlapBytes: nat)
    requires |x.db.levels| == NUM_LEVELS
  {
    match step
    case Flush(level, f) => Picked(x.db.levels, f.smallest.user, f.largest.user, maxGrandParentOverlapBytes, level)
    case Compact(job) => job.in0 != [] && job.in1 != []
    case _ => true
  }

  lemma FlushesAsPicked(k: nat, bytes: nat)
    requires k < |STEPS| && STEPS[k].Flush? && bytes >= 1
    ensures AsPicked(STATES[k], STEPS[k], bytes)
  {
    hide Picked;
    if k == 2 {
      PicksLevel2(0, 1, bytes);
    } else if k == 6 {
      OneOverlaps(BASE, 0, 1);
      PicksLevel1([BASE], BASE, 0, 1, bytes);
    } else {
      UpperOverlaps();
      PicksLevel1(HALVES, UPPER_HALF, 0, 0, bytes);
    }
  }

  lemma UpperOverlaps()
    ensures Overlapping(HALVES, Some(0), Some(0)) == [UPPER_HALF]
  {
    assert HALVES[..1] == [UPPER_HALF] && [UPPER_HALF][..0] == [];
    assert Overlapping([UPPER_HALF], Some(0), Some(0)) == [UPPER_HALF];
  }

  lemma PicksLevel2(smallest: nat, largest: nat, bytes: nat)
    ensures Picked(Tree([], []), smallest, largest, bytes, 2)
  {
    assert Overlapping([], Some(smallest), Some(largest)) == [];
  }

  lemma PicksLevel1(level2: seq<File>, f: File, smallest: nat, largest: nat, bytes: nat)
    requires f in level2 && Overlaps(f, Some(smallest), Some(largest)) && f.size <= bytes
    requires Overlapping(level2, Some(smallest), Some(largest)) == [f]
    ensures Picked(Tree([], level2), smallest, largest, bytes, 1)
  {
    hide Overlapping, TotalFileSize, Overlaps;
    SizeOfOne(f);
  }

  /** With one file in the level, SetupOtherInputs has no other choice of inputs. */
  lemma NoOtherInputs(levels: seq<seq<File>>, f: File, in0: seq<File>, in1: seq<File>)
    requires |levels| > 2 && levels[1] == [f] && ValidInputs(levels, 1, in0, in1) && in0 != [] && Distinct(in0)
    ensures in0 == [f] && in1 == Overlapping(levels[2], Some(f.smallest.user), Some(f.largest.user))
  {
    hide LeavesNoneOlder, Overlapping;
    forall i | 0 <= i < |in0| ensures in0[i] == f { assert in0[i] in in0; }
    assert in0[0] == in0[|in0| - 1] == f;
    RangeOfOne(f);
  }

  /** The run ends with no snapshot live; the history says user key 1 was deleted,
      the database answers with its old value. */
  lemma DeletedKeyComesBack()
    ensures Run(STATES, STEPS)
    ensures forall k, bytes: nat :: 0 <= k < |STEPS| && bytes >= 1 ==> AsPicked(STATES[k], STEPS[k], bytes)
    ensures var s := STATES[13];
      && s.db.snapshots == multiset{} && s.db.lastSequence == 5
      && Answers(s.ledger.writes, 1, 5, Some(MARKER))
      && Answers(AllEntries(s.db), 1, 5, Some(OLD_VALUE))
      && Found(Some(MARKER)) == None && Found(Some(OLD_VALUE)) == Some("old")
  {
    IsARun();
    forall k, bytes: nat | 0 <= k < |STEPS| && bytes >= 1
      ensures AsPicked(STATES[k], STEPS[k], bytes)
    {
      if STEPS[k].Flush? { FlushesAsPicked(k, bytes); }
    }
    hide Run, AsPicked;
    LastEntries();
    assert Candidate(MARKER, HISTORY, 1, 5);
    assert Candidate(OLD_VALUE, {THIRD, OLD_VALUE}, 1, 5);
  }

  lemma LastEntries()
    ensures AllEntries(STATES[13].db) == {THIRD, OLD_VALUE}
  {
    var levels := STATES[13].db.levels;
    OutputSplit([MERGED, LOWER_HALF]);
    assert [MERGED, LOWER_HALF][..1] == [MERGED];
    SingleEntries(MERGED);
    assert EntriesOf([MERGED, LOWER_HALF]) == {THIRD, OLD_VALUE};
    NoEntries();
    assert levels[2] == [MERGED, LOWER_HALF];
    assert TreeEntries(levels) == {THIRD, OLD_VALUE};
  }
}

/**
 Runs without snapshots: the guard on compactions holds by itself, because no
 compaction leaves two entries of a user key, so no key is split between files.
 With snapshots it can fail.
 */
module SnapshotFree {
  import opened Format
  import opened Version
  import opened Inputs
  import opened Compaction
  import opened Lsm
  import opened Runs

  /** No two files of the level share a user key. */
  ghost predicate UserApart(files: seq<File>) {
    forall f <- files, g <- files :: f != g ==> f.largest.user < g.smallest.user || g.largest.user < f.smallest.user
  }

  ghost predicate Unshared(s: Db) {
    s.snapshots == multiset{} && forall i :: 0 < i < |s.levels| ==> UserApart(s.levels[i])
  }

  lemma FileUsers(f: File, e: Entry)
    requires f.Valid() && e in f.entries
    ensures f.smallest.user <= e.key.user <= f.largest.user
  {
    FileRange(f, e);
  }

  /** A left-out file of the next level shares no user key with an input. */
  lemma NextSharesNone(files: seq<File>, next: seq<File>, in0: seq<File>, in1: seq<File>, h: File, e: Entry)
    requires AllValid(files) && AllValid(next) && UserApart(next)
    requires (forall f <- in0 :: f in files) && CoversNext(next, in0, in1)
    requires h in next && h !in in1 && e in EntriesOf(in0) + EntriesOf(in1)
    ensures e.key.user < h.smallest.user || h.largest.user < e.key.user
  {
    hide Sorted;
    if e in EntriesOf(in0) {
      var f :| f in in0 && e in f.entries;
      ValidMember(files, f);
      FileUsers(f, e);
    } else {
      var g :| g in in1 && e in g.entries;
      ValidMember(next, g);
      FileUsers(g, e);
    }
  }

  lemma MarkerIsOldest(levels: seq<seq<File>>, level: nat, in0: seq<File>, in1: seq<File>, i: nat, f: File, q: Entry,
                       d: Entry)
    requires Layered(levels) && level + 1 < |levels| && ValidInputs(levels, level, in0, in1)
    requires UserApart(levels[level + 1])
    requires d in EntriesOf(in0) + EntriesOf(in1) && IsBase(levels, level, d.key.user)
    requires i < |levels| && f in levels[i] && !(i == level && f in in0) && !(i == level + 1 && f in in1)
    requires q in f.entries && q.key.user == d.key.user
    ensures q.key.seqno > d.key.seqno
  {
    hide SortedDisjoint, NewerFilesHigher, Sorted, UserApart, AllValid, CoversNext;
    LayeredValid(levels, level);
    LayeredValid(levels, level + 1);
    LayeredValid(levels, i);
    ValidMember(levels[i], f);
    FileUsers(f, q);
    CoveredInNext(levels[level + 1], in0, in1);
    if i == level + 1 {
      NextSharesNone(levels[level], levels[level + 1], in0, in1, f, d);
    } else if i <= level {
      if d in EntriesOf(in1) {
        SubsetEntries(in1, levels[level + 1]);
        AboveEntry(levels[i], levels[level + 1], f, q, d);
      } else if i < level {
        SubsetEntries(in0, levels[level]);
        AboveEntry(levels[i], levels[level], f, q, d);
      } else {
        LeftOutIsNewer(levels[level], in0, f, q, d);
      }
    }
  }

  lemma AboveEntry(files: seq<File>, below: seq<File>, f: File, q: Entry, d: Entry)
    requires Above(EntriesOf(files), EntriesOf(below)) && f in files && q in f.entries && d in EntriesOf(below)
    requires q.key.user == d.key.user
    ensures q.key.seqno > d.key.seqno
  {
    assert q in EntriesOf(files);
  }

  lemma LeftOutIsNewer(files: seq<File>, in0: seq<File>, f: File, q: Entry, d: Entry)
    requires LeavesNoneOlder(files, in0) && f in files && f !in in0 && q in f.entries && d in EntriesOf(in0)
    requires q.key.user == d.key.user
    ensures q.key.seqno > d.key.seqno
  {
    var g :| g in in0 && d in g.entries;
    assert Above(Elements(f.entries), Elements(g.entries));
    assert q in Elements(f.entries) && d in Elements(g.entries);
  }

  /** Without snapshots no user key is split between files, so nothing can resurface. */
  lemma SnapshotFreeIsSafe(s: Db, l: Ledger, s': Db, l': Ledger, j: Job)
    requires Sound(s, l) && Unshared(s) && CompactStep(s, l, s', l', j)
    ensures NothingResurfaces(j.input, Rest(s, j), j.smallestSnapshot, s.levels, j.level)
  {
    hide UniqueSeqnos, Sorted, Survivors, Layered, ValidInputs, UserApart, IsBase;
    forall i, q | 0 <= i < |j.input| && DroppedMarker(j.input, i, j.smallestSnapshot, s.levels, j.level)
      && Answers(Rest(s, j), j.input[i].key.user, j.smallestSnapshot, Some(q))
      ensures q.key.seqno > j.input[i].key.seqno
    {
      var d := j.input[i];
      assert d in Elements(j.input);
      InputsInTree(s, j, d);
      assert q in Rest(s, j) && q.key.user == d.key.user;
      if q in LeftOut(s.levels, j.level, j.in0, j.in1) {
        var k, f :| 0 <= k < |s.levels| && f in s.levels[k] && !(k == j.level && f in j.in0)
          && !(k == j.level + 1 && f in j.in1)
          && q in f.entries;
        MarkerIsOldest(s.levels, j.level, j.in0, j.in1, k, f, q, d);
      }
    }
  }

  lemma InputsInTree(s: Db, j: Job, d: Entry)
    requires j.level + 1 < |s.levels| && ValidInputs(s.levels, j.level, j.in0, j.in1)
    requires d in EntriesOf(j.in0) + EntriesOf(j.in1)
    ensures d in TreeEntries(s.levels)
  {
    hide *;
    InputsOfLevels(s.levels, j.level, j.in0, j.in1);
    OfLevels(s.levels, j.level, j.in0, j.in1, d);
  }

  lemma OfLevels(levels: seq<seq<File>>, level: nat, in0: seq<File>, in1: seq<File>, d: Entry)
    requires level + 1 < |levels| && (forall f <- in0 :: f in levels[level])
    requires (forall f <- in1 :: f in levels[level + 1]) && d in EntriesOf(in0) + EntriesOf(in1)
    ensures d in TreeEntries(levels)
  {
    hide *;
    TreeBefore(levels, level, in0, in1);
  }

  lemma InputsOfLevels(levels: seq<seq<File>>, level: nat, in0: seq<File>, in1: seq<File>)
    requires level + 1 < |levels| && ValidInputs(levels, level, in0, in1)
    ensures (forall f <- in0 :: f in levels[level]) && forall f <- in1 :: f in levels[level + 1]
  {
    hide CoversNext, LeavesNoneOlder;
    CoveredInNext(levels[level + 1], in0, in1);
  }

  // ---------------------------------------------------------------- no user key is split

  ghost predicate OnePerUser(s: set<Entry>) {
    forall a, b :: a in s && b in s && a.key.user == b.key.user ==> a == b
  }

  /** With every entry visible at the oldest snapshot, one entry per user key is left. */
  lemma SurvivorsOnePerUser(input: seq<Entry>, smallestSnapshot: nat, levels: seq<seq<File>>, level: nat)
    requires Sorted(input) && forall e <- input :: e.key.seqno <= smallestSnapshot
    ensures OnePerUser(Elements(Survivors(input, |input|, smallestSnapshot, levels, level)))
  {
    hide Sorted, Survivors, Hidden, Obsolete;
    forall a, b | a in Survivors(input, |input|, smallestSnapshot, levels, level)
      && b in Survivors(input, |input|, smallestSnapshot, levels, level) && a.key.user == b.key.user
      ensures a == b
    {
      SurvivorsAre(input, |input|, smallestSnapshot, levels, level, a);
      SurvivorsAre(input, |input|, smallestSnapshot, levels, level, b);
      var i :| 0 <= i < |input| && input[i] == a && !Hidden(input, i, smallestSnapshot);
      var j :| 0 <= j < |input| && input[j] == b && !Hidden(input, j, smallestSnapshot);
      if i < j { LaterIsHidden(input, i, j, smallestSnapshot); }
      if j < i { LaterIsHidden(input, j, i, smallestSnapshot); }
    }
  }

  lemma OnePerUserApart(files: seq<File>)
    requires PairwiseApart(files) && OnePerUser(EntriesOf(files))
    ensures UserApart(files)
  {
    hide Sorted;
    forall f <- files, g <- files | f != g && Compare(f.largest, g.smallest) < 0
      ensures f.largest.user < g.smallest.user
    {
      assert f.Valid() && g.Valid();
      var (a, b) := (f.entries[|f.entries| - 1], g.entries[0]);
      assert a in f.entries && b in g.entries;
      assert a in EntriesOf(files) && b in EntriesOf(files);
    }
  }

  lemma OutputSharesNone(files: seq<File>, next: seq<File>, in0: seq<File>, in1: seq<File>, outs: seq<File>, o: File,
                         h: File)
    requires AllValid(files) && PairwiseApart(next) && (forall f <- in0 :: f in files) && CoversNext(next, in0, in1)
    requires ValidOutputs(in0, in1, outs) && UserApart(next) && o in outs && h in next && h !in in1
    ensures o.largest.user < h.smallest.user || h.largest.user < o.smallest.user
  {
    hide Sorted, CoversNext, UserApart;
    OutputBeside(files, next, in0, in1, outs, o, h);
    ValidMember(outs, o);
    ValidMember(next, h);
    var (first, last) := (o.entries[0], o.entries[|o.entries| - 1]);
    assert first in o.entries && last in o.entries;
    assert first in EntriesOf(outs) && last in EntriesOf(outs);
    NextSharesNone(files, next, in0, in1, h, first);
    NextSharesNone(files, next, in0, in1, h, last);
    FileUsers(h, h.entries[0]);
  }

  lemma NextStaysUserApart(files: seq<File>, next: seq<File>, in0: seq<File>, in1: seq<File>, outs: seq<File>,
                           next': seq<File>)
    requires AllValid(files) && PairwiseApart(next) && (forall f <- in0 :: f in files) && CoversNext(next, in0, in1)
    requires ValidOutputs(in0, in1, outs) && Installed(next, in1, outs, next') && UserApart(next) && UserApart(outs)
    ensures UserApart(next')
  {
    hide CoversNext, InBuilderOrder, PairwiseApart, AllValid, EntriesOf;
    forall f <- next', g <- next' | f != g
      ensures f.largest.user < g.smallest.user || g.largest.user < f.smallest.user
    {
      if f in outs && g !in outs {
        OutputSharesNone(files, next, in0, in1, outs, f, g);
      } else if g in outs && f !in outs {
        OutputSharesNone(files, next, in0, in1, outs, g, f);
      }
    }
  }

  lemma ReplaceKeepsUnshared(s: Db, level: nat, in0: seq<File>, in1: seq<File>, outs: seq<File>, s': Db)
    requires Layered(s.levels) && Unshared(s) && level + 1 < |s.levels|
    requires ValidInputs(s.levels, level, in0, in1) && ValidOutputs(in0, in1, outs) && UserApart(outs)
    requires Replaces(s.levels, level, in0, in1, outs, s'.levels) && s'.snapshots == s.snapshots
    ensures Unshared(s')
  {
    hide Sorted, CoversNext, ValidOutputs, LeavesNoneOlder, InBuilderOrder, SortedDisjoint, NewerFilesHigher, AllValid,
         Above;
    LayeredValid(s.levels, level);
    SortedIsApart(s.levels[level + 1]);
    NextStaysUserApart(s.levels[level], s.levels[level + 1], in0, in1, outs, s'.levels[level + 1]);
  }

  lemma CompactKeepsUnshared(s: Db, l: Ledger, s': Db, l': Ledger, j: Job)
    requires Sound(s, l) && Unshared(s) && CompactStep(s, l, s', l', j)
    ensures Unshared(s')
  {
    hide UniqueSeqnos, Sorted, Above, Survivors, Flatten, EntrySeqs, PairwiseApart, Unshared, Replaces, ValidInputs,
         Layered, EntriesOf, TreeEntries;
    forall e <- j.input
      ensures e.key.seqno <= j.smallestSnapshot
    {
      assert e in Elements(j.input);
      InputsInTree(s, j, e);
      assert e in l.writes;
      assert j.smallestSnapshot == s.lastSequence by { NoSnapshots(s); }
    }
    SurvivorsOnePerUser(j.input, j.smallestSnapshot, s.levels, j.level);
    SurvivorsSorted(j.input, |j.input|, j.smallestSnapshot, s.levels, j.level);
    OutputsApart(j.outs);
    OutputEntries(j.outs);
    OnePerUserApart(j.outs);
    MergeOutputs(j, s.levels);
    ReplaceKeepsUnshared(s, j.level, j.in0, j.in1, j.outs, s');
  }

  lemma NoSnapshots(s: Db)
    requires Unshared(s)
    ensures s.snapshots == multiset{}
  {
  }

  lemma MoveKeepsUnshared(s: Db, l: Ledger, s': Db, l': Ledger, level: nat, file: File)
    requires Sound(s, l) && Unshared(s) && MoveStep(s, l, s', l', level, file)
    ensures Unshared(s')
  {
    hide UniqueSeqnos, TreeEntries, Sorted, Above, LeavesNoneOlder, CoversNext, Layered, Replaces, Unshared;
    assert file in [file] && file in s.levels[level];
    LayeredValid(s.levels, level);
    ValidMember(s.levels[level], file);
    SingleOutput(file);
    ReplaceKeepsUnshared(s, level, [file], [], [file], s');
  }

  lemma FlushKeepsUnshared(s: Db, l: Ledger, s': Db, l': Ledger, level: nat, file: File)
    requires Unshared(s) && FlushStep(s, l, s', l', level, file)
    ensures Unshared(s')
  {
    hide Sorted, InBuilderOrder;
    forall i | 0 < i < |s'.levels|
      ensures UserApart(s'.levels[i])
    {
      forall f <- s'.levels[i], g <- s'.levels[i] | f != g
        ensures f.largest.user < g.smallest.user || g.largest.user < f.smallest.user
      {
        if i == level && f == file {
          assert !Touch(g, file);
        } else if i == level && g == file {
          assert !Touch(f, file);
        }
      }
    }
  }

  lemma StepKeepsUnshared(x: State, step: Step, y: State)
    requires Sound(x.db, x.ledger) && Unshared(x.db) && Next(x, step, y) && !step.Snapshot?
    ensures Safe(x, step) && Unshared(y.db)
  {
    hide WriteStep, RotateStep, FlushStep, MoveStep, CompactStep, NothingResurfaces, Sound, Unshared;
    match step
    case Write(batch) => SameTree(x, step, y);
    case Rotate => SameTree(x, step, y);
    case Flush(level, file) => FlushKeepsUnshared(x.db, x.ledger, y.db, y.ledger, level, file);
    case Move(level, file) => MoveKeepsUnshared(x.db, x.ledger, y.db, y.ledger, level, file);
    case Compact(job) =>
      SnapshotFreeIsSafe(x.db, x.ledger, y.db, y.ledger, job);
      CompactKeepsUnshared(x.db, x.ledger, y.db, y.ledger, job);
    case Release(snapshot) => SameTree(x, step, y);
  }

  lemma SameTree(x: State, step: Step, y: State)
    requires Unshared(x.db) && Next(x, step, y) && (step.Write? || step.Rotate? || step.Release?)
    ensures Unshared(y.db)
  {
    hide UserApart;
  }

  /** Every run without snapshots reads right in every state: no compaction needs a guard. */
  lemma {:induction false} SnapshotFreeRunsReadRight(states: seq<State>, steps: seq<Step>, i: nat)
    requires Run(states, steps) && i < |states|
    requires forall k :: 0 <= k < |steps| ==> !steps[k].Snapshot?
    ensures Inv(states[i].db, states[i].ledger) && Unshared(states[i].db)
  {
    hide Sound, Next, Safe;
    if i == 0 {
      InitHasInv(states[0]);
    } else {
      SnapshotFreeRunsReadRight(states, steps, i - 1);
      StepKeepsUnshared(states[i - 1], steps[i - 1], states[i]);
      StepKeepsInvIff(states[i - 1], steps[i - 1], states[i]);
    }
  }
}

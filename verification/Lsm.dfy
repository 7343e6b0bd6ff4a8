/**
 The database as a state machine: writes, memtable rotation and flush, trivial
 moves, merge compactions and snapshots, each one atomic step.
 */
module Lsm {
  import opened Format
  import opened Version
  import opened Inputs
  import opened Compaction

  // ---------------------------------------------------------------- installing files in a level

  /** In the order of VersionSet::Builder: by smallest key, then by number. */
  ghost predicate InBuilderOrder(files: seq<File>) {
    forall i, j :: 0 <= i < j < |files| ==>
      Compare(files[i].smallest, files[j].smallest) < 0
      || (files[i].smallest == files[j].smallest && files[i].number < files[j].number)
  }

  /** `files'` is `files` without `removed` and with `added`. */
  ghost predicate Installed(files: seq<File>, removed: seq<File>, added: seq<File>, files': seq<File>) {
    && (forall f :: f in files' <==> (f in files && f !in removed) || f in added)
    && InBuilderOrder(files')
  }

  /** A number names one file. */
  ghost predicate Identified(files: set<File>) {
    forall f, g :: f in files && g in files && f.number == g.number ==> f == g
  }

  ghost function FilesOf(levels: seq<seq<File>>): set<File> {
    set i, f | 0 <= i < |levels| && f in levels[i] :: f
  }

  /** What VersionSet::Builder leaves: every level in its order, and one file per number. */
  ghost predicate Tidy(levels: seq<seq<File>>) {
    (forall i :: 0 <= i < |levels| ==> InBuilderOrder(levels[i])) && Identified(FilesOf(levels))
  }

  lemma ApartIsSorted(files: seq<File>)
    requires PairwiseApart(files) && InBuilderOrder(files)
    ensures SortedDisjoint(files)
  {
    hide Sorted;
    forall i, j | 0 <= i < j < |files|
      ensures Compare(files[i].largest, files[j].smallest) < 0
    {
      FileRange(files[i], files[i].entries[0]);
      FileRange(files[j], files[j].entries[0]);
      assert files[i] in files && files[j] in files;
    }
  }

  lemma InstalledEntries(files: seq<File>, removed: seq<File>, added: seq<File>, files': seq<File>)
    requires Installed(files, removed, added, files')
    ensures EntriesOf(files') <= EntriesOf(files) + EntriesOf(added)
  {
    forall e | e in EntriesOf(files')
      ensures e in EntriesOf(files) + EntriesOf(added)
    {
      var f :| f in files' && e in f.entries;
    }
  }

  // ---------------------------------------------------------------- replacing the inputs of a compaction

  /** The effect of a compaction or a move on the levels. */
  ghost predicate Replaces(levels: seq<seq<File>>, level: nat, in0: seq<File>, in1: seq<File>, outs: seq<File>,
                           levels': seq<seq<File>>)
  {
    && level + 1 < |levels| == |levels'|
    && (forall i :: 0 <= i < |levels| && i != level && i != level + 1 ==> levels'[i] == levels[i])
    && Installed(levels[level], in0, [], levels'[level])
    && Installed(levels[level + 1], in1, outs, levels'[level + 1])
  }

  /** The inputs a compaction of `level` may have (what SetupOtherInputs returns). */
  ghost predicate ValidInputs(levels: seq<seq<File>>, level: nat, in0: seq<File>, in1: seq<File>)
    requires level + 1 < |levels|
  {
    && (forall f <- in0 :: f in levels[level])
    && LeavesNoneOlder(levels[level], in0)
    && CoversNext(levels[level + 1], in0, in1)
  }

  /** The new files hold nothing but entries of the inputs, and are disjoint. */
  ghost predicate ValidOutputs(in0: seq<File>, in1: seq<File>, outs: seq<File>) {
    PairwiseApart(outs) && EntriesOf(outs) <= EntriesOf(in0) + EntriesOf(in1)
  }

  /** `k` lies after the file, or before it. */
  ghost predicate Beside(h: File, k: InternalKey, after: bool) {
    if after then Compare(h.largest, k) < 0 else Compare(k, h.smallest) < 0
  }

  lemma BesideFirst(f: File, h: File, e: Entry, smallest: InternalKey, largest: InternalKey)
    requires f.Valid() && h.Valid() && e in f.entries
    requires Compare(smallest, f.smallest) <= 0 && Compare(f.largest, largest) <= 0
    requires !Overlaps(h, Some(smallest.user), Some(largest.user))
    ensures Beside(h, e.key, h.largest.user < smallest.user)
  {
    FileRange(f, e);
  }

  lemma BesideSecond(g: File, h: File, e: Entry, smallest: InternalKey, largest: InternalKey)
    requires g.Valid() && h.Valid() && e in g.entries
    requires Compare(g.largest, h.smallest) < 0 || Compare(h.largest, g.smallest) < 0
    requires Overlaps(g, Some(smallest.user), Some(largest.user))
    requires !Overlaps(h, Some(smallest.user), Some(largest.user))
    ensures Beside(h, e.key, h.largest.user < smallest.user)
  {
    FileRange(g, e);
    FileRange(h, h.entries[0]);
    FileRange(g, g.entries[0]);
  }

  /** A file of the next level that is left out lies beside all the inputs. */
  lemma InputsBeside(files: seq<File>, next: seq<File>, in0: seq<File>, in1: seq<File>, h: File) returns (after: bool)
    requires AllValid(files) && PairwiseApart(next) && (forall f <- in0 :: f in files) && CoversNext(next, in0, in1)
    requires h in next && h !in in1
    ensures forall e <- EntriesOf(in0) + EntriesOf(in1) :: Beside(h, e.key, after)
  {
    hide Sorted, Beside, Overlaps;
    var smallest, largest :| IsSmallest(smallest, in0) && IsLargest(largest, in0)
      && in1 == Overlapping(next, Some(smallest.user), Some(largest.user));
    after := h.largest.user < smallest.user;
    assert h.Valid();
    forall e <- EntriesOf(in0) + EntriesOf(in1)
      ensures Beside(h, e.key, after)
    {
      if e in EntriesOf(in0) {
        var f :| f in in0 && e in f.entries;
        assert f in files && f.Valid();
        BesideFirst(f, h, e, smallest, largest);
      } else {
        var g :| g in in1 && e in g.entries;
        assert g in next && g.Valid() && g != h;
        BesideSecond(g, h, e, smallest, largest);
      }
    }
  }

  /** The next level stays disjoint. */
  lemma NextLevelApart(files: seq<File>, next: seq<File>, in0: seq<File>, in1: seq<File>, outs: seq<File>,
                       next': seq<File>)
    requires AllValid(files) && PairwiseApart(next) && (forall f <- in0 :: f in files) && CoversNext(next, in0, in1)
    requires ValidOutputs(in0, in1, outs) && Installed(next, in1, outs, next')
    ensures PairwiseApart(next')
  {
    hide Sorted, CoversNext, InBuilderOrder;
    forall i | 0 <= i < |next'| ensures next'[i].Valid() { assert next'[i] in next'; }
    forall f <- next', g <- next' | f != g
      ensures Compare(f.largest, g.smallest) < 0 || Compare(g.largest, f.smallest) < 0
    {
      if f in outs && g !in outs {
        OutputBeside(files, next, in0, in1, outs, f, g);
      } else if g in outs && f !in outs {
        OutputBeside(files, next, in0, in1, outs, g, f);
      }
    }
  }

  lemma OutputBeside(files: seq<File>, next: seq<File>, in0: seq<File>, in1: seq<File>, outs: seq<File>, o: File,
                     h: File)
    requires AllValid(files) && PairwiseApart(next) && (forall f <- in0 :: f in files) && CoversNext(next, in0, in1)
    requires ValidOutputs(in0, in1, outs) && o in outs && h in next && h !in in1
    ensures Compare(o.largest, h.smallest) < 0 || Compare(h.largest, o.smallest) < 0
  {
    hide Sorted, CoversNext, AllValid, Compare;
    var after := InputsBeside(files, next, in0, in1, h);
    assert o.Valid() by { assert AllValid(outs); ValidMember(outs, o); }
    var (first, last) := (o.entries[0], o.entries[|o.entries| - 1]);
    assert o in outs && first in o.entries && last in o.entries;
    assert first in EntriesOf(outs) && last in EntriesOf(outs);
    assert Beside(h, first.key, after) && Beside(h, last.key, after);
  }

  lemma ValidMember(files: seq<File>, f: File)
    requires AllValid(files) && f in files
    ensures f.Valid()
  {
  }

  lemma AboveSubset(a: set<Entry>, b: set<Entry>, a': set<Entry>, b': set<Entry>)
    requires Above(a, b) && a' <= a && b' <= b
    ensures Above(a', b')
  {
  }

  lemma AboveUnion(a: set<Entry>, b: set<Entry>, c: set<Entry>)
    ensures Above(a, b) && Above(a, c) ==> Above(a, b + c)
    ensures Above(b, a) && Above(c, a) ==> Above(b + c, a)
  {
  }

  /** What stays in the level is newer than what moved below it. */
  lemma LeftAboveOutputs(files: seq<File>, in0: seq<File>, in1: seq<File>, files': seq<File>, outs: seq<File>,
                         next: seq<File>)
    requires LeavesNoneOlder(files, in0) && Installed(files, in0, [], files')
    requires (forall g <- in1 :: g in next) && Above(EntriesOf(files), EntriesOf(next))
    requires EntriesOf(outs) <= EntriesOf(in0) + EntriesOf(in1)
    ensures Above(EntriesOf(files'), EntriesOf(outs))
  {
    hide InBuilderOrder;
    forall d, e | d in EntriesOf(files') && e in EntriesOf(outs) && d.key.user == e.key.user
      ensures d.key.seqno > e.key.seqno
    {
      var f :| f in files' && d in f.entries;
      if e in EntriesOf(in0) {
        var g :| g in in0 && e in g.entries;
        assert Above(Elements(f.entries), Elements(g.entries));
        assert d in Elements(f.entries) && e in Elements(g.entries);
      } else {
        var g :| g in in1 && e in g.entries;
        assert d in EntriesOf(files) && e in EntriesOf(next);
      }
    }
  }

  lemma SubsetApart(files: seq<File>, files': seq<File>)
    requires PairwiseApart(files) && forall f <- files' :: f in files
    ensures PairwiseApart(files')
  {
    hide Sorted;
    forall i | 0 <= i < |files'| ensures files'[i].Valid() { assert files'[i] in files'; }
  }

  lemma SubsetHigher(files: seq<File>, files': seq<File>)
    requires NewerFilesHigher(files) && forall f <- files' :: f in files
    ensures NewerFilesHigher(files')
  {
    hide Sorted, Above;
    forall i | 0 <= i < |files'| ensures files'[i].Valid() { assert files'[i] in files'; }
  }

  ghost predicate LevelOrdered(i: nat, files: seq<File>) {
    if i == 0 then NewerFilesHigher(files) else SortedDisjoint(files)
  }

  /** A compaction or move keeps the tree layered. */
  lemma ReplaceKeepsLayered(levels: seq<seq<File>>, level: nat, in0: seq<File>, in1: seq<File>, outs: seq<File>,
                            levels': seq<seq<File>>)
    requires Layered(levels) && level + 1 < |levels|
    requires ValidInputs(levels, level, in0, in1) && ValidOutputs(in0, in1, outs)
    requires Replaces(levels, level, in0, in1, outs, levels')
    ensures Layered(levels')
  {
    ReplaceKeepsOrder(levels, level, in0, in1, outs, levels');
    hide NewerFilesHigher, SortedDisjoint, LeavesNoneOlder, CoversNext, ValidOutputs;
    forall i, j | 0 <= i < j < |levels'|
      ensures Above(EntriesOf(levels'[i]), EntriesOf(levels'[j]))
    {
      ReplaceKeepsAbove(levels, level, in0, in1, outs, levels', i, j);
    }
  }

  lemma ReplaceKeepsOrder(levels: seq<seq<File>>, level: nat, in0: seq<File>, in1: seq<File>, outs: seq<File>,
                          levels': seq<seq<File>>)
    requires Layered(levels) && level + 1 < |levels|
    requires ValidInputs(levels, level, in0, in1) && ValidOutputs(in0, in1, outs)
    requires Replaces(levels, level, in0, in1, outs, levels')
    ensures forall i :: 0 <= i < |levels'| ==> LevelOrdered(i, levels'[i])
  {
    hide NewerFilesHigher, SortedDisjoint, LeavesNoneOlder, CoversNext, ValidOutputs, Above;
    var (files, next) := (levels[level], levels[level + 1]);
    if level == 0 {
      SubsetHigher(files, levels'[0]);
      HigherValid(files);
    } else {
      SortedIsApart(files);
      SubsetApart(files, levels'[level]);
      ApartIsSorted(levels'[level]);
    }
    SortedIsApart(next);
    NextLevelApart(files, next, in0, in1, outs, levels'[level + 1]);
    ApartIsSorted(levels'[level + 1]);
  }

  lemma HigherValid(files: seq<File>)
    requires NewerFilesHigher(files)
    ensures AllValid(files)
  {
  }

  lemma ReplaceKeepsAbove(levels: seq<seq<File>>, level: nat, in0: seq<File>, in1: seq<File>, outs: seq<File>,
                          levels': seq<seq<File>>, i: nat, j: nat)
    requires Layered(levels) && level + 1 < |levels|
    requires ValidInputs(levels, level, in0, in1) && ValidOutputs(in0, in1, outs)
    requires Replaces(levels, level, in0, in1, outs, levels')
    requires i < j < |levels'|
    ensures Above(EntriesOf(levels'[i]), EntriesOf(levels'[j]))
  {
    hide NewerFilesHigher, SortedDisjoint, LeavesNoneOlder, EntriesOf, PairwiseApart, Above, IsSmallest, IsLargest;
    var (own, next) := (EntriesOf(levels[level]), EntriesOf(levels[level + 1]));
    InstalledEntries(levels[level], in0, [], levels'[level]);
    InstalledEntries(levels[level + 1], in1, outs, levels'[level + 1]);
    NoEntries();
    SubsetEntries(in0, levels[level]);
    SubsetEntries(in1, levels[level + 1]);
    assert EntriesOf(levels'[level + 1]) <= own + next;
    assert EntriesOf(levels'[level]) <= own;
    if i == level && j == level + 1 {
      LeftAboveOutputs(levels[level], in0, in1, levels'[level], outs, levels[level + 1]);
      AboveSubset(own, next, EntriesOf(levels'[level]), next);
      AboveUnion(EntriesOf(levels'[level]), next, EntriesOf(outs));
      AboveSubset(EntriesOf(levels'[level]), next + EntriesOf(outs), EntriesOf(levels'[level]),
                  EntriesOf(levels'[level + 1]));
    } else if j == level + 1 {
      AboveUnion(EntriesOf(levels[i]), own, next);
      AboveSubset(EntriesOf(levels[i]), own + next, EntriesOf(levels'[i]), EntriesOf(levels'[j]));
    } else if i == level + 1 {
      AboveUnion(EntriesOf(levels[j]), own, next);
      AboveSubset(own + next, EntriesOf(levels[j]), EntriesOf(levels'[i]), EntriesOf(levels'[j]));
    } else {
      AboveSubset(EntriesOf(levels[i]), EntriesOf(levels[j]), EntriesOf(levels'[i]), EntriesOf(levels'[j]));
    }
  }

  lemma NoEntries()
    ensures EntriesOf([]) == {}
  {
  }

  lemma SubsetEntries(files: seq<File>, files': seq<File>)
    requires forall f <- files :: f in files'
    ensures EntriesOf(files) <= EntriesOf(files')
  {
  }

  // ---------------------------------------------------------------- placing a flushed memtable

  /** The level PickLevelForMemTableOutput may choose: below 0 only if no file of
      that level or above it overlaps the new one. */
  ghost predicate FreePath(levels: seq<seq<File>>, level: nat, file: File) {
    && level < |levels|
    && (level > 0 ==> forall i, f :: 0 <= i <= level && f in levels[i] ==> !Touch(f, file))
  }

  ghost predicate Places(levels: seq<seq<File>>, level: nat, file: File, levels': seq<seq<File>>) {
    && level < |levels| == |levels'|
    && (forall i :: 0 <= i < |levels| && i != level ==> levels'[i] == levels[i])
    && Installed(levels[level], [], [file], levels'[level])
  }

  lemma PlaceKeepsLayered(levels: seq<seq<File>>, level: nat, file: File, levels': seq<seq<File>>)
    requires Layered(levels) && Places(levels, level, file, levels') && FreePath(levels, level, file)
    requires file.Valid() && Above(Elements(file.entries), TreeEntries(levels))
    requires forall f <- levels[0] :: f.number < file.number
    ensures Layered(levels')
  {
    if level == 0 {
      PlaceLevel0(levels[0], file, levels'[0], levels);
    } else {
      PlaceLower(levels, level, file, levels'[level]);
    }
    hide NewerFilesHigher, SortedDisjoint, FreePath;
    forall i, j | 0 <= i < j < |levels'|
      ensures Above(EntriesOf(levels'[i]), EntriesOf(levels'[j]))
    {
      PlaceKeepsAbove(levels, level, file, levels', i, j);
    }
  }

  lemma PlaceLevel0(files: seq<File>, file: File, files': seq<File>, levels: seq<seq<File>>)
    requires NewerFilesHigher(files) && Installed(files, [], [file], files') && file.Valid()
    requires levels != [] && levels[0] == files && Above(Elements(file.entries), TreeEntries(levels))
    requires forall f <- files :: f.number < file.number
    ensures NewerFilesHigher(files')
  {
    hide InBuilderOrder, Sorted;
    forall i | 0 <= i < |files'| ensures files'[i].Valid() { assert files'[i] in files'; }
    forall f <- files
      ensures Above(Elements(file.entries), Elements(f.entries))
    {
      forall e <- Elements(f.entries) ensures e in TreeEntries(levels) { assert e in EntriesOf(levels[0]); }
      AboveSubset(Elements(file.entries), TreeEntries(levels), Elements(file.entries), Elements(f.entries));
    }
  }

  lemma PlaceLower(levels: seq<seq<File>>, level: nat, file: File, files': seq<File>)
    requires Layered(levels) && 0 < level && FreePath(levels, level, file) && file.Valid()
    requires Installed(levels[level], [], [file], files')
    ensures SortedDisjoint(files')
  {
    hide Sorted, Above;
    forall i | 0 <= i < |files'| ensures files'[i].Valid() { assert files'[i] in files'; }
    SortedIsApart(levels[level]);
    forall f <- files', g <- files' | f != g
      ensures Compare(f.largest, g.smallest) < 0 || Compare(g.largest, f.smallest) < 0
    {
      if f !in levels[level] {
        assert g in levels[level] && !Touch(g, file);
      } else if g !in levels[level] {
        assert !Touch(f, file);
      }
    }
    ApartIsSorted(files');
  }

  lemma PlaceKeepsAbove(levels: seq<seq<File>>, level: nat, file: File, levels': seq<seq<File>>, i: nat, j: nat)
    requires Layered(levels) && Places(levels, level, file, levels') && FreePath(levels, level, file)
    requires file.Valid() && Above(Elements(file.entries), TreeEntries(levels))
    requires i < j < |levels'|
    ensures Above(EntriesOf(levels'[i]), EntriesOf(levels'[j]))
  {
    hide EntriesOf, Above, Installed;
    InstalledEntries(levels[level], [], [file], levels'[level]);
    SingleEntries(file);
    var own := Elements(file.entries);
    if i == level {
      SubsetEntriesOfTree(levels, j);
      AboveSubset(own, TreeEntries(levels), own, EntriesOf(levels[j]));
      AboveUnion(EntriesOf(levels[j]), EntriesOf(levels[i]), own);
      AboveSubset(EntriesOf(levels[i]) + own, EntriesOf(levels[j]), EntriesOf(levels'[i]), EntriesOf(levels'[j]));
    } else if j == level {
      UntouchedAbove(levels[i], file) by { LayeredValid(levels, i); }
      AboveUnion(EntriesOf(levels[i]), EntriesOf(levels[j]), own);
      AboveSubset(EntriesOf(levels[i]), EntriesOf(levels[j]) + own, EntriesOf(levels'[i]), EntriesOf(levels'[j]));
    }
  }

  lemma SingleEntries(file: File)
    ensures EntriesOf([file]) == Elements(file.entries)
  {
    assert file in [file];
  }

  lemma SubsetEntriesOfTree(levels: seq<seq<File>>, j: nat)
    requires j < |levels|
    ensures EntriesOf(levels[j]) <= TreeEntries(levels)
  {
  }

  lemma LayeredValid(levels: seq<seq<File>>, i: nat)
    requires Layered(levels) && i < |levels|
    ensures AllValid(levels[i])
  {
  }

  lemma UntouchedAbove(files: seq<File>, file: File)
    requires AllValid(files) && file.Valid() && forall f <- files :: !Touch(f, file)
    ensures Above(EntriesOf(files), Elements(file.entries))
  {
    hide Sorted;
    forall d, e | d in EntriesOf(files) && e in Elements(file.entries)
      ensures d.key.user != e.key.user
    {
      var f :| f in files && d in f.entries;
      ValidMember(files, f);
      FileRange(f, d);
      FileRange(file, e);
    }
  }
}

/**
 The background work of the database (db/db_impl.cc: CompactMemTable,
 BackgroundCompaction), put together from choosing a level or inputs, merging and
 installing an edit.  What it does is a step of Runs.
 */
module Background {
  import opened Format
  import opened Version
  import opened Inputs
  import opened Compaction
  import opened Lsm
  import opened Placement
  import opened Builder
  import Merger
  import opened Runs

  // ---------------------------------------------------------------- what a sound tree offers

  lemma LevelsOrdered(levels: seq<seq<File>>)
    requires Tidy(levels)
    ensures forall l :: 0 <= l < |levels| ==> Ordered(levels[l])
    ensures forall l :: 0 <= l < |levels| ==> Distinct(levels[l])
  {
    hide Ordered, InBuilderOrder, Identified;
    forall l | 0 <= l < |levels|
      ensures Ordered(levels[l]) && Distinct(levels[l])
    {
      OrderedIsBuilderOrder(levels[l]);
      OrderedDistinct(levels[l]);
    }
  }

  lemma OrderedDistinct(files: seq<File>)
    requires Ordered(files)
    ensures Distinct(files)
  {
    hide Less;
    forall i, j | 0 <= i < j < |files| ensures files[i] != files[j] { LessTotal(files[i], files[j]); }
  }

  lemma InTree(levels: seq<seq<File>>, i: nat, f: File, e: Entry)
    requires i < |levels| && f in levels[i] && e in f.entries
    ensures e in TreeEntries(levels) && f in FilesOf(levels)
  {
    assert e in EntriesOf(levels[i]);
  }

  lemma SoundBounds(s: Db, l: Ledger, i: nat)
    requires Sound(s, l) && i < |s.levels|
    ensures BoundedSeqnos(s.levels[i]) && UniqueSeqnos(EntriesOf(s.levels[i])) && AllValid(s.levels[i])
  {
    hide Tidy, Above, Sorted, UniqueSeqnos, NewerFilesHigher, SortedDisjoint;
    LayeredValid(s.levels, i);
    SubsetEntriesOfTree(s.levels, i);
    SubsetUnique(l.writes, EntriesOf(s.levels[i]));
    forall k | 0 <= k < |s.levels[i]|
      ensures s.levels[i][k].largest.seqno <= MAX_SEQUENCE
    {
      var f := s.levels[i][k];
      ValidMember(s.levels[i], f);
      var e := f.entries[|f.entries| - 1];
      InTree(s.levels, i, f, e);
      assert e in l.writes;
    }
  }

  lemma SortedRangesInOrder(files: seq<File>)
    requires SortedDisjoint(files)
    ensures RangesInOrder(files)
  {
    hide Sorted;
    forall i | 0 <= i < |files| ensures files[i].smallest.user <= files[i].largest.user {
      FileRange(files[i], files[i].entries[0]);
    }
  }

  /** No key is stored twice in the tree. */
  lemma KeysDiffer(levels: seq<seq<File>>, i: nat, f: File, j: nat, g: File, d: Entry, e: Entry)
    requires Layered(levels) && i < |levels| && j < |levels| && f in levels[i] && g in levels[j] && (i != j || f != g)
    requires d in f.entries && e in g.entries
    ensures Compare(d.key, e.key) != 0
  {
    hide NewerFilesHigher, SortedDisjoint;
    assert d in EntriesOf(levels[i]) && e in EntriesOf(levels[j]);
    if i < j {
      assert Above(EntriesOf(levels[i]), EntriesOf(levels[j]));
    } else if j < i {
      assert Above(EntriesOf(levels[j]), EntriesOf(levels[i]));
    } else if i == 0 {
      Level0KeysDiffer(levels[0], f, g, d, e);
    } else {
      SortedKeysDiffer(levels[i], f, g, d, e);
    }
  }

  lemma Level0KeysDiffer(files: seq<File>, f: File, g: File, d: Entry, e: Entry)
    requires NewerFilesHigher(files) && f in files && g in files && f != g && d in f.entries && e in g.entries
    ensures Compare(d.key, e.key) != 0
  {
    hide AllValid;
    assert d in Elements(f.entries) && e in Elements(g.entries);
  }

  lemma SortedKeysDiffer(files: seq<File>, f: File, g: File, d: Entry, e: Entry)
    requires SortedDisjoint(files) && f in files && g in files && f != g && d in f.entries && e in g.entries
    ensures Compare(d.key, e.key) != 0
  {
    SortedIsApart(files);
    hide Sorted, SortedDisjoint;
    assert f.Valid() && g.Valid();
    FileRange(f, d);
    FileRange(g, e);
  }

  // ---------------------------------------------------------------- flush

  /** Applied by a builder, the edit of a flush places its file. */
  lemma FlushEditPlaces(levels: seq<seq<File>>, level: nat, file: File, all: set<File>, v: seq<seq<File>>)
    requires level < |levels| == |v| && Identified(all) && file in all && file !in levels[level]
    requires forall l :: 0 <= l < |levels| ==> Ordered(levels[l]) && forall f <- levels[l] :: f in all
    requires forall l :: 0 <= l < |levels| ==> v[l] == OneByOne(levels[l], [Edit([], {}, [(level, file)]).AtLevel(l)])
    ensures Places(levels, level, file, v)
  {
    hide OneByOne, Ordered, Identified, Installed;
    assert Numbers([]) == {} && [] + [(level, file)] == [(level, file)];
    forall l | 0 <= l < |levels|
      ensures l == level ==> Installed(levels[level], [], [file], v[level])
      ensures l != level ==> v[l] == levels[l]
    {
      var edit := Edit([], {}, [(level, file)]);
      assert DeletedAt({}, l) == {};
      FilesAtAppend([], level, file, l);
      assert edit.AtLevel(l) == LevelEdit({}, if l == level then [file] else []);
      if l == level {
        EditInstalls(levels[l], [], [file], all);
      } else {
        EmptyEditChangesNothing(levels[l]);
      }
    }
  }

  /** DBImpl::CompactMemTable.  `size` is what the table builder made of the entries. */
  method CompactMemTable(s: Db, ghost l: Ledger, maxGrandParentOverlapBytes: nat, size: nat)
    returns (s': Db, level: nat, file: File)
    requires Sound(s, l) && s.imm != []
    ensures FlushStep(s, l, s', l, level, file)
    ensures |s.levels| == NUM_LEVELS
    ensures Picked(s.levels, file.smallest.user, file.largest.user, maxGrandParentOverlapBytes, level)
  {
    SoundTree(s, l);
    hide *;
    file := File(s.nextFile, size, s.imm[0].key, s.imm[|s.imm| - 1].key, s.imm);
    forall i | 0 <= i < |s.levels| ensures BoundedSeqnos(s.levels[i]) { SoundBounds(s, l, i); }
    level := PickLevelForMemTableOutput(s.levels, file.smallest.user, file.largest.user, maxGrandParentOverlapBytes);
    PickedIsFree(s.levels, file, maxGrandParentOverlapBytes, level);
    PickedInRange(s.levels, file, maxGrandParentOverlapBytes, level);
    LevelsOrdered(s.levels);
    var edit := Edit([], {}, [(level, file)]);
    FlushEditInRange(level, file);
    var levels := LogAndApply(s.levels, edit);
    NewFileIdentified(s, l, file);
    FlushEditPlaces(s.levels, level, file, FilesOf(s.levels) + {file}, levels);
    s' := s.(imm := [], levels := levels, nextFile := s.nextFile + 1);
    FlushIsStep(s, l, s', level, file);
  }

  lemma SoundTree(s: Db, l: Ledger)
    requires Sound(s, l)
    ensures Layered(s.levels) && Tidy(s.levels) && |s.levels| == NUM_LEVELS && Sorted(s.imm)
    ensures s.lastSequence < MAX_SEQUENCE
  {
  }

  lemma FlushEditInRange(level: nat, file: File)
    requires level < NUM_LEVELS
    ensures Edit([], {}, [(level, file)]).InRange()
  {
  }

  lemma FlushIsStep(s: Db, l: Ledger, s': Db, level: nat, file: File)
    requires s.imm != [] && Sorted(s.imm) && file.entries == s.imm && file.number == s.nextFile
    requires file.smallest == s.imm[0].key && file.largest == s.imm[|s.imm| - 1].key
    requires FreePath(s.levels, level, file) && Places(s.levels, level, file, s'.levels)
    requires s' == s.(imm := [], levels := s'.levels, nextFile := s.nextFile + 1)
    ensures FlushStep(s, l, s', l, level, file)
  {
    hide Sorted, FreePath, Places;
  }

  lemma PickedInRange(levels: seq<seq<File>>, file: File, bytes: nat, level: nat)
    requires |levels| == NUM_LEVELS && Picked(levels, file.smallest.user, file.largest.user, bytes, level)
    ensures level < NUM_LEVELS
  {
  }

  lemma NewFileIdentified(s: Db, l: Ledger, file: File)
    requires Sound(s, l) && file.number == s.nextFile
    ensures Identified(FilesOf(s.levels) + {file})
    ensures forall i :: 0 <= i < |s.levels| ==>
      file !in s.levels[i] && forall f <- s.levels[i] :: f in FilesOf(s.levels) + {file}
  {
    hide Layered, Above, Sorted, UniqueSeqnos, InBuilderOrder;
    forall i, f | 0 <= i < |s.levels| && f in s.levels[i] ensures f in FilesOf(s.levels) {}
  }

  // ---------------------------------------------------------------- merge

  /** SnapshotList::oldest, or the last sequence number. */
  method SmallestSnapshot(s: Db) returns (smallest: nat)
    ensures OldestSnapshot(s, smallest)
  {
    smallest := s.lastSequence;
    if s.snapshots != multiset{} {
      smallest :| smallest in s.snapshots;
      var rest := s.snapshots;
      while rest != multiset{}
        invariant rest <= s.snapshots && smallest in s.snapshots
        invariant forall x :: x in s.snapshots ==> x in rest || smallest <= x
        decreases |rest|
      {
        var x :| x in rest;
        if x < smallest {
          smallest := x;
        }
        rest := rest[x := 0];
      }
    }
  }

  ghost function Children(files: seq<File>): (r: seq<seq<Entry>>)
    ensures |r| == |files| && forall i :: 0 <= i < |files| ==> r[i] == files[i].entries
  {
    seq(|files|, i requires 0 <= i < |files| => files[i].entries)
  }

  lemma InputAt(in0: seq<File>, in1: seq<File>, i: nat)
    requires i < |in0| + |in1|
    ensures if i < |in0| then (in0 + in1)[i] in in0 else (in0 + in1)[i] in in1
  {
  }

  lemma InputsDiffer(levels: seq<seq<File>>, level: nat, in0: seq<File>, in1: seq<File>)
    requires Layered(levels) && level + 1 < |levels| && Distinct(in0) && Distinct(in1)
    requires (forall f <- in0 :: f in levels[level]) && (forall f <- in1 :: f in levels[level + 1])
    ensures Merger.AllSorted(Children(in0 + in1)) && Merger.DistinctKeys(Children(in0 + in1))
  {
    hide Layered, Compare, Sorted;
    var files := in0 + in1;
    forall i | 0 <= i < |files|
      ensures Sorted(files[i].entries)
    {
      var k := if i < |in0| then level else level + 1;
      LayeredValid(levels, k);
      assert files[i] in levels[k] by { InputAt(in0, in1, i); }
      ValidMember(levels[k], files[i]);
    }
    forall i, j, d, e | 0 <= i < |files| && 0 <= j < |files| && i != j && d in files[i].entries && e in files[j].entries
      ensures Compare(d.key, e.key) != 0
    {
      var k := if i < |in0| then level else level + 1;
      var m := if j < |in0| then level else level + 1;
      assert files[i] in levels[k] && files[j] in levels[m] by { InputAt(in0, in1, i); InputAt(in0, in1, j); }
      assert k == m ==> files[i] != files[j];
      KeysDiffer(levels, k, files[i], m, files[j], d, e);
    }
  }

  lemma UnionOfInputs(in0: seq<File>, in1: seq<File>, u: seq<Entry>)
    requires Merger.IsUnion(Children(in0 + in1), u)
    ensures Sorted(u) && Elements(u) == EntriesOf(in0) + EntriesOf(in1)
  {
    hide Sorted;
    var files := in0 + in1;
    forall e
      ensures Merger.InSome(Children(files), e) <==> e in EntriesOf(in0) + EntriesOf(in1)
    {
      if Merger.InSome(Children(files), e) {
        var i :| 0 <= i < |files| && e in Children(files)[i];
        assert files[i] in in0 || files[i] in in1;
      }
      if e in EntriesOf(in0) {
        var f :| f in in0 && e in f.entries;
        var i :| 0 <= i < |in0| && in0[i] == f;
        assert e in Children(files)[i];
      } else if e in EntriesOf(in1) {
        var f :| f in in1 && e in f.entries;
        var i :| 0 <= i < |in1| && in1[i] == f;
        assert files[|in0| + i] == f;
        assert e in Children(files)[|in0| + i];
      }
    }
  }

  lemma {:induction false} PiecesSorted(outputs: seq<seq<Entry>>)
    requires Sorted(Flatten(outputs))
    ensures forall i :: 0 <= i < |outputs| ==> Sorted(outputs[i])
  {
    if outputs != [] {
      var n := |outputs| - 1;
      hide Sorted, Flatten;
      assert outputs == outputs[..n] + [outputs[n]];
      FlattenAppend(outputs[..n], outputs[n]);
      InitSorted(Flatten(outputs[..n]), outputs[n]);
      TailSorted(Flatten(outputs[..n]), outputs[n]);
      PiecesSorted(outputs[..n]);
    }
  }

  lemma TailSorted(a: seq<Entry>, b: seq<Entry>)
    requires Sorted(a + b)
    ensures Sorted(b)
  {
    hide Compare;
    forall i, j | 0 <= i < j < |b| ensures Compare(b[i].key, b[j].key) < 0 {
      assert (a + b)[|a| + i] == b[i] && (a + b)[|a| + j] == b[j];
    }
  }

  /** The files of the outputs, with new numbers.  `size` is what the table builder made of them. */
  method MakeFiles(outputs: seq<seq<Entry>>, nextFile: nat, size: nat -> nat) returns (outs: seq<File>)
    requires forall i :: 0 <= i < |outputs| ==> outputs[i] != [] && Sorted(outputs[i])
    ensures |outs| == |outputs| && AllValid(outs) && EntrySeqs(outs) == outputs
    ensures forall i :: 0 <= i < |outs| ==> outs[i].number == nextFile + i
  {
    hide Sorted, EntrySeqs;
    outs := [];
    NoEntrySeqs();
    for i := 0 to |outputs|
      invariant |outs| == i && AllValid(outs) && EntrySeqs(outs) == outputs[..i]
      invariant forall k :: 0 <= k < i ==> outs[k].number == nextFile + k
    {
      var o := outputs[i];
      var f := File(nextFile + i, size(i), o[0].key, o[|o| - 1].key, o);
      EntrySeqsAppend(outs, f);
      outs := outs + [f];
      assert outputs[..i + 1] == outputs[..i] + [o];
    }
    assert outputs[..|outputs|] == outputs;
  }

  lemma NoEntrySeqs()
    ensures EntrySeqs([]) == []
  {
  }

  lemma EntrySeqsAppend(files: seq<File>, f: File)
    ensures EntrySeqs(files + [f]) == EntrySeqs(files) + [f.entries]
  {
    assert (files + [f])[..|files|] == files;
  }

  /** The files of a compaction, old and new, have numbers of their own. */
  lemma OutputsIdentified(s: Db, l: Ledger, outs: seq<File>)
    requires Sound(s, l) && forall i :: 0 <= i < |outs| ==> outs[i].number == s.nextFile + i
    ensures Identified(FilesOf(s.levels) + (set o | o in outs))
    ensures forall o <- outs :: s.nextFile <= o.number < s.nextFile + |outs|
    ensures forall o <- outs, p <- outs :: o.number == p.number ==> o == p
    ensures forall i :: 0 <= i < |s.levels| ==>
      forall f <- s.levels[i] :: f in FilesOf(s.levels) + (set o | o in outs) && f !in outs
  {
    hide Layered, Above, Sorted, UniqueSeqnos, InBuilderOrder;
    forall i, f | 0 <= i < |s.levels| && f in s.levels[i] ensures f in FilesOf(s.levels) {}
  }

  lemma EditInRange(level: nat, in0: seq<File>, in1: seq<File>, outs: seq<File>)
    requires level + 1 < NUM_LEVELS
    ensures CompactionEdit(level, in0, in1, outs).InRange()
  {
    PlacedInRange(level + 1, outs);
    hide PlacedAt;
  }

  lemma {:induction false} PlacedInRange(level: nat, files: seq<File>)
    ensures forall p <- PlacedAt(level, files) :: p.0 == level
  {
    if files != [] { PlacedInRange(level, files[..|files| - 1]); }
  }

  /** VersionSet::MakeInputIterator, read from front to back. */
  method MergeInputs(levels: seq<seq<File>>, level: nat, in0: seq<File>, in1: seq<File>) returns (input: seq<Entry>)
    requires Layered(levels) && level + 1 < |levels| && Distinct(in0) && Distinct(in1)
    requires (forall f <- in0 :: f in levels[level]) && (forall f <- in1 :: f in levels[level + 1])
    ensures Sorted(input) && Elements(input) == EntriesOf(in0) + EntriesOf(in1)
  {
    hide *;
    InputsDiffer(levels, level, in0, in1);
    var files := in0 + in1;
    var children := seq(|files|, i requires 0 <= i < |files| => files[i].entries);
    assert children == Children(files);
    input := Merger.Scan(children);
    UnionOfInputs(in0, in1, input);
  }

  /** DBImpl::InstallCompactionResults. */
  method InstallResults(s: Db, ghost l: Ledger, level: nat, in0: seq<File>, in1: seq<File>, outs: seq<File>)
    returns (levels: seq<seq<File>>)
    requires Sound(s, l) && level + 1 < |s.levels| && forall i :: 0 <= i < |outs| ==> outs[i].number == s.nextFile + i
    requires (forall f <- in0 :: f in s.levels[level]) && (forall f <- in1 :: f in s.levels[level + 1])
    ensures Replaces(s.levels, level, in0, in1, outs, levels)
  {
    SoundTree(s, l);
    hide *;
    LevelsOrdered(s.levels);
    OutputsIdentified(s, l, outs);
    EditInRange(level, in0, in1, outs);
    levels := LogAndApply(s.levels, CompactionEdit(level, in0, in1, outs));
    CompactionEditReplaces(s.levels, level, in0, in1, outs, FilesOf(s.levels) + (set o | o in outs), levels);
  }

  /** DBImpl::DoCompactionWork with what MakeInputIterator feeds it and what
      InstallCompactionResults does with its outputs. */
  method MergeCompaction(s: Db, ghost l: Ledger, level: nat, in0: seq<File>, in1: seq<File>,
                         stopBefore: nat -> bool, full: nat -> bool, size: nat -> nat, shutdownAt: nat)
    returns (s': Db, ghost l': Ledger, job: Option<Job>)
    requires Sound(s, l) && level + 1 < |s.levels| && ValidInputs(s.levels, level, in0, in1) && Distinct(in0)
    ensures job.Some? <==> |EntriesOf(in0) + EntriesOf(in1)| < shutdownAt
    ensures if job.None? then s' == s && l' == l
      else
        && CompactStep(s, l, s', l', job.value)
        && job.value.level == level && job.value.in0 == in0 && job.value.in1 == in1
  {
    SoundTree(s, l);
    ValidInputsFacts(s.levels, level, in0, in1);
    hide *;
    LevelsOrdered(s.levels);
    InputsDistinct(s.levels, level, in0, in1);
    var input := MergeInputs(s.levels, level, in0, in1);
    var smallest := SmallestSnapshot(s);
    OldestBelow(s, l, smallest);
    LowerInOrder(s.levels, level);
    SortedCount(input);
    var ok, outputs, _ := DoCompactionWork(input, smallest, s.levels, level, stopBefore, full, shutdownAt);
    if !ok {
      return s, l, None;
    }
    assert forall i :: 0 <= i < |outputs| ==> outputs[i] != [] && Sorted(outputs[i]) by {
      SurvivorsSorted(input, |input|, smallest, s.levels, level);
      PiecesSorted(outputs);
      assert forall i :: 0 <= i < |outputs| ==> outputs[i] in outputs;
    }
    var outs := MakeFiles(outputs, s.nextFile, size);
    OutputsIdentified(s, l, outs);
    var levels := InstallResults(s, l, level, in0, in1, outs);
    job := Some(Job(level, in0, in1, input, smallest, outs));
    s' := s.(levels := levels, nextFile := s.nextFile + |outs|);
    l' := l.(horizon := if l.horizon < smallest then smallest else l.horizon);
    MergeIsStep(s, l, s', l', job.value);
  }

  /** A sorted list has as many entries as its set has. */
  lemma {:induction false} SortedCount(input: seq<Entry>)
    requires Sorted(input)
    ensures |Elements(input)| == |input|
  {
    if input != [] {
      var n := |input| - 1;
      var init := input[..n];
      assert Sorted(init);
      SortedCount(init);
      assert Elements(input) == Elements(init) + {input[n]};
      assert input[n] !in init;
    }
  }

  lemma ValidInputsFacts(levels: seq<seq<File>>, level: nat, in0: seq<File>, in1: seq<File>)
    requires level + 1 < |levels| && ValidInputs(levels, level, in0, in1)
    ensures (forall f <- in0 :: f in levels[level]) && (forall f <- in1 :: f in levels[level + 1])
  {
    CoveredInNext(levels[level + 1], in0, in1);
  }

  lemma InputsDistinct(levels: seq<seq<File>>, level: nat, in0: seq<File>, in1: seq<File>)
    requires level + 1 < |levels| && ValidInputs(levels, level, in0, in1) && Distinct(levels[level + 1])
    ensures Distinct(in1)
  {
    hide Distinct, Overlapping;
    var smallest, largest :| IsSmallest(smallest, in0) && IsLargest(largest, in0)
      && in1 == Overlapping(levels[level + 1], Some(smallest.user), Some(largest.user));
    OverlappingDistinct(levels[level + 1], Some(smallest.user), Some(largest.user));
  }

  lemma OldestBelow(s: Db, l: Ledger, smallest: nat)
    requires Sound(s, l) && OldestSnapshot(s, smallest)
    ensures smallest < MAX_SEQUENCE
  {
  }

  lemma LowerInOrder(levels: seq<seq<File>>, level: nat)
    requires Layered(levels)
    ensures forall l :: level + 2 <= l < |levels| ==> RangesInOrder(levels[l])
  {
    hide SortedDisjoint, NewerFilesHigher, RangesInOrder, Above;
    forall l | level + 2 <= l < |levels| ensures RangesInOrder(levels[l]) { SortedRangesInOrder(levels[l]); }
  }

  lemma MergeIsStep(s: Db, l: Ledger, s': Db, l': Ledger, j: Job)
    requires j.level + 1 < |s.levels| && ValidInputs(s.levels, j.level, j.in0, j.in1)
    requires OldestSnapshot(s, j.smallestSnapshot)
    requires Sorted(j.input) && Elements(j.input) == EntriesOf(j.in0) + EntriesOf(j.in1)
    requires AllValid(j.outs) && s.nextFile <= s'.nextFile && forall o <- j.outs :: s.nextFile <= o.number < s'.nextFile
    requires forall o <- j.outs, p <- j.outs :: o.number == p.number ==> o == p
    requires Flatten(EntrySeqs(j.outs)) == Survivors(j.input, |j.input|, j.smallestSnapshot, s.levels, j.level)
    requires Replaces(s.levels, j.level, j.in0, j.in1, j.outs, s'.levels)
    requires s' == s.(levels := s'.levels, nextFile := s'.nextFile)
    requires l' == l.(horizon := if l.horizon < j.smallestSnapshot then j.smallestSnapshot else l.horizon)
    ensures CompactStep(s, l, s', l', j)
  {
    hide ValidInputs, OldestSnapshot, Sorted, Elements, EntriesOf, AllValid, Flatten, EntrySeqs, Survivors, Replaces;
  }

  // ---------------------------------------------------------------- move

  /** The trivial move of DBImpl::BackgroundCompaction. */
  method TrivialMove(s: Db, ghost l: Ledger, level: nat, file: File) returns (s': Db)
    requires Sound(s, l) && level + 1 < |s.levels| && ValidInputs(s.levels, level, [file], [])
    ensures MoveStep(s, l, s', l, level, file)
  {
    SoundTree(s, l);
    ValidInputsFacts(s.levels, level, [file], []);
    hide *;
    LevelsOrdered(s.levels);
    EditInRange(level, [file], [], [file]);
    var levels := LogAndApply(s.levels, CompactionEdit(level, [file], [], [file]));
    MovedIsNew(s, l, level, file);
    CompactionEditReplaces(s.levels, level, [file], [], [file], FilesOf(s.levels), levels);
    s' := s.(levels := levels);
    MoveIsStep(s, l, s', level, file);
  }

  lemma MovedIsNew(s: Db, l: Ledger, level: nat, file: File)
    requires Sound(s, l) && level + 1 < |s.levels| && forall f <- [file] :: f in s.levels[level]
    ensures file !in s.levels[level + 1] && file in FilesOf(s.levels) && Identified(FilesOf(s.levels))
    ensures forall i :: 0 <= i < |s.levels| ==> forall f <- s.levels[i] :: f in FilesOf(s.levels)
  {
    hide NewerFilesHigher, SortedDisjoint, Sorted, UniqueSeqnos, InBuilderOrder;
    assert file in [file];
    LayeredValid(s.levels, level);
    ValidMember(s.levels[level], file);
    var e := file.entries[0];
    assert Above(EntriesOf(s.levels[level]), EntriesOf(s.levels[level + 1]));
    assert e in file.entries;
    assert e in EntriesOf(s.levels[level]);
  }

  lemma MoveIsStep(s: Db, l: Ledger, s': Db, level: nat, file: File)
    requires level + 1 < |s.levels| && ValidInputs(s.levels, level, [file], [])
    requires Replaces(s.levels, level, [file], [], [file], s'.levels) && s' == s.(levels := s'.levels)
    ensures MoveStep(s, l, s', l, level, file)
  {
    hide ValidInputs, Replaces;
  }

  // ---------------------------------------------------------------- one compaction

  /** Too many bytes two levels down lie under the inputs to move them. */
  ghost predicate Heavy(levels: seq<seq<File>>, level: nat, in0: seq<File>, maxGrandParentOverlapBytes: nat) {
    level + 2 < |levels| && exists smallest, largest ::
      IsSmallest(smallest, in0) && IsLargest(largest, in0)
      && maxGrandParentOverlapBytes <
        TotalFileSize(Overlapping(levels[level + 2], Some(smallest.user), Some(largest.user)))
  }

  /** Compaction::IsTrivialMove, with the grandparents that SetupOtherInputs looks up. */
  method IsTrivialMove(levels: seq<seq<File>>, level: nat, in0: seq<File>, in1: seq<File>,
                       maxGrandParentOverlapBytes: nat)
    returns (r: bool)
    requires Layered(levels) && in0 != []
    ensures r <==> |in0| == 1 && in1 == [] && !Heavy(levels, level, in0, maxGrandParentOverlapBytes)
  {
    if |in0| != 1 || in1 != [] {
      return false;
    }
    hide Layered, IsSmallest, IsLargest, TotalFileSize, Overlapping;
    var smallest, largest := GetRange(in0);
    if level + 2 < |levels| {
      assert RangesValid(levels[level + 2]) by { LayeredValid(levels, level + 2); ValidRanges(levels[level + 2]); }
      var grandparents, _, _ := GetOverlappingInputs(level + 2, levels[level + 2], Some(smallest.user),
                                                     Some(largest.user));
      r := TotalFileSize(grandparents) <= maxGrandParentOverlapBytes;
      forall k, m | IsSmallest(k, in0) && IsLargest(m, in0) ensures k.user == smallest.user && m.user == largest.user {
        SmallestUnique(in0, k, smallest);
        SmallestUnique(in0, m, largest);
      }
    } else {
      r := true;
    }
  }

  /** For one file: the files two levels down that overlap it have more bytes than the limit. */
  lemma HeavyFile(levels: seq<seq<File>>, level: nat, f: File, maxGrandParentOverlapBytes: nat)
    ensures Heavy(levels, level, [f], maxGrandParentOverlapBytes) <==>
      level + 2 < |levels| && maxGrandParentOverlapBytes <
        TotalFileSize(Overlapping(levels[level + 2], Some(f.smallest.user), Some(f.largest.user)))
  {
    hide TotalFileSize, Overlapping;
    RangeOfOne(f);
  }

  /** What SetupOtherInputs makes of a seed in a sound state. */
  method ChooseInputs(s: Db, ghost l: Ledger, level: nat, seed: seq<File>, byteLimit: nat)
    returns (in0: seq<File>, in1: seq<File>, compactPointer: InternalKey)
    requires Sound(s, l) && level + 1 < |s.levels| && Seed(level, s.levels[level], seed)
    ensures SetUp(level, s.levels[level], s.levels[level + 1], seed, byteLimit, in0, in1)
    ensures IsLargest(compactPointer, in0)
    ensures ValidInputs(s.levels, level, in0, in1) && Distinct(in0) && forall f <- seed :: f in in0
    ensures in0 != []
  {
    SoundTree(s, l);
    SeedFacts(level, s.levels[level], seed);
    hide *;
    SoundBounds(s, l, level);
    SoundBounds(s, l, level + 1);
    LevelsOrdered(s.levels);
    LevelApart(s.levels, level);
    in0, in1, compactPointer := SetupOtherInputs(level, s.levels[level], s.levels[level + 1], seed, byteLimit);
    InputsAreValid(s.levels, level, in0, in1);
    assert in0 != [] by { assert seed[0] in seed; }
  }

  /** DBImpl::BackgroundCompaction from the files that PickCompaction or CompactRange
      chose: whatever it does is a step, so all that Runs says holds of it, or, when
      the database is shutting down, nothing. */
  method BackgroundCompaction(s: Db, ghost l: Ledger, level: nat, seed: seq<File>, manual: bool, byteLimit: nat,
                              maxGrandParentOverlapBytes: nat, stopBefore: nat -> bool, full: nat -> bool,
                              size: nat -> nat, shutdownAt: nat)
    returns (s': Db, ghost l': Ledger, done: Option<Step>, in0: seq<File>, in1: seq<File>, compactPointer: InternalKey)
    requires Sound(s, l) && level + 1 < |s.levels| && Seed(level, s.levels[level], seed)
    ensures SetUp(level, s.levels[level], s.levels[level + 1], seed, byteLimit, in0, in1)
    ensures (forall f <- seed :: f in in0) && IsLargest(compactPointer, in0)
    ensures done.Some? ==> Next(State(s, l), done.value, State(s', l'))
    ensures if !manual && |in0| == 1 && in1 == [] && !Heavy(s.levels, level, in0, maxGrandParentOverlapBytes)
      then done == Some(Move(level, in0[0]))
      else if |EntriesOf(in0) + EntriesOf(in1)| < shutdownAt
      then done.Some? && done.value.Compact? && done.value.job.level == level
        && done.value.job.in0 == in0 && done.value.job.in1 == in1
      else done == None && s' == s && l' == l
  {
    hide *;
    in0, in1, compactPointer := ChooseInputs(s, l, level, seed, byteLimit);
    s', l', done := MoveOrMerge(s, l, level, in0, in1, manual, maxGrandParentOverlapBytes, stopBefore, full, size,
                                shutdownAt);
  }

  /** A trivial move, or else a merge. */
  method MoveOrMerge(s: Db, ghost l: Ledger, level: nat, in0: seq<File>, in1: seq<File>, manual: bool,
                     maxGrandParentOverlapBytes: nat, stopBefore: nat -> bool, full: nat -> bool, size: nat -> nat,
                     shutdownAt: nat)
    returns (s': Db, ghost l': Ledger, done: Option<Step>)
    requires Sound(s, l) && level + 1 < |s.levels| && ValidInputs(s.levels, level, in0, in1)
    requires Distinct(in0) && in0 != []
    ensures done.Some? ==> Next(State(s, l), done.value, State(s', l'))
    ensures if !manual && |in0| == 1 && in1 == [] && !Heavy(s.levels, level, in0, maxGrandParentOverlapBytes)
      then done == Some(Move(level, in0[0]))
      else if |EntriesOf(in0) + EntriesOf(in1)| < shutdownAt
      then done.Some? && done.value.Compact? && done.value.job.level == level
        && done.value.job.in0 == in0 && done.value.job.in1 == in1
      else done == None && s' == s && l' == l
  {
    SoundTree(s, l);
    hide *;
    var trivial := IsTrivialMove(s.levels, level, in0, in1, maxGrandParentOverlapBytes);
    if !manual && trivial {
      assert in0 == [in0[0]];
      s' := TrivialMove(s, l, level, in0[0]);
      l', done := l, Some(Move(level, in0[0]));
      MoveIsNext(s, l, s', level, in0[0]);
    } else {
      var job;
      s', l', job := MergeCompaction(s, l, level, in0, in1, stopBefore, full, size, shutdownAt);
      done := None;
      if job.Some? {
        done := Some(Compact(job.value));
        CompactIsNext(s, l, s', l', job.value);
      }
    }
  }

  lemma SeedFacts(level: nat, files: seq<File>, seed: seq<File>)
    requires Seed(level, files, seed)
    ensures seed != []
  {
  }

  lemma LevelApart(levels: seq<seq<File>>, level: nat)
    requires Layered(levels) && level < |levels|
    ensures level > 0 ==> PairwiseApart(levels[level])
  {
    hide NewerFilesHigher, SortedDisjoint, PairwiseApart, Above;
    if level > 0 { SortedIsApart(levels[level]); }
  }

  lemma InputsAreValid(levels: seq<seq<File>>, level: nat, in0: seq<File>, in1: seq<File>)
    requires level + 1 < |levels| && (forall f <- in0 :: f in levels[level])
    requires LeavesNoneOlder(levels[level], in0) && CoversNext(levels[level + 1], in0, in1)
    ensures ValidInputs(levels, level, in0, in1)
  {
  }

  lemma MoveIsNext(s: Db, l: Ledger, s': Db, level: nat, file: File)
    requires MoveStep(s, l, s', l, level, file)
    ensures Next(State(s, l), Move(level, file), State(s', l))
  {
    hide MoveStep;
  }

  lemma CompactIsNext(s: Db, l: Ledger, s': Db, l': Ledger, job: Job)
    requires CompactStep(s, l, s', l', job)
    ensures Next(State(s, l), Compact(job), State(s', l'))
  {
    hide CompactStep;
  }
}

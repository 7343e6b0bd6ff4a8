/**
 Whole runs of the database: what a reader is told, at the latest sequence number
 and at every live snapshot, against the history of all writes.
 */
module Runs {
  import opened Format
  import opened Version
  import opened Inputs
  import opened Compaction
  import opened Lsm

  datatype Db = Db(mem: seq<Entry>, imm: seq<Entry>, levels: seq<seq<File>>, lastSequence: nat, nextFile: nat,
                   snapshots: multiset<nat>)

  /** What the database is judged against: every write ever made, and the oldest
      sequence number that compactions so far promised to keep readable. */
  datatype Ledger = Ledger(writes: set<Entry>, horizon: nat)

  ghost function AllEntries(s: Db): set<Entry> {
    Elements(s.mem) + Elements(s.imm) + TreeEntries(s.levels)
  }

  /** What every run keeps: newer entries lie higher up, files are in order, and
      nothing is stored that was not written. */
  ghost predicate Sound(s: Db, l: Ledger) {
    && Sorted(s.mem) && Sorted(s.imm) && Layered(s.levels) && Tidy(s.levels)
    && Above(Elements(s.mem), Elements(s.imm) + TreeEntries(s.levels))
    && Above(Elements(s.imm), TreeEntries(s.levels))
    && AllEntries(s) <= l.writes && UniqueSeqnos(l.writes)
    && (forall e <- l.writes :: e.key.seqno <= s.lastSequence)
    && s.lastSequence < MAX_SEQUENCE
    && NumbersBelow(s.levels, s.nextFile)
    && l.horizon <= s.lastSequence && (forall x :: x in s.snapshots ==> l.horizon <= x <= s.lastSequence)
  }

  ghost predicate NumbersBelow(levels: seq<seq<File>>, bound: nat) {
    forall f <- FilesOf(levels) :: f.number < bound
  }

  /** The stored entries tell every reader what the history tells them. */
  ghost predicate Inv(s: Db, l: Ledger) {
    Sound(s, l) && SameMeaning(l.writes, AllEntries(s), l.horizon)
  }

  // ---------------------------------------------------------------- reading

  /** DBImpl::Get: memtable, immutable memtable, then the version. */
  method Get(s: Db, user: nat, snapshot: nat) returns (r: Option<Entry>)
    requires Sorted(s.mem) && Sorted(s.imm) && Layered(s.levels)
    requires Above(Elements(s.mem), Elements(s.imm) + TreeEntries(s.levels))
    requires Above(Elements(s.imm), TreeEntries(s.levels))
    ensures Answers(AllEntries(s), user, snapshot, r)
  {
    hide Sorted, Layered, Above, Answers, TreeEntries;
    ghost var (mem, imm, tree) := (Elements(s.mem), Elements(s.imm), TreeEntries(s.levels));
    assert AllEntries(s) == mem + (imm + tree);
    ghost var below := AnswerExists(imm + tree, user, snapshot);
    ghost var q := AnswerExists(tree, user, snapshot);
    r := TableGet(s.mem, user, snapshot);
    TableGetAnswers(s.mem, user, snapshot);
    if r.Some? {
      FirstHitWins(mem, imm + tree, user, snapshot, r, below);
      return;
    }
    r := TableGet(s.imm, user, snapshot);
    TableGetAnswers(s.imm, user, snapshot);
    if r.Some? {
      FirstHitWins(imm, tree, user, snapshot, r, q);
      FirstHitWins(mem, imm + tree, user, snapshot, None, r);
      return;
    }
    r := Version.Get(s.levels, user, snapshot);
    FirstHitWins(imm, tree, user, snapshot, None, r);
    FirstHitWins(mem, imm + tree, user, snapshot, None, r);
  }

  /** A reader at the latest sequence number or at a live snapshot is told what
      the history of writes says. */
  method Read(s: Db, ghost l: Ledger, user: nat, snapshot: nat) returns (v: Option<string>)
    requires Inv(s, l) && (snapshot == s.lastSequence || snapshot in s.snapshots)
    ensures forall w :: Answers(l.writes, user, snapshot, w) ==> v == Found(w)
  {
    hide Layered, Tidy, Sorted, Above, Answers, UniqueSeqnos;
    var r := Get(s, user, snapshot);
    v := Found(r);
  }

  // ---------------------------------------------------------------- meaning

  lemma SameMeaningTransitive(a: set<Entry>, b: set<Entry>, c: set<Entry>, h: nat, k: nat)
    requires SameMeaning(a, b, h) && SameMeaning(b, c, k)
    ensures SameMeaning(a, c, if h < k then k else h)
  {
    hide Answers;
    forall user, snapshot, r, r' | snapshot >= h && snapshot >= k && Answers(a, user, snapshot, r)
      && Answers(c, user, snapshot, r')
      ensures Found(r) == Found(r')
    {
      var q := AnswerExists(b, user, snapshot);
    }
  }

  lemma SameMeaningBack(a: set<Entry>, b: set<Entry>, c: set<Entry>, h: nat, k: nat)
    requires SameMeaning(a, b, h) && SameMeaning(a, c, k) && h <= k
    ensures SameMeaning(b, c, k)
  {
    hide Answers;
    forall user, snapshot, r, r' | snapshot >= k && Answers(b, user, snapshot, r) && Answers(c, user, snapshot, r')
      ensures Found(r) == Found(r')
    {
      var q := AnswerExists(a, user, snapshot);
    }
  }

  /** Newer entries on top of both sets change nothing. */
  lemma SameMeaningExtended(a: set<Entry>, b: set<Entry>, h: nat, top: set<Entry>)
    requires SameMeaning(a, b, h) && Above(top, a) && Above(top, b)
    requires UniqueSeqnos(a + top) && UniqueSeqnos(b + top)
    ensures SameMeaning(a + top, b + top, h)
  {
    hide Answers, Above, UniqueSeqnos;
    assert top + a == a + top && top + b == b + top;
    forall user, snapshot, r, r' | snapshot >= h && Answers(a + top, user, snapshot, r)
      && Answers(b + top, user, snapshot, r')
      ensures Found(r) == Found(r')
    {
      var t := AnswerExists(top, user, snapshot);
      var p := AnswerExists(a, user, snapshot);
      var q := AnswerExists(b, user, snapshot);
      FirstHitWins(top, a, user, snapshot, t, p);
      FirstHitWins(top, b, user, snapshot, t, q);
      AnswersUnique(a + top, user, snapshot, r, if t.Some? then t else p);
      AnswersUnique(b + top, user, snapshot, r', if t.Some? then t else q);
    }
  }

  // ---------------------------------------------------------------- steps

  /** A batch takes the next sequence numbers, in order. */
  ghost predicate WriteStep(s: Db, l: Ledger, s': Db, l': Ledger, batch: seq<Entry>) {
    && s.lastSequence + |batch| < MAX_SEQUENCE
    && (forall i :: 0 <= i < |batch| ==> batch[i].key.seqno == s.lastSequence + 1 + i)
    && Sorted(s'.mem) && Elements(s'.mem) == Elements(s.mem) + Elements(batch)
    && s' == s.(mem := s'.mem, lastSequence := s.lastSequence + |batch|)
    && l' == l.(writes := l.writes + Elements(batch))
  }

  /** MakeRoomForWrite: the full memtable becomes the immutable one. */
  ghost predicate RotateStep(s: Db, l: Ledger, s': Db, l': Ledger) {
    s.imm == [] && s' == s.(mem := [], imm := s.mem) && l' == l
  }

  /** CompactMemTable: the immutable memtable becomes a file. */
  ghost predicate FlushStep(s: Db, l: Ledger, s': Db, l': Ledger, level: nat, file: File) {
    && s.imm != [] && file.Valid() && file.entries == s.imm
    && s.nextFile <= file.number < s'.nextFile
    && FreePath(s.levels, level, file) && Places(s.levels, level, file, s'.levels)
    && s' == s.(imm := [], levels := s'.levels, nextFile := s'.nextFile)
    && l' == l
  }

  /** A trivial move of one file to the next level. */
  ghost predicate MoveStep(s: Db, l: Ledger, s': Db, l': Ledger, level: nat, file: File) {
    && level + 1 < |s.levels|
    && ValidInputs(s.levels, level, [file], [])
    && Replaces(s.levels, level, [file], [], [file], s'.levels)
    && s' == s.(levels := s'.levels)
    && l' == l
  }

  ghost predicate OldestSnapshot(s: Db, smallest: nat) {
    if s.snapshots == multiset{} then smallest == s.lastSequence
    else smallest in s.snapshots && forall x :: x in s.snapshots ==> smallest <= x
  }

  ghost function EntrySeqs(files: seq<File>): (r: seq<seq<Entry>>)
    ensures |r| == |files|
  {
    if files == [] then [] else EntrySeqs(files[..|files| - 1]) + [files[|files| - 1].entries]
  }

  /** What a compaction works on: its inputs, their merge, and its outputs. */
  datatype Job = Job(level: nat, in0: seq<File>, in1: seq<File>, input: seq<Entry>, smallestSnapshot: nat,
                     outs: seq<File>)

  /** A merge compaction. */
  ghost predicate CompactStep(s: Db, l: Ledger, s': Db, l': Ledger, j: Job) {
    && j.level + 1 < |s.levels|
    && ValidInputs(s.levels, j.level, j.in0, j.in1)
    && OldestSnapshot(s, j.smallestSnapshot)
    && Sorted(j.input) && Elements(j.input) == EntriesOf(j.in0) + EntriesOf(j.in1)
    && AllValid(j.outs) && s.nextFile <= s'.nextFile
    && (forall o <- j.outs :: s.nextFile <= o.number < s'.nextFile)
    && (forall o <- j.outs, p <- j.outs :: o.number == p.number ==> o == p)
    && Flatten(EntrySeqs(j.outs)) == Survivors(j.input, |j.input|, j.smallestSnapshot, s.levels, j.level)
    && Replaces(s.levels, j.level, j.in0, j.in1, j.outs, s'.levels)
    && s' == s.(levels := s'.levels, nextFile := s'.nextFile)
    && l' == l.(horizon := if l.horizon < j.smallestSnapshot then j.smallestSnapshot else l.horizon)
  }

  ghost predicate SnapshotStep(s: Db, l: Ledger, s': Db, l': Ledger) {
    s' == s.(snapshots := s.snapshots + multiset{s.lastSequence}) && l' == l
  }

  ghost predicate ReleaseStep(s: Db, l: Ledger, s': Db, l': Ledger, snapshot: nat) {
    s' == s.(snapshots := s.snapshots - multiset{snapshot}) && l' == l
  }

  /** The entries of the tree that a compaction does not read. */
  ghost function LeftOut(levels: seq<seq<File>>, level: nat, in0: seq<File>, in1: seq<File>): set<Entry> {
    set i, f, e | 0 <= i < |levels| && f in levels[i] && !(i == level && f in in0) && !(i == level + 1 && f in in1)
      && e in f.entries :: e
  }

  ghost function Rest(s: Db, j: Job): set<Entry> {
    Elements(s.mem) + Elements(s.imm) + LeftOut(s.levels, j.level, j.in0, j.in1)
  }

  lemma TreeBefore(levels: seq<seq<File>>, level: nat, in0: seq<File>, in1: seq<File>)
    requires level + 1 < |levels| && (forall f <- in0 :: f in levels[level])
    requires forall f <- in1 :: f in levels[level + 1]
    ensures TreeEntries(levels) == EntriesOf(in0) + EntriesOf(in1) + LeftOut(levels, level, in0, in1)
  {
    var left := LeftOut(levels, level, in0, in1);
    forall e | e in TreeEntries(levels)
      ensures e in EntriesOf(in0) + EntriesOf(in1) + left
    {
      var i :| 0 <= i < |levels| && e in EntriesOf(levels[i]);
      var f :| f in levels[i] && e in f.entries;
    }
    forall e | e in EntriesOf(in0) + EntriesOf(in1) + left
      ensures e in TreeEntries(levels)
    {
      if e in EntriesOf(in0) {
        assert e in EntriesOf(levels[level]);
      } else if e in EntriesOf(in1) {
        assert e in EntriesOf(levels[level + 1]);
      } else {
        var i, f :| 0 <= i < |levels| && f in levels[i] && e in f.entries;
        assert e in EntriesOf(levels[i]);
      }
    }
  }

  lemma TreeAfter(levels: seq<seq<File>>, level: nat, in0: seq<File>, in1: seq<File>, outs: seq<File>,
                  levels': seq<seq<File>>)
    requires Replaces(levels, level, in0, in1, outs, levels')
    ensures TreeEntries(levels') == EntriesOf(outs) + LeftOut(levels, level, in0, in1)
  {
    hide InBuilderOrder;
    var left := LeftOut(levels, level, in0, in1);
    forall e | e in TreeEntries(levels')
      ensures e in EntriesOf(outs) + left
    {
      var i :| 0 <= i < |levels'| && e in EntriesOf(levels'[i]);
      var f :| f in levels'[i] && e in f.entries;
      if !(i == level + 1 && f in outs) {
        assert f in levels[i];
      }
    }
    forall e | e in EntriesOf(outs) + left
      ensures e in TreeEntries(levels')
    {
      if e in EntriesOf(outs) {
        var f :| f in outs && e in f.entries;
        assert f in levels'[level + 1];
        assert e in EntriesOf(levels'[level + 1]);
      } else {
        var i, f :| 0 <= i < |levels| && f in levels[i] && !(i == level && f in in0)
          && !(i == level + 1 && f in in1) && e in f.entries;
        assert f in levels'[i];
        assert e in EntriesOf(levels'[i]);
      }
    }
  }

  // ---------------------------------------------------------------- outputs of a merge

  lemma OutputSplit(outs: seq<File>)
    requires outs != []
    ensures var n := |outs| - 1;
      && Flatten(EntrySeqs(outs)) == Flatten(EntrySeqs(outs[..n])) + outs[n].entries
      && EntriesOf(outs) == EntriesOf(outs[..n]) + Elements(outs[n].entries)
  {
    var n := |outs| - 1;
    EntriesSplit(outs);
    hide EntriesOf, Elements;
    assert EntrySeqs(outs)[..n] == EntrySeqs(outs[..n]);
  }

  lemma EntriesSplit(outs: seq<File>)
    requires outs != []
    ensures EntriesOf(outs) == EntriesOf(outs[..|outs| - 1]) + Elements(outs[|outs| - 1].entries)
  {
    var n := |outs| - 1;
    assert outs == outs[..n] + [outs[n]] && outs[n] in outs;
    forall e | e in EntriesOf(outs)
      ensures e in EntriesOf(outs[..n]) + Elements(outs[n].entries)
    {
      var f :| f in outs && e in f.entries;
    }
  }

  lemma {:induction false} OutputEntries(outs: seq<File>)
    ensures Elements(Flatten(EntrySeqs(outs))) == EntriesOf(outs)
  {
    if outs != [] {
      hide EntriesOf, EntrySeqs, Flatten;
      OutputEntries(outs[..|outs| - 1]);
      OutputSplit(outs);
    }
  }

  lemma SortedSplit(a: seq<Entry>, b: seq<Entry>)
    requires Sorted(a + b)
    ensures Sorted(a)
    ensures forall d, e :: d in a && e in b ==> Compare(d.key, e.key) < 0
  {
    hide Compare;
    forall i, j | 0 <= i < j < |a|
      ensures Compare(a[i].key, a[j].key) < 0
    {
      assert (a + b)[i] == a[i] && (a + b)[j] == a[j];
    }
    forall d, e | d in a && e in b
      ensures Compare(d.key, e.key) < 0
    {
      var i :| 0 <= i < |a| && a[i] == d;
      var j :| 0 <= j < |b| && b[j] == e;
      assert (a + b)[i] == d && (a + b)[|a| + j] == e;
    }
  }

  /** Cut from one sorted sequence, the outputs are disjoint. */
  lemma ApartAppend(files: seq<File>, o: File)
    requires PairwiseApart(files) && o.Valid() && forall f <- files :: Compare(f.largest, o.smallest) < 0
    ensures PairwiseApart(files + [o])
  {
    hide Compare, Sorted;
  }

  lemma OutputBefore(init: seq<File>, f: File, o: File)
    requires AllValid(init) && f in init && o.Valid() && Sorted(Flatten(EntrySeqs(init)) + o.entries)
    ensures Compare(f.largest, o.smallest) < 0
  {
    hide EntrySeqs, Flatten, Compare, Sorted;
    SortedSplit(Flatten(EntrySeqs(init)), o.entries);
    ValidMember(init, f);
    OutputEntries(init);
    var last := f.entries[|f.entries| - 1];
    assert last in f.entries;
    assert last in EntriesOf(init);
    assert last in Elements(Flatten(EntrySeqs(init)));
  }

  lemma LastApart(outs: seq<File>)
    requires outs != [] && AllValid(outs) && Sorted(Flatten(EntrySeqs(outs))) && PairwiseApart(outs[..|outs| - 1])
    ensures PairwiseApart(outs)
  {
    hide *;
    var (init, o) := (outs[..|outs| - 1], outs[|outs| - 1]);
    OutputSplit(outs);
    assert AllValid(init) by { PrefixValid(outs); }
    assert o.Valid() by { ValidMember(outs, o); }
    forall f <- init
      ensures Compare(f.largest, o.smallest) < 0
    {
      OutputBefore(init, f, o);
    }
    ApartAppend(init, o);
    assert outs == init + [o];
  }

  lemma PrefixValid(outs: seq<File>)
    requires outs != [] && AllValid(outs)
    ensures AllValid(outs[..|outs| - 1])
  {
    hide Sorted;
  }

  lemma {:induction false} OutputsApart(outs: seq<File>)
    requires AllValid(outs) && Sorted(Flatten(EntrySeqs(outs)))
    ensures PairwiseApart(outs)
  {
    if outs != [] {
      var n := |outs| - 1;
      assert Sorted(Flatten(EntrySeqs(outs[..n]))) by {
        hide Sorted, EntrySeqs, Flatten;
        OutputSplit(outs);
        InitSorted(Flatten(EntrySeqs(outs[..n])), outs[n].entries);
      }
      PrefixValid(outs);
      hide *;
      OutputsApart(outs[..n]);
      LastApart(outs);
    }
  }

  lemma InitSorted(a: seq<Entry>, b: seq<Entry>)
    requires Sorted(a + b)
    ensures Sorted(a)
  {
    SortedSplit(a, b);
  }

  // ---------------------------------------------------------------- every step keeps the invariant

  lemma NewerAreAbove(batch: set<Entry>, earlier: set<Entry>, bound: nat)
    requires (forall e <- batch :: e.key.seqno > bound) && (forall e <- earlier :: e.key.seqno <= bound)
    ensures Above(batch, earlier)
  {
  }

  lemma BatchUnique(writes: set<Entry>, batch: seq<Entry>, bound: nat)
    requires UniqueSeqnos(writes) && (forall e <- writes :: e.key.seqno <= bound)
    requires forall i :: 0 <= i < |batch| ==> batch[i].key.seqno == bound + 1 + i
    ensures UniqueSeqnos(writes + Elements(batch))
    ensures forall e <- Elements(batch) :: bound < e.key.seqno <= bound + |batch|
  {
  }

  lemma WriteKeepsSound(s: Db, l: Ledger, s': Db, l': Ledger, batch: seq<Entry>)
    requires Sound(s, l) && WriteStep(s, l, s', l', batch)
    ensures Sound(s', l')
  {
    hide Layered, Tidy, Sorted, UniqueSeqnos, Above, TreeEntries;
    var (mem, imm, tree, added) := (Elements(s.mem), Elements(s.imm), TreeEntries(s.levels), Elements(batch));
    BatchUnique(l.writes, batch, s.lastSequence);
    NewerAreAbove(added, AllEntries(s), s.lastSequence);
    AboveSubset(added, AllEntries(s), added, imm + tree);
    AboveUnion(imm + tree, mem, added);
    assert Elements(s'.mem) == mem + added;
  }

  lemma WriteKeepsInv(s: Db, l: Ledger, s': Db, l': Ledger, batch: seq<Entry>)
    requires Inv(s, l) && WriteStep(s, l, s', l', batch)
    ensures Inv(s', l')
  {
    WriteKeepsSound(s, l, s', l', batch);
    hide Layered, Tidy, Sorted, SameMeaning, UniqueSeqnos, Above, TreeEntries;
    var added := Elements(batch);
    BatchUnique(l.writes, batch, s.lastSequence);
    NewerAreAbove(added, l.writes, s.lastSequence);
    NewerAreAbove(added, AllEntries(s), s.lastSequence);
    assert AllEntries(s') == AllEntries(s) + added;
    SubsetUnique(l.writes + added, AllEntries(s) + added);
    SameMeaningExtended(l.writes, AllEntries(s), l.horizon, added);
  }

  lemma RotateKeepsSound(s: Db, l: Ledger, s': Db, l': Ledger)
    requires Sound(s, l) && RotateStep(s, l, s', l')
    ensures Sound(s', l') && AllEntries(s') == AllEntries(s)
  {
    hide Layered, Tidy, UniqueSeqnos, TreeEntries;
    assert AllEntries(s') == AllEntries(s);
    AboveSubset(Elements(s.mem), Elements(s.imm) + TreeEntries(s.levels), Elements(s.mem), TreeEntries(s.levels));
  }

  lemma TreePlaced(levels: seq<seq<File>>, level: nat, file: File, levels': seq<seq<File>>)
    requires Places(levels, level, file, levels')
    ensures TreeEntries(levels') == TreeEntries(levels) + Elements(file.entries)
  {
    hide InBuilderOrder;
    forall e | e in TreeEntries(levels')
      ensures e in TreeEntries(levels) + Elements(file.entries)
    {
      var i :| 0 <= i < |levels'| && e in EntriesOf(levels'[i]);
      var f :| f in levels'[i] && e in f.entries;
      if f != file {
        assert f in levels[i];
        assert e in EntriesOf(levels[i]);
      }
    }
    forall e | e in TreeEntries(levels) + Elements(file.entries)
      ensures e in TreeEntries(levels')
    {
      if e in Elements(file.entries) {
        assert file in levels'[level];
        assert e in EntriesOf(levels'[level]);
      } else {
        var i :| 0 <= i < |levels| && e in EntriesOf(levels[i]);
        var f :| f in levels[i] && e in f.entries;
        assert f in levels'[i];
        assert e in EntriesOf(levels'[i]);
      }
    }
  }

  lemma FlushKeepsSound(s: Db, l: Ledger, s': Db, l': Ledger, level: nat, file: File)
    requires Sound(s, l) && FlushStep(s, l, s', l', level, file)
    ensures Sound(s', l') && AllEntries(s') == AllEntries(s)
  {
    hide UniqueSeqnos, TreeEntries, Sorted, Above, FreePath, Layered, Tidy;
    NumbersPlaced(s.levels, level, file, s'.levels, s.nextFile, s'.nextFile);
    assert |s.levels| > 0 && forall f <- s.levels[0] :: f.number < file.number;
    PlaceKeepsLayered(s.levels, level, file, s'.levels);
    TreePlaced(s.levels, level, file, s'.levels);
    assert Elements(s'.imm) == {};
    assert Elements(s'.imm) + TreeEntries(s'.levels) == Elements(s.imm) + TreeEntries(s.levels);
    assert AllEntries(s') == AllEntries(s);
    NothingAbove(TreeEntries(s'.levels));
    SortedNone();
  }

  lemma SortedNone()
    ensures Sorted([])
  {
  }

  lemma NothingAbove(b: set<Entry>)
    ensures Above({}, b)
  {
  }

  lemma NumbersPlaced(levels: seq<seq<File>>, level: nat, file: File, levels': seq<seq<File>>, bound: nat, bound': nat)
    requires Places(levels, level, file, levels') && bound <= file.number < bound'
    requires Tidy(levels) && NumbersBelow(levels, bound)
    ensures Tidy(levels') && NumbersBelow(levels', bound')
    ensures forall i, f :: 0 <= i < |levels| && f in levels[i] ==> f.number < file.number
  {
    hide InBuilderOrder;
    forall i, f | 0 <= i < |levels| && f in levels[i] ensures f.number < bound { assert f in FilesOf(levels); }
    assert FilesOf(levels') <= FilesOf(levels) + {file};
  }

  lemma NumbersReplaced(levels: seq<seq<File>>, level: nat, in0: seq<File>, in1: seq<File>, outs: seq<File>,
                        levels': seq<seq<File>>, bound: nat, bound': nat)
    requires Replaces(levels, level, in0, in1, outs, levels') && bound <= bound'
    requires Tidy(levels) && NumbersBelow(levels, bound)
    requires forall o <- outs, p <- outs :: o.number == p.number ==> o == p
    requires forall o <- outs :: bound <= o.number < bound' || o in in0
    requires forall f <- in0 :: f in levels[level]
    ensures Tidy(levels') && NumbersBelow(levels', bound')
  {
    hide InBuilderOrder;
    forall f <- FilesOf(levels')
      ensures f in FilesOf(levels) || f in outs
    {
      var i :| 0 <= i < |levels'| && f in levels'[i];
      assert f in levels[i] || f in outs;
    }
    forall i, f | 0 <= i < |levels| && f in levels[i] ensures f in FilesOf(levels) {}
  }

  lemma MoveKeepsSound(s: Db, l: Ledger, s': Db, l': Ledger, level: nat, file: File)
    requires Sound(s, l) && MoveStep(s, l, s', l', level, file)
    ensures Sound(s', l') && AllEntries(s') == AllEntries(s)
  {
    hide UniqueSeqnos, TreeEntries, Sorted, Above, LeavesNoneOlder, CoversNext, Layered, Tidy, Replaces, EntriesOf,
         LeftOut, FilesOf;
    var in0 := [file];
    assert file in in0 && file in s.levels[level];
    assert file.Valid() by { LayeredValid(s.levels, level); ValidMember(s.levels[level], file); }
    SingleOutput(file);
    ReplaceKeepsLayered(s.levels, level, in0, [], in0, s'.levels);
    TreeBefore(s.levels, level, in0, []);
    TreeAfter(s.levels, level, in0, [], in0, s'.levels);
    NoEntries();
    assert TreeEntries(s'.levels) == TreeEntries(s.levels);
    NumbersReplaced(s.levels, level, in0, [], in0, s'.levels, s.nextFile, s.nextFile);
  }

  lemma SingleOutput(file: File)
    requires file.Valid()
    ensures ValidOutputs([file], [], [file])
  {
    hide Sorted, Compare;
  }

  lemma CoveredInNext(next: seq<File>, in0: seq<File>, in1: seq<File>)
    requires CoversNext(next, in0, in1)
    ensures forall f <- in1 :: f in next
  {
  }

  /** The entries a compaction finds and those it leaves. */
  lemma CompactEntries(s: Db, l: Ledger, s': Db, l': Ledger, j: Job)
    requires CompactStep(s, l, s', l', j)
    ensures Before(j.input, Rest(s, j)) == AllEntries(s)
    ensures AfterMerge(j.input, Rest(s, j), j.smallestSnapshot, s.levels, j.level) == AllEntries(s')
    ensures AllEntries(s') <= AllEntries(s)
    ensures TreeEntries(s.levels) == EntriesOf(j.in0) + EntriesOf(j.in1) + LeftOut(s.levels, j.level, j.in0, j.in1)
    ensures TreeEntries(s'.levels) == EntriesOf(j.outs) + LeftOut(s.levels, j.level, j.in0, j.in1)
  {
    hide TreeEntries, Sorted, LeavesNoneOlder, CoversNext, EntriesOf, Survivors, Flatten, EntrySeqs, LeftOut, Installed,
         InBuilderOrder;
    CoveredInNext(s.levels[j.level + 1], j.in0, j.in1);
    OutputEntries(j.outs);
    TreeBefore(s.levels, j.level, j.in0, j.in1);
    TreeAfter(s.levels, j.level, j.in0, j.in1, j.outs, s'.levels);
    AfterIsSubset(j.input, Rest(s, j), j.smallestSnapshot, s.levels, j.level);
  }

  /** Any compaction, safe or not, keeps the tree layered. */
  lemma CompactKeepsSound(s: Db, l: Ledger, s': Db, l': Ledger, j: Job)
    requires Sound(s, l) && CompactStep(s, l, s', l', j)
    ensures Sound(s', l')
  {
    hide UniqueSeqnos, TreeEntries, Sorted, Above, LeavesNoneOlder, CoversNext, EntriesOf, Survivors, Flatten,
         EntrySeqs, LeftOut, Installed, Layered, Tidy, PairwiseApart, FilesOf;
    CompactEntries(s, l, s', l', j);
    SurvivorsSorted(j.input, |j.input|, j.smallestSnapshot, s.levels, j.level);
    OutputsApart(j.outs);
    MergeOutputs(j, s.levels);
    ReplaceKeepsLayered(s.levels, j.level, j.in0, j.in1, j.outs, s'.levels);
    TreeShrinks(s, s', j);
    NumbersReplaced(s.levels, j.level, j.in0, j.in1, j.outs, s'.levels, s.nextFile, s'.nextFile);
  }

  lemma CompactHorizon(s: Db, l: Ledger, s': Db, l': Ledger, j: Job)
    requires Sound(s, l) && CompactStep(s, l, s', l', j)
    ensures l.horizon <= j.smallestSnapshot == l'.horizon && l'.writes == l.writes
    ensures Sorted(j.input) && UniqueSeqnos(AllEntries(s))
  {
    hide Layered, Tidy, Above, ValidInputs, EntriesOf, Survivors, Flatten, EntrySeqs, Replaces, AllValid, Sorted,
         UniqueSeqnos;
    SubsetUnique(l.writes, AllEntries(s));
  }

  /** A compaction keeps what readers are told exactly when it lets no left-out value resurface. */
  lemma CompactKeepsInvIff(s: Db, l: Ledger, s': Db, l': Ledger, j: Job)
    requires Inv(s, l) && CompactStep(s, l, s', l', j)
    ensures Inv(s', l') <==> NothingResurfaces(j.input, Rest(s, j), j.smallestSnapshot, s.levels, j.level)
  {
    hide Sound, CompactStep, SameMeaning, AllEntries, Before, AfterMerge, Rest, NothingResurfaces, TreeEntries,
         EntriesOf;
    CompactKeepsSound(s, l, s', l', j);
    CompactEntries(s, l, s', l', j);
    CompactHorizon(s, l, s', l', j);
    MergeKeepsMeaningIff(j.input, Rest(s, j), j.smallestSnapshot, s.levels, j.level);
    if SameMeaning(AllEntries(s), AllEntries(s'), j.smallestSnapshot) {
      SameMeaningTransitive(l.writes, AllEntries(s), AllEntries(s'), l.horizon, j.smallestSnapshot);
    }
    if Inv(s', l') {
      SameMeaningBack(l.writes, AllEntries(s), AllEntries(s'), l.horizon, j.smallestSnapshot);
    }
  }

  lemma MergeOutputs(j: Job, levels: seq<seq<File>>)
    requires Elements(j.input) == EntriesOf(j.in0) + EntriesOf(j.in1)
    requires Flatten(EntrySeqs(j.outs)) == Survivors(j.input, |j.input|, j.smallestSnapshot, levels, j.level)
    requires PairwiseApart(j.outs)
    ensures ValidOutputs(j.in0, j.in1, j.outs)
  {
    hide PairwiseApart, EntriesOf, Survivors, Flatten, EntrySeqs;
    OutputEntries(j.outs);
    forall e <- EntriesOf(j.outs)
      ensures e in Elements(j.input)
    {
      SurvivorsAre(j.input, |j.input|, j.smallestSnapshot, levels, j.level, e);
    }
  }

  lemma TreeShrinks(s: Db, s': Db, j: Job)
    requires s'.mem == s.mem && s'.imm == s.imm
    requires EntriesOf(j.outs) <= EntriesOf(j.in0) + EntriesOf(j.in1)
    requires TreeEntries(s.levels) == EntriesOf(j.in0) + EntriesOf(j.in1) + LeftOut(s.levels, j.level, j.in0, j.in1)
    requires TreeEntries(s'.levels) == EntriesOf(j.outs) + LeftOut(s.levels, j.level, j.in0, j.in1)
    requires Above(Elements(s.mem), Elements(s.imm) + TreeEntries(s.levels))
    requires Above(Elements(s.imm), TreeEntries(s.levels))
    ensures Above(Elements(s.mem), Elements(s.imm) + TreeEntries(s'.levels))
    ensures Above(Elements(s.imm), TreeEntries(s'.levels))
  {
    hide Above, LeftOut, EntriesOf, TreeEntries;
    AboveSubset(Elements(s.mem), Elements(s.imm) + TreeEntries(s.levels), Elements(s.mem),
                Elements(s.imm) + TreeEntries(s'.levels));
    AboveSubset(Elements(s.imm), TreeEntries(s.levels), Elements(s.imm), TreeEntries(s'.levels));
  }

  // ---------------------------------------------------------------- runs

  datatype Step =
    | Write(batch: seq<Entry>)
    | Rotate
    | Flush(flushLevel: nat, flushed: File)
    | Move(moveLevel: nat, moved: File)
    | Compact(job: Job)
    | Snapshot
    | Release(snapshot: nat)

  datatype State = State(db: Db, ledger: Ledger)

  ghost predicate Next(x: State, step: Step, y: State) {
    match step
    case Write(batch) => WriteStep(x.db, x.ledger, y.db, y.ledger, batch)
    case Rotate => RotateStep(x.db, x.ledger, y.db, y.ledger)
    case Flush(level, file) => FlushStep(x.db, x.ledger, y.db, y.ledger, level, file)
    case Move(level, file) => MoveStep(x.db, x.ledger, y.db, y.ledger, level, file)
    case Compact(job) => CompactStep(x.db, x.ledger, y.db, y.ledger, job)
    case Snapshot => SnapshotStep(x.db, x.ledger, y.db, y.ledger)
    case Release(snapshot) => ReleaseStep(x.db, x.ledger, y.db, y.ledger, snapshot)
  }

  /** A compaction that lets no left-out value resurface; any other step. */
  ghost predicate Safe(x: State, step: Step) {
    step.Compact? ==>
      NothingResurfaces(step.job.input, Rest(x.db, step.job), step.job.smallestSnapshot, x.db.levels, step.job.level)
  }

  ghost predicate Init(x: State) {
    && x.db.mem == [] && x.db.imm == [] && x.db.snapshots == multiset{} && x.db.lastSequence == 0
    && |x.db.levels| == NUM_LEVELS && (forall i :: 0 <= i < NUM_LEVELS ==> x.db.levels[i] == [])
    && x.ledger == Ledger({}, 0)
  }

  ghost predicate Run(states: seq<State>, steps: seq<Step>) {
    && |states| == |steps| + 1
    && Init(states[0])
    && forall i :: 0 <= i < |steps| ==> Next(states[i], steps[i], states[i + 1])
  }

  lemma InitHasInv(x: State)
    requires Init(x)
    ensures Inv(x.db, x.ledger)
  {
    assert forall i :: 0 <= i < NUM_LEVELS ==> EntriesOf(x.db.levels[i]) == {};
    assert TreeEntries(x.db.levels) == {};
    assert AllEntries(x.db) == {};
  }

  lemma StepKeepsSound(x: State, step: Step, y: State)
    requires Sound(x.db, x.ledger) && Next(x, step, y)
    ensures Sound(y.db, y.ledger)
  {
    hide WriteStep, RotateStep, FlushStep, MoveStep, CompactStep, Layered, Tidy, Sorted, Above, UniqueSeqnos,
         TreeEntries;
    match step
    case Write(batch) => WriteKeepsSound(x.db, x.ledger, y.db, y.ledger, batch);
    case Rotate => RotateKeepsSound(x.db, x.ledger, y.db, y.ledger);
    case Flush(level, file) => FlushKeepsSound(x.db, x.ledger, y.db, y.ledger, level, file);
    case Move(level, file) => MoveKeepsSound(x.db, x.ledger, y.db, y.ledger, level, file);
    case Compact(job) => CompactKeepsSound(x.db, x.ledger, y.db, y.ledger, job);
    case Snapshot =>
    case Release(snapshot) =>
  }

  lemma StepKeepsInvIff(x: State, step: Step, y: State)
    requires Inv(x.db, x.ledger) && Next(x, step, y)
    ensures Inv(y.db, y.ledger) <==> Safe(x, step)
  {
    hide WriteStep, CompactStep, NothingResurfaces, Sound, SameMeaning, AllEntries;
    StepKeepsSound(x, step, y);
    match step
    case Write(batch) => WriteKeepsInv(x.db, x.ledger, y.db, y.ledger, batch);
    case Rotate => RotateKeepsSound(x.db, x.ledger, y.db, y.ledger);
    case Flush(level, file) => FlushKeepsSound(x.db, x.ledger, y.db, y.ledger, level, file);
    case Move(level, file) => MoveKeepsSound(x.db, x.ledger, y.db, y.ledger, level, file);
    case Compact(job) => CompactKeepsInvIff(x.db, x.ledger, y.db, y.ledger, job);
    case Snapshot => SameEntries(x.db, y.db);
    case Release(snapshot) => SameEntries(x.db, y.db);
  }

  lemma SameEntries(s: Db, s': Db)
    requires s' == s.(snapshots := s'.snapshots)
    ensures AllEntries(s') == AllEntries(s)
  {
  }

  /** In every state of every run, with snapshots and whatever its compactions drop,
      newer entries lie higher up (see Get). */
  lemma {:induction false} EveryRunIsSound(states: seq<State>, steps: seq<Step>, i: nat)
    requires Run(states, steps) && i < |states|
    ensures Sound(states[i].db, states[i].ledger)
  {
    hide Sound, Next;
    if i == 0 {
      InitHasInv(states[0]);
    } else {
      EveryRunIsSound(states, steps, i - 1);
      StepKeepsSound(states[i - 1], steps[i - 1], states[i]);
    }
  }

  /** DBImpl::Get in any state of any run: the newest visible entry of all that is stored. */
  method GetInRun(s: Db, user: nat, snapshot: nat, ghost states: seq<State>, ghost steps: seq<Step>, ghost i: nat)
    returns (r: Option<Entry>)
    requires Run(states, steps) && i < |states| && states[i].db == s
    ensures Answers(AllEntries(s), user, snapshot, r)
  {
    hide Run, Answers, Layered, Tidy, Sorted, Above;
    EveryRunIsSound(states, steps, i);
    r := Get(s, user, snapshot);
  }

  lemma {:induction false} SafePrefixReadsRight(states: seq<State>, steps: seq<Step>, i: nat)
    requires Run(states, steps) && i < |states|
    requires forall k :: 0 <= k < i ==> Safe(states[k], steps[k])
    ensures Inv(states[i].db, states[i].ledger)
  {
    hide Inv, Next, Safe;
    if i == 0 {
      InitHasInv(states[0]);
    } else {
      SafePrefixReadsRight(states, steps, i - 1);
      StepKeepsInvIff(states[i - 1], steps[i - 1], states[i]);
    }
  }

  /** A run tells its readers what the history says, in every state (see Read), exactly
      when none of its compactions lets a value resurface. */
  lemma RunReadsRightIff(states: seq<State>, steps: seq<Step>)
    requires Run(states, steps)
    ensures (forall i :: 0 <= i < |states| ==> Inv(states[i].db, states[i].ledger))
      <==> forall k :: 0 <= k < |steps| ==> Safe(states[k], steps[k])
  {
    hide Inv, Next, Safe;
    if forall k :: 0 <= k < |steps| ==> Safe(states[k], steps[k]) {
      forall i | 0 <= i < |states| ensures Inv(states[i].db, states[i].ledger) {
        SafePrefixReadsRight(states, steps, i);
      }
    }
    if forall i :: 0 <= i < |states| ==> Inv(states[i].db, states[i].ledger) {
      forall k | 0 <= k < |steps| ensures Safe(states[k], steps[k]) {
        assert Inv(states[k].db, states[k].ledger) && Inv(states[k + 1].db, states[k + 1].ledger);
        StepKeepsInvIff(states[k], steps[k], states[k + 1]);
      }
    }
  }
}

/**
 Recovery of the tree (db/version_set.cc: Recover): every run installs its changes
 through edits, and replaying those edits gives the tree back.
 */
module Recovery {
  import opened Format
  import opened Version
  import opened Inputs
  import opened Compaction
  import opened Lsm
  import opened Builder
  import opened Runs
  import opened Background

  /** The edit that a step logs, if it changes the tree. */
  function EditOf(step: Step): seq<Edit> {
    match step
    case Flush(level, file) => [Edit([], {}, [(level, file)])]
    case Move(level, file) => [CompactionEdit(level, [file], [], [file])]
    case Compact(job) => [CompactionEdit(job.level, job.in0, job.in1, job.outs)]
    case _ => []
  }

  function EditsOf(steps: seq<Step>): seq<Edit> {
    if steps == [] then [] else EditsOf(steps[..|steps| - 1]) + EditOf(steps[|steps| - 1])
  }

  /** The files of all states up to `n`. */
  ghost function Ever(states: seq<State>, n: nat): set<File>
    requires n < |states|
  {
    if n == 0 then FilesOf(states[0].db.levels) else Ever(states, n - 1) + FilesOf(states[n].db.levels)
  }

  // ---------------------------------------------------------------- numbers are never used again

  /** New files get new numbers. */
  lemma StepFiles(x: State, step: Step, y: State)
    requires Sound(x.db, x.ledger) && Next(x, step, y)
    ensures forall f <- FilesOf(y.db.levels) :: f in FilesOf(x.db.levels) || f.number >= x.db.nextFile
    ensures x.db.nextFile <= y.db.nextFile
  {
    hide Sound, Installed, ValidInputs, Sorted, Survivors, Flatten, EntrySeqs, EntriesOf, Elements;
    match step
    case Flush(level, file) => PlacedFilesOf(x.db.levels, level, file, y.db.levels);
    case Move(level, file) => MovedFilesOf(x.db.levels, level, file, y.db.levels);
    case Compact(job) => ReplacedFilesOf(x.db.levels, job.level, job.in0, job.in1, job.outs, y.db.levels);
    case _ =>
  }

  lemma PlacedFilesOf(levels: seq<seq<File>>, level: nat, file: File, levels': seq<seq<File>>)
    requires Places(levels, level, file, levels')
    ensures FilesOf(levels') <= FilesOf(levels) + {file}
  {
    hide InBuilderOrder;
  }

  lemma ReplacedFilesOf(levels: seq<seq<File>>, level: nat, in0: seq<File>, in1: seq<File>, outs: seq<File>,
                        levels': seq<seq<File>>)
    requires Replaces(levels, level, in0, in1, outs, levels')
    ensures forall f <- FilesOf(levels') :: f in FilesOf(levels) || f in outs
  {
    hide InBuilderOrder;
    forall f <- FilesOf(levels')
      ensures f in FilesOf(levels) || f in outs
    {
      var i :| 0 <= i < |levels'| && f in levels'[i];
      assert f in levels[i] || f in outs;
    }
  }

  lemma MovedFilesOf(levels: seq<seq<File>>, level: nat, file: File, levels': seq<seq<File>>)
    requires level + 1 < |levels| && ValidInputs(levels, level, [file], [])
    requires Replaces(levels, level, [file], [], [file], levels')
    ensures FilesOf(levels') <= FilesOf(levels)
  {
    ReplacedFilesOf(levels, level, [file], [], [file], levels');
    assert file in [file] && file in levels[level];
  }

  lemma {:induction false} EverIdentified(states: seq<State>, steps: seq<Step>, n: nat)
    requires Run(states, steps) && n < |states|
    ensures Identified(Ever(states, n)) && forall f <- Ever(states, n) :: f.number < states[n].db.nextFile
    ensures FilesOf(states[n].db.levels) <= Ever(states, n)
  {
    hide Next, FilesOf;
    EveryRunIsSound(states, steps, n);
    var y := states[n];
    SoundNumbers(y.db, y.ledger);
    if n > 0 {
      EverIdentified(states, steps, n - 1);
      var x := states[n - 1];
      EveryRunIsSound(states, steps, n - 1);
      StepFiles(x, steps[n - 1], y);
      hide Sound;
      SoundNumbers(x.db, x.ledger);
    }
  }

  lemma SoundNumbers(s: Db, l: Ledger)
    requires Sound(s, l)
    ensures Identified(FilesOf(s.levels)) && forall f <- FilesOf(s.levels) :: f.number < s.nextFile
  {
  }

  lemma {:induction false} EverGrows(states: seq<State>, k: nat, n: nat)
    requires k <= n < |states|
    ensures FilesOf(states[k].db.levels) <= Ever(states, n)
    decreases n
  {
    hide FilesOf;
    if k < n { EverGrows(states, k, n - 1); }
  }

  // ---------------------------------------------------------------- a step is its edit

  lemma InstalledUnique(files: seq<File>, removed: seq<File>, added: seq<File>, a: seq<File>, b: seq<File>)
    requires Installed(files, removed, added, a) && Installed(files, removed, added, b)
    ensures a == b
  {
    hide InBuilderOrder, Ordered;
    OrderedIsBuilderOrder(a);
    OrderedIsBuilderOrder(b);
    SameFilesSameList(a, b);
  }

  lemma PlacesUnique(levels: seq<seq<File>>, level: nat, file: File, a: seq<seq<File>>, b: seq<seq<File>>)
    requires Places(levels, level, file, a) && Places(levels, level, file, b)
    ensures a == b
  {
    hide Installed;
    InstalledUnique(levels[level], [], [file], a[level], b[level]);
  }

  lemma ReplacesUnique(levels: seq<seq<File>>, level: nat, in0: seq<File>, in1: seq<File>, outs: seq<File>,
                       a: seq<seq<File>>, b: seq<seq<File>>)
    requires Replaces(levels, level, in0, in1, outs, a) && Replaces(levels, level, in0, in1, outs, b)
    ensures a == b
  {
    hide Installed;
    InstalledUnique(levels[level], in0, [], a[level], b[level]);
    InstalledUnique(levels[level + 1], in1, outs, a[level + 1], b[level + 1]);
  }

  ghost function After(levels: seq<seq<File>>, e: Edit): (v: seq<seq<File>>)
    ensures |v| == |levels| && forall l :: 0 <= l < |levels| ==> v[l] == OneByOne(levels[l], [e.AtLevel(l)])
  {
    seq(|levels|, l requires 0 <= l < |levels| => OneByOne(levels[l], [e.AtLevel(l)]))
  }

  /** `e` makes of one version the other, and adds no file that is there. */
  ghost predicate Makes(levels: seq<seq<File>>, e: Edit, levels': seq<seq<File>>, all: set<File>) {
    && e.InRange() && levels' == After(levels, e)
    && forall l :: 0 <= l < |levels| ==> AddsOnlyMissing(levels[l], e.AtLevel(l), all)
  }

  lemma FlushMakes(s: Db, l: Ledger, s': Db, level: nat, file: File, all: set<File>)
    requires Sound(s, l) && FlushStep(s, l, s', l, level, file)
    requires Identified(all) && FilesOf(s.levels) <= all && FilesOf(s'.levels) <= all
    ensures Makes(s.levels, Edit([], {}, [(level, file)]), s'.levels, all)
  {
    SoundTree(s, l);
    FlushFacts(s, l, s', level, file);
    hide *;
    var e := Edit([], {}, [(level, file)]);
    LevelsOrdered(s.levels);
    AllInTree(s.levels, all);
    NewNumber(s, l, file);
    PlacedThere(s.levels, level, file, s'.levels);
    assert file in all;
    FlushEditPlaces(s.levels, level, file, all, After(s.levels, e));
    PlacesUnique(s.levels, level, file, s'.levels, After(s.levels, e));
    FlushEditInRange(level, file);
    forall i | 0 <= i < |s.levels| ensures AddsOnlyMissing(s.levels[i], e.AtLevel(i), all) {
      FlushAdds(s.levels[i], level, file, i, all);
    }
    MakesOf(s.levels, e, s'.levels, all);
  }

  lemma MakesOf(levels: seq<seq<File>>, e: Edit, levels': seq<seq<File>>, all: set<File>)
    requires e.InRange() && levels' == After(levels, e)
    requires forall l :: 0 <= l < |levels| ==> AddsOnlyMissing(levels[l], e.AtLevel(l), all)
    ensures Makes(levels, e, levels', all)
  {
  }

  lemma FlushFacts(s: Db, l: Ledger, s': Db, level: nat, file: File)
    requires Sound(s, l) && FlushStep(s, l, s', l, level, file)
    ensures Places(s.levels, level, file, s'.levels) && level < |s.levels| && s.nextFile <= file.number
  {
  }

  lemma AllInTree(levels: seq<seq<File>>, all: set<File>)
    requires FilesOf(levels) <= all
    ensures forall i :: 0 <= i < |levels| ==> forall f <- levels[i] :: f in all
  {
    forall i, f | 0 <= i < |levels| && f in levels[i] ensures f in all { assert f in FilesOf(levels); }
  }

  lemma NewNumber(s: Db, l: Ledger, file: File)
    requires Sound(s, l) && s.nextFile <= file.number
    ensures forall i :: 0 <= i < |s.levels| ==> file !in s.levels[i]
  {
    hide Layered, Above, Sorted, UniqueSeqnos, Tidy;
    forall i | 0 <= i < |s.levels| ensures file !in s.levels[i] {
      assert file in s.levels[i] ==> file in FilesOf(s.levels);
    }
  }

  lemma PlacedThere(levels: seq<seq<File>>, level: nat, file: File, levels': seq<seq<File>>)
    requires Places(levels, level, file, levels')
    ensures file in FilesOf(levels')
  {
    assert file in [file];
    assert file in levels'[level];
  }

  lemma FlushAdds(files: seq<File>, level: nat, file: File, l: nat, all: set<File>)
    requires file in all && file !in files
    ensures AddsOnlyMissing(files, Edit([], {}, [(level, file)]).AtLevel(l), all)
  {
    assert [] + [(level, file)] == [(level, file)];
    FilesAtAppend([], level, file, l);
  }

  lemma ReplaceMakes(levels: seq<seq<File>>, level: nat, in0: seq<File>, in1: seq<File>, outs: seq<File>,
                     levels': seq<seq<File>>, all: set<File>)
    requires Tidy(levels) && level + 1 < |levels| == NUM_LEVELS && Replaces(levels, level, in0, in1, outs, levels')
    requires Identified(all) && FilesOf(levels) <= all && FilesOf(levels') <= all
    requires (forall f <- in0 :: f in levels[level]) && (forall f <- in1 :: f in levels[level + 1])
    requires forall f <- outs :: f !in levels[level + 1]
    ensures Makes(levels, CompactionEdit(level, in0, in1, outs), levels', all)
  {
    hide *;
    var e := CompactionEdit(level, in0, in1, outs);
    LevelsOrdered(levels);
    AllInTree(levels, all);
    AllInTree(levels', all);
    OutputsThere(levels, level, in0, in1, outs, levels');
    CompactionEditReplaces(levels, level, in0, in1, outs, all, After(levels, e));
    ReplacesUnique(levels, level, in0, in1, outs, levels', After(levels, e));
    EditInRange(level, in0, in1, outs);
    forall i | 0 <= i < |levels| ensures AddsOnlyMissing(levels[i], e.AtLevel(i), all) {
      ReplaceAdds(levels[i], level, in0, in1, outs, i, all);
    }
    MakesOf(levels, e, levels', all);
  }

  lemma OutputsThere(levels: seq<seq<File>>, level: nat, in0: seq<File>, in1: seq<File>, outs: seq<File>,
                     levels': seq<seq<File>>)
    requires Replaces(levels, level, in0, in1, outs, levels')
    ensures level + 1 < |levels'| && forall f <- outs :: f in levels'[level + 1]
  {
    hide InBuilderOrder;
  }

  lemma ReplaceAdds(files: seq<File>, level: nat, in0: seq<File>, in1: seq<File>, outs: seq<File>, l: nat,
                    all: set<File>)
    requires forall f <- outs :: f in all && (l == level + 1 ==> f !in files)
    ensures AddsOnlyMissing(files, CompactionEdit(level, in0, in1, outs).AtLevel(l), all)
  {
    hide PlacedAt, FilesAt;
    PlacedFiles(level + 1, outs, l);
  }

  lemma MoveMakes(s: Db, l: Ledger, s': Db, level: nat, file: File, all: set<File>)
    requires Sound(s, l) && MoveStep(s, l, s', l, level, file)
    requires Identified(all) && FilesOf(s.levels) <= all && FilesOf(s'.levels) <= all
    ensures Makes(s.levels, CompactionEdit(level, [file], [], [file]), s'.levels, all)
  {
    SoundTree(s, l);
    hide Sound, Makes, CompactionEdit, Layered, Tidy, Replaces, ValidInputs, FilesOf, Identified;
    ValidInputsFacts(s.levels, level, [file], []);
    MovedIsNew(s, l, level, file);
    ReplaceMakes(s.levels, level, [file], [], [file], s'.levels, all);
  }

  lemma CompactFacts(s: Db, l: Ledger, s': Db, l': Ledger, j: Job)
    requires CompactStep(s, l, s', l', j)
    ensures j.level + 1 < |s.levels| && ValidInputs(s.levels, j.level, j.in0, j.in1)
    ensures Replaces(s.levels, j.level, j.in0, j.in1, j.outs, s'.levels)
    ensures forall o <- j.outs :: s.nextFile <= o.number
  {
    hide Replaces, ValidInputs, Sorted, Survivors, Flatten, EntrySeqs, EntriesOf, Elements, OldestSnapshot, AllValid;
  }

  lemma CompactMakes(s: Db, l: Ledger, s': Db, l': Ledger, j: Job, all: set<File>)
    requires Sound(s, l) && CompactStep(s, l, s', l', j)
    requires Identified(all) && FilesOf(s.levels) <= all && FilesOf(s'.levels) <= all
    ensures Makes(s.levels, CompactionEdit(j.level, j.in0, j.in1, j.outs), s'.levels, all)
  {
    CompactFacts(s, l, s', l', j);
    SoundTree(s, l);
    hide *;
    ValidInputsFacts(s.levels, j.level, j.in0, j.in1);
    forall f <- j.outs ensures f !in s.levels[j.level + 1] { NewNumber(s, l, f); }
    ReplaceMakes(s.levels, j.level, j.in0, j.in1, j.outs, s'.levels, all);
  }

  /** Every step that changes the tree does what its edit does, and no other step does. */
  lemma StepMakes(x: State, step: Step, y: State, all: set<File>)
    requires Sound(x.db, x.ledger) && Next(x, step, y)
    requires Identified(all) && FilesOf(x.db.levels) <= all && FilesOf(y.db.levels) <= all
    ensures if EditOf(step) == [] then y.db.levels == x.db.levels
            else |EditOf(step)| == 1 && Makes(x.db.levels, EditOf(step)[0], y.db.levels, all)
  {
    if step.Flush? || step.Move? { SameLedger(x, step, y); }
    hide Sound, Makes, CompactionEdit, FlushStep, MoveStep, CompactStep, FilesOf, Identified;
    match step
    case Flush(level, file) => FlushMakes(x.db, x.ledger, y.db, level, file, all);
    case Move(level, file) => MoveMakes(x.db, x.ledger, y.db, level, file, all);
    case Compact(job) => CompactMakes(x.db, x.ledger, y.db, y.ledger, job, all);
    case _ =>
  }

  lemma SameLedger(x: State, step: Step, y: State)
    requires Next(x, step, y) && (step.Flush? || step.Move?)
    ensures y.ledger == x.ledger
  {
    hide FreePath, Places, ValidInputs, Replaces;
  }

  // ---------------------------------------------------------------- a run is its edits

  /** The tree is what the edits so far make of nothing, level by level. */
  ghost predicate MadeBy(levels: seq<seq<File>>, edits: seq<Edit>, all: set<File>) {
    && |levels| == NUM_LEVELS && (forall e <- edits :: e.InRange())
    && forall l :: 0 <= l < NUM_LEVELS ==>
      Sensible([], AllAtLevel(edits, l), all) && levels[l] == OneByOne([], AllAtLevel(edits, l))
  }

  lemma SensibleAppend(edits: seq<LevelEdit>, e: LevelEdit, all: set<File>)
    requires Sensible([], edits, all) && AddsOnlyMissing(OneByOne([], edits), e, all)
    ensures Sensible([], edits + [e], all)
    ensures OneByOne([], edits + [e]) == OneByOne(OneByOne([], edits), [e])
  {
    hide OneByOne, Ordered, Identified, AddsOnlyMissing;
    OneByOneAppend([], edits, [e]);
    var es := edits + [e];
    forall k | 0 <= k < |es|
      ensures AddsOnlyMissing(OneByOne([], es[..k]), es[k], all)
    {
      assert es[..k] == edits[..k];
      assert edits[..|edits|] == edits;
    }
  }

  lemma MadeByMore(levels: seq<seq<File>>, edits: seq<Edit>, e: Edit, levels': seq<seq<File>>, all: set<File>)
    requires MadeBy(levels, edits, all) && Makes(levels, e, levels', all)
    ensures MadeBy(levels', edits + [e], all)
  {
    hide OneByOne, Sensible, AddsOnlyMissing;
    forall l | 0 <= l < NUM_LEVELS
      ensures Sensible([], AllAtLevel(edits + [e], l), all) && levels'[l] == OneByOne([], AllAtLevel(edits + [e], l))
    {
      assert AllAtLevel(edits + [e], l) == AllAtLevel(edits, l) + [e.AtLevel(l)];
      SensibleAppend(AllAtLevel(edits, l), e.AtLevel(l), all);
    }
  }

  lemma NothingMade(x: State, all: set<File>)
    requires Init(x) && Identified(all)
    ensures MadeBy(x.db.levels, [], all)
  {
    hide Ordered;
    OrderedNone();
    NothingInstalled();
    forall l | 0 <= l < NUM_LEVELS ensures AllAtLevel([], l) == [] {}
  }

  lemma {:induction false} RunIsItsEdits(states: seq<State>, steps: seq<Step>, i: nat, all: set<File>)
    requires Run(states, steps) && i < |states| && all == Ever(states, |states| - 1)
    ensures MadeBy(states[i].db.levels, EditsOf(steps[..i]), all)
  {
    hide Next, MadeBy, Makes, FilesOf, Ever, Sound, Identified, EditOf;
    EverIdentified(states, steps, |states| - 1);
    if i == 0 {
      NothingMade(states[0], all);
    } else {
      RunIsItsEdits(states, steps, i - 1, all);
      EveryRunIsSound(states, steps, i - 1);
      EverGrows(states, i - 1, |states| - 1);
      EverGrows(states, i, |states| - 1);
      StepMakes(states[i - 1], steps[i - 1], states[i], all);
      assert steps[..i][..i - 1] == steps[..i - 1];
      var (edits, e) := (EditsOf(steps[..i - 1]), EditOf(steps[i - 1]));
      if e == [] {
        assert edits + e == edits;
      } else {
        assert e == [e[0]];
        MadeByMore(states[i - 1].db.levels, edits, e[0], states[i].db.levels, all);
      }
    }
  }

  /** Recovery after any run, from the edits that its steps logged, gives the very tree
      of the last state. */
  method RecoverRun(edits: seq<Edit>, ghost states: seq<State>, ghost steps: seq<Step>, ghost i: nat)
    returns (v: seq<seq<File>>)
    requires Run(states, steps) && i < |states| && edits == EditsOf(steps[..i])
    ensures v == states[i].db.levels
  {
    ghost var all := Ever(states, |states| - 1);
    RunIsItsEdits(states, steps, i, all);
    hide Run, Replay, OneByOne, SaveLevel, Sensible, EditsOf, Ever;
    v := Recover(edits);
    forall l | 0 <= l < NUM_LEVELS ensures v[l] == states[i].db.levels[l] {
      RecoveryIff([], AllAtLevel(edits, l), all);
    }
  }
}

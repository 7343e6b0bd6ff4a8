/**
 Level models and versions (db/version_set.cc: ApplyToModel, LogAndApply, FillLevel;
 mod/learned_index.cpp: LevelLearn): versions share models, so what one version
 trains must fit every version that sees it.
 */
module Coherence {
  import opened Format
  import opened LevelModel

  /** A level model object: the keys it was filled with, and what it was trained on. */
  datatype Model = Model(stringKeys: seq<nat>, trainedOn: Option<seq<nat>>)

  /** A version: its files and, for each level, the address of its model. */
  datatype Version = Version(files: seq<seq<File>>, models: seq<nat>)

  datatype State = State(models: seq<Model>, versions: seq<Version>)

  const EMPTY_MODEL := Model([], None)

  // ---------------------------------------------------------------- installing an edit

  /** VersionSet::ApplyToModel: levels other than 0 that the edit does not touch keep the
      model of the previous version. */
  method ApplyToModel(changedLevels: set<nat>, previous: seq<nat>, current: seq<nat>) returns (r: seq<nat>)
    requires |previous| == |current| == NUM_LEVELS
    ensures |r| == NUM_LEVELS
    ensures forall i :: 0 <= i < NUM_LEVELS ==> r[i] == if 0 < i && i !in changedLevels then previous[i] else current[i]
  {
    r := current;
    for i := 1 to NUM_LEVELS
      invariant |r| == NUM_LEVELS
      invariant forall j :: 0 <= j < NUM_LEVELS ==>
        r[j] == if 0 < j < i && j !in changedLevels then previous[j] else current[j]
    {
      if i !in changedLevels {
        r := r[i := previous[i]];
      }
    }
  }

  datatype Step =
    | Install(from: nat, changedLevels: set<nat>, files: seq<seq<File>>)
    | LevelLearn(version: nat, level: nat, aborted: bool)

  /** A new version gets a new model for each level, then ApplyToModel shares those of
      the levels that the edit did not touch. */
  ghost predicate InstallStep(s: State, from: nat, changed: set<nat>, files: seq<seq<File>>, s': State) {
    && from < |s.versions| && |files| == NUM_LEVELS && |s.versions[from].models| == NUM_LEVELS
    && (forall i :: 0 <= i < NUM_LEVELS && i !in changed ==>
        i < |s.versions[from].files| && files[i] == s.versions[from].files[i])
    && s'.models == s.models + seq(NUM_LEVELS, i => EMPTY_MODEL)
    && exists v: Version ::
      && s'.versions == s.versions + [v] && v.files == files && |v.models| == NUM_LEVELS
      && forall i :: 0 <= i < NUM_LEVELS ==>
        v.models[i] == if 0 < i && i !in changed then s.versions[from].models[i] else |s.models| + i
  }

  /** FillLevel appends the level's boundary keys; the training may be given up. */
  ghost predicate LearnStep(s: State, version: nat, level: nat, aborted: bool, s': State) {
    && version < |s.versions| && level < |s.versions[version].models| && level < |s.versions[version].files|
    && s.versions[version].models[level] < |s.models|
    && var (a, files) := (s.versions[version].models[level], s.versions[version].files[level]);
       var keys := s.models[a].stringKeys + BoundaryKeys(files);
       files != []
         && s' == s.(models := s.models[a := Model(keys, if aborted then s.models[a].trainedOn else Some(keys))])
  }

  ghost predicate Next(s: State, step: Step, s': State) {
    match step
    case Install(from, changed, files) => InstallStep(s, from, changed, files, s')
    case LevelLearn(version, level, aborted) => LearnStep(s, version, level, aborted, s')
  }

  /** The model that a step fills has not been filled before. */
  ghost predicate FillsOnce(s: State, step: Step) {
    step.LevelLearn? && step.version < |s.versions| && step.level < |s.versions[step.version].models|
    && s.versions[step.version].models[step.level] < |s.models|
    ==> s.models[s.versions[step.version].models[step.level]].stringKeys == []
  }

  // ---------------------------------------------------------------- coherence

  ghost predicate Shaped(s: State) {
    forall v :: 0 <= v < |s.versions| ==>
      && |s.versions[v].files| == NUM_LEVELS && |s.versions[v].models| == NUM_LEVELS
      && forall i :: 0 <= i < NUM_LEVELS ==> s.versions[v].models[i] < |s.models|
  }

  /** Versions share a model only for a level in which they have the same files. */
  ghost predicate SharedRightly(s: State)
    requires Shaped(s)
  {
    forall v, w, i, j ::
      (0 <= v < |s.versions| && 0 <= w < |s.versions| && 0 <= i < NUM_LEVELS && 0 <= j < NUM_LEVELS
       && s.versions[v].models[i] == s.versions[w].models[j])
      ==> i == j && s.versions[v].files[i] == s.versions[w].files[j]
  }

  ghost predicate FitsLevel(m: Model, files: seq<File>) {
    && (m.stringKeys == [] || m.stringKeys == BoundaryKeys(files))
    && (m.trainedOn.Some? ==> m.trainedOn == Some(BoundaryKeys(files)))
  }

  /** Any learned model attached to any version was trained on that version's boundary keys. */
  ghost predicate Coherent(s: State) {
    && Shaped(s) && SharedRightly(s)
    && forall v, i :: 0 <= v < |s.versions| && 0 <= i < NUM_LEVELS ==>
      FitsLevel(s.models[s.versions[v].models[i]], s.versions[v].files[i])
  }

  lemma InstallKeepsCoherence(s: State, from: nat, changed: set<nat>, files: seq<seq<File>>, s': State)
    requires Coherent(s) && InstallStep(s, from, changed, files, s')
    ensures Coherent(s')
  {
    hide FitsLevel;
    var n := |s.versions|;
    assert forall v :: 0 <= v < n ==> s'.versions[v] == s.versions[v];
    assert forall a :: 0 <= a < |s.models| ==> s'.models[a] == s.models[a];
    forall i | 0 <= i < NUM_LEVELS
      ensures FitsLevel(s'.models[s'.versions[n].models[i]], files[i])
    {
      EmptyFits(files[i]);
    }
  }

  lemma EmptyFits(files: seq<File>)
    ensures FitsLevel(EMPTY_MODEL, files)
  {
  }

  lemma FilledFits(m: Model, files: seq<File>, aborted: bool)
    requires FitsLevel(m, files) && m.stringKeys == []
    ensures var keys := m.stringKeys + BoundaryKeys(files);
      FitsLevel(Model(keys, if aborted then m.trainedOn else Some(keys)), files)
  {
    assert [] + BoundaryKeys(files) == BoundaryKeys(files);
  }

  lemma SameVersionsShared(s: State, s': State)
    requires Shaped(s) && SharedRightly(s) && s'.versions == s.versions && |s'.models| == |s.models|
    ensures Shaped(s') && SharedRightly(s')
  {
  }

  lemma LearnKeepsCoherence(s: State, version: nat, level: nat, aborted: bool, s': State)
    requires Coherent(s) && LearnStep(s, version, level, aborted, s')
    requires FillsOnce(s, LevelLearn(version, level, aborted))
    ensures Coherent(s')
  {
    hide FitsLevel, SharedRightly;
    var (a, files) := (s.versions[version].models[level], s.versions[version].files[level]);
    FilledFits(s.models[a], files, aborted);
    SameVersionsShared(s, s');
    forall v, i | 0 <= v < |s'.versions| && 0 <= i < NUM_LEVELS
      ensures FitsLevel(s'.models[s'.versions[v].models[i]], s'.versions[v].files[i])
    {
      if s.versions[v].models[i] == a { SameFiles(s, v, i, version, level); }
    }
  }

  lemma SameFiles(s: State, v: nat, i: nat, w: nat, j: nat)
    requires Shaped(s) && SharedRightly(s) && v < |s.versions| && w < |s.versions| && i < NUM_LEVELS && j < NUM_LEVELS
    requires s.versions[v].models[i] == s.versions[w].models[j]
    ensures s.versions[v].files[i] == s.versions[w].files[j]
  {
  }

  /** Filling a model a second time spoils it, for every version that shares it: coherence
      survives a training exactly when the model was empty. */
  lemma CoherentIffFilledOnce(s: State, version: nat, level: nat, s': State)
    requires Coherent(s) && LearnStep(s, version, level, false, s')
    ensures Coherent(s') <==> FillsOnce(s, LevelLearn(version, level, false))
  {
    if FillsOnce(s, LevelLearn(version, level, false)) {
      LearnKeepsCoherence(s, version, level, false, s');
    } else {
      var (a, files) := (s.versions[version].models[level], s.versions[version].files[level]);
      assert s'.versions[version].models[level] == a;
      assert |s'.models[a].trainedOn.value| > |BoundaryKeys(files)|;
      assert !FitsLevel(s'.models[a], files);
    }
  }

  /** One version with one file at level 1, and empty models. */
  ghost function OneFile(f: File): State {
    State(seq(NUM_LEVELS, i => EMPTY_MODEL), [Version([[], [f], [], [], [], [], []], [0, 1, 2, 3, 4, 5, 6])])
  }

  lemma OneFileIsCoherent(f: File)
    ensures Coherent(OneFile(f))
  {
  }

  ghost function LevelOneModel(s: State, m: Model): State
    requires |s.models| == NUM_LEVELS
  {
    s.(models := s.models[1 := m])
  }

  /** A training given up after it filled the model, and then repeated, leaves a model
      trained on every boundary key twice. */
  lemma SecondFillSpoils(f: File)
    ensures var (lo, hi) := (f.smallest.user, f.largest.user);
      var first := LevelOneModel(OneFile(f), Model([lo, hi], None));
      var second := LevelOneModel(OneFile(f), Model([lo, hi, lo, hi], Some([lo, hi, lo, hi])));
      && Coherent(OneFile(f)) && LearnStep(OneFile(f), 0, 1, true, first)
      && Coherent(first) && LearnStep(first, 0, 1, false, second) && !Coherent(second)
  {
    var (lo, hi) := (f.smallest.user, f.largest.user);
    var s := OneFile(f);
    var first := LevelOneModel(s, Model([lo, hi], None));
    var second := LevelOneModel(s, Model([lo, hi, lo, hi], Some([lo, hi, lo, hi])));
    assert BoundaryKeys([f]) == [lo, hi] by { assert [f][..0] == []; }
    hide Coherent;
    OneFileIsCoherent(f);
    assert LearnStep(s, 0, 1, true, first);
    LearnKeepsCoherence(s, 0, 1, true, first);
    assert [lo, hi] + [lo, hi] == [lo, hi, lo, hi];
    assert LearnStep(first, 0, 1, false, second);
    CoherentIffFilledOnce(first, 0, 1, second);
  }

  ghost predicate Run(states: seq<State>, steps: seq<Step>) {
    && |states| == |steps| + 1
    && Started(states[0])
    && forall i :: 0 <= i < |steps| ==> Next(states[i], steps[i], states[i + 1]) && FillsOnce(states[i], steps[i])
  }

  /** One version without files, with a new model for each level. */
  ghost predicate Started(s: State) {
    && s.models == seq(NUM_LEVELS, i => EMPTY_MODEL)
    && s.versions == [Version(seq(NUM_LEVELS, i => []), seq(NUM_LEVELS, i requires 0 <= i => i))]
  }

  lemma StartedIsCoherent(s: State)
    requires Started(s)
    ensures Coherent(s)
  {
  }

  /** In every run of installs and level learning that fills each model at most once. */
  lemma {:induction false} EveryRunIsCoherent(states: seq<State>, steps: seq<Step>, i: nat)
    requires Run(states, steps) && i < |states|
    ensures Coherent(states[i])
  {
    hide Coherent, FillsOnce, Started, InstallStep, LearnStep;
    if i == 0 {
      StartedIsCoherent(states[0]);
    } else {
      EveryRunIsCoherent(states, steps, i - 1);
      var (s, step, s') := (states[i - 1], steps[i - 1], states[i]);
      match step
      case Install(from, changed, files) => InstallKeepsCoherence(s, from, changed, files, s');
      case LevelLearn(version, level, aborted) => LearnKeepsCoherence(s, version, level, aborted, s');
    }
  }
}

/**
 The learned branch of Version::Get (db/version_set.cc:397-441): a level model
 picks the file, instead of a binary search over the largest keys.
 */
module LevelModel {
  import opened Format
  import opened Version
  import opened LearnedIndex

  /** The keys a level model is trained on: smallest and largest of each file. */
  function BoundaryKeys(files: seq<File>): (keys: seq<nat>)
    ensures |keys| == 2 * |files|
  {
    if files == [] then []
    else
      var n := |files| - 1;
      BoundaryKeys(files[..n]) + [files[n].smallest.user, files[n].largest.user]
  }

  lemma BoundaryAt(files: seq<File>, i: nat)
    requires i < |files|
    ensures BoundaryKeys(files)[2 * i] == files[i].smallest.user
    ensures BoundaryKeys(files)[2 * i + 1] == files[i].largest.user
  {
    var n := |files| - 1;
    if i < n { BoundaryAt(files[..n], i); }
  }

  /** No two files of a level share a user key, and each holds several. */
  ghost predicate UserSeparated(files: seq<File>) {
    && (forall i :: 0 <= i < |files| ==> files[i].smallest.user < files[i].largest.user)
    && (forall i, j :: 0 <= i < j < |files| ==> files[i].largest.user < files[j].smallest.user)
  }

  lemma SeparatedByModel(files: seq<File>)
    requires StrictlyIncreasing(BoundaryKeys(files))
    ensures UserSeparated(files)
  {
    var keys := BoundaryKeys(files);
    forall i | 0 <= i < |files|
      ensures files[i].smallest.user < files[i].largest.user
    {
      BoundaryAt(files, i);
    }
    forall i, j | 0 <= i < j < |files|
      ensures files[i].largest.user < files[j].smallest.user
    {
      BoundaryAt(files, i);
      BoundaryAt(files, j);
    }
  }

  /** Version::FillLevel appends the boundary keys of the level to the model. */
  method FillLevel(files: seq<File>, model: LearnedIndexData) returns (filled: bool)
    modifies model`stringKeys
    ensures filled <==> files != []
    ensures model.stringKeys == old(model.stringKeys) + BoundaryKeys(files)
  {
    if files == [] {
      return false;
    }
    for j := 0 to |files|
      invariant model.stringKeys == old(model.stringKeys) + BoundaryKeys(files[..j])
    {
      assert files[..j + 1][..j] == files[..j];
      model.stringKeys := model.stringKeys + [files[j].smallest.user];
      model.stringKeys := model.stringKeys + [files[j].largest.user];
    }
    assert files[..|files|] == files;
    filled := true;
  }

  ghost predicate Holds(f: File, user: nat) {
    f.smallest.user <= user <= f.largest.user
  }

  /** `choice` is the one file whose range of user keys contains `user`, if any. */
  ghost predicate Holder(files: seq<File>, user: nat, choice: Option<nat>) {
    match choice
    case Some(i) => i < |files| && Holds(files[i], user)
    case None => forall i :: 0 <= i < |files| ==> !Holds(files[i], user)
  }

  /** The learned branch: scan the predicted interval for the file that holds the key. */
  method ChooseLearned(files: seq<File>, model: LearnedIndexData, user: nat) returns (choice: Option<nat>)
    requires model.Valid() && model.learned && model.isLevel && model.trainedOn == BoundaryKeys(files)
    modifies model`served
    ensures model.Valid() && model.served == old(model.served) + 1
    ensures Holder(files, user, choice)
  {
    hide Complete, Greedy, StrictlyIncreasing, AllEven;
    var lower, upper := model.GetPosition(user);
    forall j | 0 <= j < |files| && Holds(files[j], user)
      ensures lower <= j <= upper
    {
      BoundaryAt(files, j);
      assert InFile(model.trainedOn, j, user);
    }
    if lower <= model.size - 1 {
      var i := lower;
      while i <= upper && i < |files|
        invariant lower <= i
        invariant forall j :: lower <= j < i && j < |files| ==> !Holds(files[j], user)
        decreases |files| - i
      {
        if files[i].smallest.user <= user && files[i].largest.user >= user {
          return Some(i);
        }
        i := i + 1;
      }
    }
    choice := None;
  }

  // ---------------------------------------------------------------- against the baseline

  /** What FindFile returns, as a function. */
  function FindFileIndex(files: seq<File>, key: InternalKey): (i: nat)
    ensures i <= |files|
    ensures i < |files| ==> Compare(files[i].largest, key) >= 0
    ensures forall j :: 0 <= j < i ==> Compare(files[j].largest, key) < 0
  {
    if files == [] || Compare(files[0].largest, key) >= 0 then 0 else 1 + FindFileIndex(files[1..], key)
  }

  /** The file the baseline branch reads, if any. */
  function BaselineChoice(files: seq<File>, user: nat, snapshot: nat): Option<nat> {
    var i := FindFileIndex(files, LookupKey(user, snapshot));
    if i < |files| && user >= files[i].smallest.user then Some(i) else None
  }

  method ChooseBaseline(files: seq<File>, user: nat, snapshot: nat) returns (choice: Option<nat>)
    requires SortedDisjoint(files)
    ensures choice == BaselineChoice(files, user, snapshot)
  {
    var index := FindFile(files, LookupKey(user, snapshot));
    assert index == FindFileIndex(files, LookupKey(user, snapshot));
    if index >= |files| || user < files[index].smallest.user {
      choice := None;
    } else {
      choice := Some(index);
    }
  }

  /** With no user key shared by two files, the file that holds a key is the one
      the baseline reads, unless the lookup is older than the very last entry of
      that file and the key is its largest: then the baseline reads no file. */
  lemma ChoicesAgree(files: seq<File>, user: nat, snapshot: nat, choice: Option<nat>)
    requires SortedDisjoint(files) && StrictlyIncreasing(BoundaryKeys(files))
    requires Holder(files, user, choice)
    ensures choice == BaselineChoice(files, user, snapshot) <==>
      !exists j :: 0 <= j < |files| && files[j].largest.user == user && files[j].largest.seqno > snapshot
  {
    SeparatedByModel(files);
    HolderAgainstFindFile(files, user, snapshot, choice);
  }

  lemma HolderAgainstFindFile(files: seq<File>, user: nat, snapshot: nat, choice: Option<nat>)
    requires UserSeparated(files) && Holder(files, user, choice)
    ensures choice == BaselineChoice(files, user, snapshot) <==>
      !exists j :: 0 <= j < |files| && files[j].largest.user == user && files[j].largest.seqno > snapshot
  {
    var i := FindFileIndex(files, LookupKey(user, snapshot));
    match choice
    case None =>
      assert i < |files| ==> !Holds(files[i], user);
      assert forall j :: 0 <= j < |files| && files[j].largest.user == user ==> Holds(files[j], user);
    case Some(c) =>
      assert forall j :: 0 <= j < |files| && files[j].largest.user == user ==> j == c;
      assert c <= i;
      if files[c].largest.user == user && files[c].largest.seqno > snapshot {
        assert c < i;
      }
  }

  /** The choices differ at a file that ends with an entry newer than the lookup. */
  lemma ChoicesDiffer()
    ensures var (first, last) := (Entry(InternalKey(1, 1, Value), "a"), Entry(InternalKey(5, 9, Value), "b"));
      var files := [File(1, 1, first.key, last.key, [first, last])];
      && SortedDisjoint(files) && StrictlyIncreasing(BoundaryKeys(files))
      && Holder(files, 5, Some(0)) && BaselineChoice(files, 5, 3) == None
  {
    var (first, last) := (Entry(InternalKey(1, 1, Value), "a"), Entry(InternalKey(5, 9, Value), "b"));
    var f := File(1, 1, first.key, last.key, [first, last]);
    assert [f][..0] == [] && [f][1..] == [];
    assert BoundaryKeys([f]) == [1, 5];
  }

  /** Whatever the snapshot, reading the file the model picks answers for the level. */
  method LevelGetLearned(files: seq<File>, model: LearnedIndexData, user: nat, snapshot: nat) returns (r: Option<Entry>)
    requires SortedDisjoint(files)
    requires model.Valid() && model.learned && model.isLevel && model.trainedOn == BoundaryKeys(files)
    modifies model`served
    ensures model.Valid() && model.served == old(model.served) + 1
    ensures Answers(EntriesOf(files), user, snapshot, r)
  {
    var choice := ChooseLearned(files, model, user);
    r := if choice.Some? then TableGet(files[choice.value].entries, user, snapshot) else None;
    HolderSuffices(files, user, snapshot, choice);
  }

  lemma HolderSuffices(files: seq<File>, user: nat, snapshot: nat, choice: Option<nat>)
    requires SortedDisjoint(files) && StrictlyIncreasing(BoundaryKeys(files))
    requires Holder(files, user, choice)
    ensures Answers(EntriesOf(files), user, snapshot,
                    if choice.Some? then TableGet(files[choice.value].entries, user, snapshot) else None)
  {
    SeparatedByModel(files);
    HolderHasAll(files, user, snapshot, choice);
    if choice.Some? {
      TableGetAnswers(files[choice.value].entries, user, snapshot);
    }
  }

  /** Every candidate of the level is in the file that holds the key. */
  lemma HolderHasAll(files: seq<File>, user: nat, snapshot: nat, choice: Option<nat>)
    requires SortedDisjoint(files) && UserSeparated(files) && Holder(files, user, choice)
    ensures forall e :: Candidate(e, EntriesOf(files), user, snapshot) <==>
      choice.Some? && Candidate(e, Elements(files[choice.value].entries), user, snapshot)
  {
    forall e | Candidate(e, EntriesOf(files), user, snapshot)
      ensures choice.Some? && e in files[choice.value].entries
    {
      var f :| f in files && e in f.entries;
      var i :| 0 <= i < |files| && files[i] == f;
      OnlyHolder(files, user, choice, i, e);
    }
  }

  lemma OnlyHolder(files: seq<File>, user: nat, choice: Option<nat>, i: nat, e: Entry)
    requires UserSeparated(files) && Holder(files, user, choice)
    requires i < |files| && files[i].Valid() && e in files[i].entries && e.key.user == user
    ensures choice == Some(i)
  {
    FileRange(files[i], e);
    assert Holds(files[i], user);
  }

  // ---------------------------------------------------------------- all levels

  /** A level model that belongs to the files of its level. */
  ghost predicate Fits(model: LearnedIndexData, files: seq<File>)
    reads model`learned, model`stringSegments, model`minKey, model`maxKey, model`size, model`trainedOn, model`cuts,
      model`breaks
  {
    model.Valid() && model.isLevel && (model.learned ==> model.trainedOn == BoundaryKeys(files))
  }

  /** Version::Get with level models: a level whose model is learned is searched
      through it, any other by binary search.  Either way the whole tree answers. */
  method GetLearned(levels: seq<seq<File>>, models: seq<LearnedIndexData>, user: nat, snapshot: nat)
    returns (r: Option<Entry>)
    requires Layered(levels) && |models| == |levels|
    requires forall i :: 0 < i < |levels| ==> Fits(models[i], levels[i])
    modifies models`served
    ensures forall i :: 0 < i < |levels| ==> Fits(models[i], levels[i])
    ensures Answers(TreeEntries(levels), user, snapshot, r)
  {
    hide NewerFilesHigher, SortedDisjoint, Above, Answers, TreeEntries, Complete, Greedy, AllEven;
    assert Answers(TreeEntries(levels[..0]), user, snapshot, None) by { NothingAnswers(levels, user, snapshot); }
    for level := 0 to |levels|
      invariant Answers(TreeEntries(levels[..level]), user, snapshot, None)
      invariant forall i :: 0 < i < |levels| ==> Fits(models[i], levels[i])
    {
      if level == 0 {
        r := Level0Get(levels[0], user, snapshot);
      } else if models[level].learned {
        r := LevelGetLearned(levels[level], models[level], user, snapshot);
      } else {
        r := LevelGet(levels[level], user, snapshot);
      }
      StopOrGoOn(levels, level, user, snapshot, r);
      if r.Some? {
        return;
      }
    }
    r := None;
    assert levels[..|levels|] == levels;
  }

  lemma NothingAnswers(levels: seq<seq<File>>, user: nat, snapshot: nat)
    ensures Answers(TreeEntries(levels[..0]), user, snapshot, None)
  {
  }
}

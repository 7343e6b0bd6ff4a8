# LevelDB with learned indexes, verified

A Dafny model of a LevelDB fork whose lookups go through learned indexes
(piecewise linear models of key positions), and proofs about its hardest parts:

- **Learned path.** The greedy piecewise linear regression keeps every absorbed
  point within its error, and makes few segments (`Plr`, `LearnedIndex`, `GreedyBound`); a level model picks the very file
  that holds a key (`LevelModel`); a predicted range of positions is turned into
  block and byte offsets and searched in raw bytes, and agrees with the baseline
  lookup in the same bytes (`Keys`, `Table`, `BlockRead`, `Baseline`, `LevelRead`);
  tables are built, learned and read from end to end (`LearnedTable`), and
  `Version::Get` is put together from both kinds of model (`StoredGet`); shared level
  models stay right for all versions (`Coherence`).
- **The tree.** Choosing compaction inputs (`Picking`, `Inputs`, `Placement`), the drop
  rules of a merge (`Compaction`), whole runs of writes, flushes, moves, compactions
  and snapshots against the history of all writes (`Format`, `Version`, `Lsm`, `Runs`,
  `SnapshotFree`, `Resurrection`), the background work that makes the steps
  (`Background`), and edits, their bytes and their replay after a crash (`Builder`,
  `VersionEdit`, `Recovery`, `Manifest`).
- **Machinery.** The write-ahead log under crashes and damage (`Coding`, `Log`,
  `LogReading`, `LogDamage`), write batches
  and group commit (`WriteBatch`, `GroupCommit`), the bidirectional iterators
  (`DbIter`, `Merger`), the reference-counted cache (`Lru`) and the skip list
  (`SkipList`).

`dafny verify dfyconfig.toml` checks the whole project.

## What the model assumes

- User keys are the numbers that fixed-width decimal keys denote; module `Keys`
  proves that byte order and numeric order are then the same.  Real numbers replace
  `double`; the error of a model is a whole number of at least 1.
- Training keys increase strictly.  For reads through a file model tables are
  uncompressed and smaller than 4 GB, entries have one size, each user key occurs once
  with a sequence number the lookup may see, the geometry was recorded from a full
  block, and a block holds at least as many entries as a predicted range.
- A checksum is any function of the bytes it covers; extending one over more bytes
  is taken to be the checksum of the concatenation.  A filter is any function that
  gives no false negative; the end-to-end methods use none.
- Each flush, move, compaction and critical section is one atomic step.  Random
  choices (node heights), places where outputs are cut, sizes of finished tables,
  bytes a file accepts before it fails, and polls of the compaction counter are
  arbitrary parameters.

## Where the code does not do what is said of it

- Merge compactions do not always preserve meaning.  `SetupOtherInputs` extends the
  inputs over shared user keys at `level` only, so a deletion marker can be dropped
  while an older value of its key stays in a left-out file of `level+1`.
  `Compaction.MergeKeepsMeaningIff` gives the exact condition for one merge and
  `Runs.RunReadsRightIff` for whole runs; `Resurrection.DeletedKeyComesBack` is a
  complete run, without manual compactions, and
  `SnapshotFree.SnapshotFreeRunsReadRight` shows that it needs a snapshot.  That newer
  entries lie higher up holds in every run regardless (`Runs.EveryRunIsSound`).
- `VersionEdit::Clear` keeps compaction pointers (`VersionEdit.EditRoundTrip`); recovery
  decodes each record into a new edit, so it is not affected (`Manifest.ManifestCrash`).
- The learned and the baseline branch of `Version::Get` can pick different files
  (`LevelModel.ChoicesAgree`, `LevelModel.ChoicesDiffer`); both are right
  (`LevelModel.GetLearned`).
- A log reader uses the type numbers 5 and 6 for its own marks, so a good fragment with one of
  them is not reported as unknown; 5 ends the reading (`LogReading.UnknownKind`).  That damage
  does not reach past its block holds exactly up to this (`LogDamage.DamageIsLocal`).
- `FillLevel` appends, so a second training of the same level model, after one that was
  given up, spoils it (`Coherence.CoherentIffFilledOnce`, `Coherence.SecondFillSpoils`).

## Model

| member | source | states |
|---|---|---|
| `Plr.GetLine` | mod/plr.cpp:16-22 | the line passes through both points |
| `Plr.GetIntersection` | mod/plr.cpp:24-32 | the point lies on both lines |
| `Plr.EveryLineOfCone` | mod/plr.cpp:84-107 | every line through the centre of the cone with a slope between the two bounding slopes stays within gamma of any point both bounding lines are within gamma of |
| `Plr.InitialCone` | mod/plr.cpp:84-98 | the two lines set up through the error bars of two points form a cone that covers both points, with its centre between them |
| `Plr.NarrowedCone` | mod/plr.cpp:128-135 | replacing a bounding line by one through the centre and the end of an accepted point's error bar gives a narrower cone that covers the point |
| `Plr.NarrowingKeepsCover` | mod/plr.cpp:128-135 | a narrower cone with the same centre covers every point the wider one covered |
| `Plr.GreedyPlr.Setup` | mod/plr.cpp:84-98 | two points establish the cone invariant |
| `Plr.GreedyPlr.ConeBound` | mod/plr.cpp:84-138 | at any moment of any run, every line through sint with a slope between rho_lower and rho_upper is within gamma of every point absorbed so far |
| `Plr.GreedyPlr.CurrentSegment` | mod/plr.cpp:100-107 | the emitted segment starts at the first absorbed point, predicts every absorbed point within gamma and slopes up |
| `Plr.GreedyPlr.Narrow` | mod/plr.cpp:128-137 | an accepted point keeps the cone invariant for all points absorbed, itself included |
| `Plr.GreedyPlr.ProcessReady` | mod/plr.cpp:109-138 | a point joins the segment iff lines that its points admit pass on both sides of it; otherwise a segment that fits all points before it is emitted, with the mean of the admitted slopes, and a new one starts, in level mode at the smallest key of the file whose largest key broke the cone |
| `Plr.InitialAdmits` | mod/plr.cpp:84-98 | the slopes of the initial cone are exactly those of the lines through the midpoint of two points that stay within gamma of both |
| `Plr.NarrowedAdmits` | mod/plr.cpp:126-135 | narrowing keeps the cone exactly the set of lines that all its points admit |
| `Plr.JoinsIff` | mod/plr.cpp:111 | strictly between the bounding lines is where admitted lines pass on both sides |
| `Plr.GreedyPlr.Process` | mod/plr.cpp:63-82 | the state machine of GreedyPLR over any increasing run of points, in file and level mode; from the third point on it emits iff the point could not join |
| `Plr.GreedyPlr.Finish` | mod/plr.cpp:140-159 | the last segment fits what is left; a lone point gets a flat one |
| `LearnedIndex.Train` | mod/plr.cpp:165-192 | the segments cover all keys in consecutive stretches, each predicting its keys within gamma and grown as far as it goes: every point but the first two could join those before it, the point at its end could not; only a lone last key gets a flat segment; in level mode every segment starts at a smallest key; the result is empty iff there are no keys, or the lone key 0, which looks like the all-zero marker, or a poll finds a compaction waiting |
| `GreedyBound.NearJoins` | mod/plr.cpp:109-138 | a point that a line follows as well as those before it, within less than half of gamma, can join them |
| `GreedyBound.FewSegments` | mod/plr.cpp:165-192 | if lines follow the keys in n consecutive pieces within less than half of gamma, training with gamma makes at most n segments |
| `GreedyBound.OneLineOneSegment` | mod/plr.cpp:165-192 | keys whose positions lie on one line get exactly one segment |
| `LearnedIndex.FindSegment` | mod/learned_index.cpp:31-39 | the binary search returns the segment, sentinel aside, that starts at or before the key while the next one starts after it |
| `LearnedIndex.Window` | mod/learned_index.cpp:42-50 | the interval is inside the model or marks a key out of range, and is at most 2*error+1 wide |
| `LearnedIndex.WindowContains` | mod/learned_index.cpp:42-50 | any position within the error of the prediction is inside the interval |
| `LearnedIndex.PredictionBound` | mod/learned_index.cpp:41-49 | for every key in range, trained or not, result+error is not negative, so the conversion to an unsigned position is defined |
| `LearnedIndex.LevelPrediction` | mod/plr.cpp:114-120 | in level mode the prediction of any key between the two keys of a file is at most the error before the first and at most the error after the second of the two positions |
| `LearnedIndex.FileWindow` | mod/learned_index.cpp:41-50 | for any complete model the interval of the chosen segment contains the index of the key |
| `LearnedIndex.LevelWindow` | mod/learned_index.cpp:41-50 | for any complete level model it contains the index of every file that holds the key |
| `LearnedIndex.LearnedIndexData.Learn` | mod/learned_index.cpp:62-89 | after a successful training the model is complete and greedy for its keys; it fails iff the only key is 0 or level training finds a compaction waiting |
| `LearnedIndex.LearnedIndexData.GetPosition` | mod/learned_index.cpp:21-57 | file model: the index of every trained key is in its interval; level model: so is the index of every file whose range contains the key; the interval is at most 2*error+1 wide |
| `LevelModel.FillLevel` | db/version_set.cc:1761-1773 | appends the smallest and largest user key of every file to what the model already holds |
| `LevelModel.ChooseLearned` | db/version_set.cc:397-422 | the learned branch picks the file whose range contains the user key, and no file iff none contains it |
| `LevelModel.ChooseBaseline` | db/version_set.cc:423-441 | the baseline branch reads the file of the least index whose largest key is at or after the lookup key, unless it starts after the user key |
| `LevelModel.ChoicesAgree` | db/version_set.cc:397-441 | the learned and the baseline branch pick the same file iff no file ends with an entry of this user key that is newer than the lookup |
| `LevelModel.ChoicesDiffer` | db/version_set.cc:397-441 | a level and a lookup for which they differ |
| `LevelModel.HolderSuffices` | db/version_set.cc:397-422 | the file whose range contains the user key answers for the level, and none does if no file contains it |
| `LevelModel.LevelGetLearned` | db/version_set.cc:397-422 | reading the file the model picks answers for the whole level, at every snapshot |
| `LevelModel.GetLearned` | db/version_set.cc:344-552 | Version::Get over any mix of learned and unlearned levels, tables taken as their entries, returns the newest visible entry of the whole tree |
| `Version.FindFile` | db/version_set.cc:92-110 | the least index of a file whose largest key is at or after the key |
| `Version.TableGetAnswers` | db/version_set.cc:276-289 | the first entry at or after the lookup key, kept if of the right user key, is the newest visible one of the table |
| `Version.LevelGet` | db/version_set.cc:423-441 | one file answers for a sorted disjoint level even when a user key spans several files |
| `Version.SortNewestFirst` | db/version_set.cc:296-298 | the sort puts higher-numbered files first |
| `Version.SortPermutes` | db/version_set.cc:393 | and is a permutation |
| `Version.Level0Get` | db/version_set.cc:374-395 | searching the overlapping level-0 files newest first and stopping at a hit returns the newest visible entry of level 0 |
| `Version.Get` | db/version_set.cc:344-552 | in a layered tree, stopping at the first level that answers returns the newest visible entry of all levels |
| `Format.FirstHitWins` | db/version_set.cc:356-358 | if every entry of a set is newer than those of its user key in another, an answer of the first is an answer of the union |
| `Inputs.GetOverlappingInputs` | db/version_set.cc:650-690 | terminates despite restarts; above level 0 a filter; at level 0 all results lie in the final range, no file left out overlaps it, and the result is contained in every overlap-closed set of files |
| `Inputs.ClosureLeavesNoneTouching` | db/version_set.cc:674-687 | no level-0 file left out touches a file that was taken |
| `Inputs.GetRange` | db/version_set.cc:1359-1378 | the least smallest and greatest largest key of the files |
| `Inputs.FindSmallestBoundaryFile` | db/version_set.cc:1498-1516 | the first file that starts after the largest key with the same user key, if any |
| `Inputs.AddBoundaryInputs` | db/version_set.cc:1532-1555 | appends, one after the other, the first file that continues the last user key, until none is left that does; terminates and adds no file twice |
| `Inputs.ExtendedUnique` | db/version_set.cc:1532-1555 | in a sorted level that determines the result |
| `Inputs.BoundaryDone` | db/version_set.cc:1523-1527 | with no boundary file left, no entry left in the level is older than an input entry of its user key |
| `Inputs.SetupOtherInputs` | db/version_set.cc:1557-1601 | the inputs are the boundary extension of the given files and what overlaps it in the next level, or the wider set that the hull of both overlaps iff it has more files, stays below the byte limit and needs no more of the next level, whose files are the same either way; no older entry of a user key is left behind; the largest key is the new compaction pointer |
| `Inputs.SameNext` | db/version_set.cc:1588-1589 | wider inputs that need as many files of the next level need the same ones |
| `Inputs.ExpandsBelowLimit` | db/version_set.cc:1573-1601 | on files of users 1 to 5 and 6 to 8 above one of users 4 to 9, the second is taken along iff all three have fewer bytes than the limit |
| `Picking.PickFile` | db/version_set.cc:1436-1448 | the first file that ends after the compaction pointer, else the first of the level |
| `Picking.PickCompaction` | db/version_set.cc:1453-1472 | below level 0 it starts from the picked file alone; in level 0 from the least set of files closed under overlap that holds it; either way that is a seed for SetupOtherInputs |
| `Picking.CompactRange` | db/version_set.cc:1618-1650 | so are those of a manual compaction: in level 0 the least closed set for the range, else the shortest beginning of the overlapping files that holds enough bytes; there are none iff no file overlaps |
| `Picking.SeedOfPrefix` | db/version_set.cc:1631-1642 | the first files that overlap a range leave no gap between them |
| `Picking.SeedOfOne` | db/version_set.cc:1433-1455 | below level 0 any one file is a seed |
| `Compaction.BaseLevelCursor.IsBaseLevelForKey` | db/version_set.cc:1687-1706 | the forward-only cursors decide exactly whether a file two or more levels down contains the key, for keys asked in order |
| `Compaction.DoCompactionWork` | db/db_impl.cc:1079-1183 | unless a shutdown comes before the end: an entry is left out iff a newer one of its user key is visible at the oldest snapshot, or it is a deletion visible there and no file two or more levels down has its user key in range; the rest comes out in order, cut exactly where an output is full or must stop, and no output is empty |
| `Compaction.HiddenIff` | db/db_impl.cc:1113-1125 | looking at the entry before is enough to know whether any newer entry hides this one |
| `Compaction.SurvivorsSorted` | db/db_impl.cc:1151-1173 | the kept entries stay in order |
| `Compaction.MergeKeepsMeaningIff` | db/db_impl.cc:1107-1140 | the merge tells every reader at the oldest snapshot or later the same as before, for every user key, iff behind no dropped deletion marker a left-out file holds an older value as its newest visible entry |
| `Compaction.Resurfaces` | db/db_impl.cc:1126-1136 | when it does, that reader was told not-found before and the old value after |
| `Lsm.ReplaceKeepsLayered` | db/db_impl.cc:1030-1046 | replacing valid inputs by disjoint outputs made of their entries keeps every level in order and newer than everything below it |
| `Lsm.PlaceKeepsLayered` | db/db_impl.cc:582-616 | so does adding a flushed memtable at a level reached without overlap |
| `Lsm.NextLevelApart` | db/version_set.cc:1557-1601 | the next level stays disjoint when inputs[1] are the files that overlap |
| `Placement.SomeFileOverlapsRange` | db/version_set.cc:126-160 | scan and binary search both decide whether some file overlaps the user range |
| `Placement.PickLevelForMemTableOutput` | db/version_set.cc:622-647 | the first of levels 0 and 1 below which a file overlaps or too many bytes lie, else level 2 |
| `Placement.LimitDecides` | db/version_set.cc:632-640 | over one overlapping file in level 2 the choice is level 1, or level 0 iff that file has more bytes than the limit |
| `Placement.PickedIsFree` | db/version_set.cc:622-647 | no file of the chosen level or above touches the new one |
| `Runs.Get` | db/db_impl.cc:1277-1335 | memtable, immutable memtable, then tree: the newest visible entry of all of them |
| `Runs.Read` | db/db_impl.cc:1277-1335 | in every state that agrees with the history, a read at the latest sequence number or a live snapshot is told what the history of all writes says |
| `Runs.WriteKeepsSound` | db/db_impl.cc:1424-1463 | a batch with the next sequence numbers keeps newer entries on top, whatever compactions did before |
| `Runs.WriteKeepsInv` | db/db_impl.cc:1424-1463 | and keeps readers told what the history says |
| `Runs.RotateKeepsSound` | db/db_impl.cc:1589-1598 | the memtable switch keeps the order and all entries |
| `Runs.FlushKeepsSound` | db/db_impl.cc:582-616 | a memtable flush to any level that is free down to it, level 0 included, keeps the order and all entries |
| `Runs.MoveKeepsSound` | db/db_impl.cc:809-816 | a trivial move keeps the order and all entries |
| `Runs.CompactKeepsSound` | db/db_impl.cc:1048-1205 | every merge compaction keeps the order, whatever it drops and wherever its outputs are cut |
| `Runs.CompactKeepsInvIff` | db/db_impl.cc:1107-1140 | it keeps readers told what the history says iff it lets nothing resurface |
| `Runs.StepKeepsInvIff` | db/db_impl.cc:1107-1140 | any step keeps readers told what the history says iff it is no compaction that lets a value resurface |
| `Runs.OutputsApart` | db/db_impl.cc:1151-1173 | output files cut from one sorted stream are disjoint, wherever the cuts are |
| `Background.CompactMemTable` | db/db_impl.cc:582-616 | from any sound state: builds the file, picks the level, installs the edit, and the result is a flush step of Runs to the level picked |
| `Background.MergeInputs` | db/version_set.cc:1391-1422 | the merging iterator over the inputs, read from front to back, gives their entries in order |
| `Background.SmallestSnapshot` | db/db_impl.cc:1060-1064 | the oldest snapshot, or the last sequence number if there is none |
| `Background.InstallResults` | db/db_impl.cc:1030-1046 | the edit puts the outputs in the place of the inputs and keeps all other files |
| `Background.MergeCompaction` | db/db_impl.cc:1048-1205 | merging, dropping, cutting into files and installing from any sound state is a compaction step of Runs; a shutdown before the last entry, and nothing else, leaves the state as it was |
| `Background.TrivialMove` | db/db_impl.cc:809-816 | moving a file by an edit is a move step of Runs |
| `Background.IsTrivialMove` | db/version_set.cc:1669-1677 | one input, none below, and not too many bytes two levels down |
| `Background.HeavyFile` | db/version_set.cc:1669-1677 | too many bytes: those of the files two levels down that overlap the input exceed the limit |
| `Background.BackgroundCompaction` | db/db_impl.cc:786-844 | from any seed and any sound state: the inputs are those of SetupOtherInputs, and the compaction is a step of Runs, a move exactly when it is not manual and trivial, else a merge, unless a shutdown leaves the state as it was |
| `Background.KeysDiffer` | db/version_set.cc:1391-1422 | in a layered tree no internal key is stored twice, so the merged inputs have distinct keys |
| `Runs.EveryRunIsSound` | db/version_set.cc:356-358 | in every state of every run of writes, switches, flushes, moves, compactions and snapshots, entries in a shallower place are newer than those of their user key deeper down |
| `Runs.GetInRun` | db/db_impl.cc:1277-1335 | in every such state a read returns the newest visible entry of all that is stored |
| `Runs.RunReadsRightIff` | db/db_impl.cc:1107-1140 | every state of a run tells its readers what the history says iff no compaction of the run lets a value resurface |
| `SnapshotFree.SnapshotFreeIsSafe` | db/db_impl.cc:1126-1136 | without snapshots no compaction lets anything resurface |
| `SnapshotFree.MarkerIsOldest` | db/db_impl.cc:1126-1136 | what is left out of the inputs for the user key of a droppable marker is newer than the marker |
| `SnapshotFree.SurvivorsOnePerUser` | db/db_impl.cc:1123-1125 | without snapshots at most one entry of each user key survives |
| `SnapshotFree.CompactKeepsUnshared` | db/db_impl.cc:1123-1125 | without snapshots no compaction leaves a user key in two files of a level |
| `SnapshotFree.SnapshotFreeRunsReadRight` | db/db_impl.cc:1048-1205 | every state of every run without snapshots tells its readers what the history says, with no condition on its compactions |
| `Resurrection.DeletedKeyComesBack` | db/version_set.cc:1557-1601 | a run from the empty database that ends with no snapshot, in which the history says a key was deleted and the database returns its old value; its memtables go where PickLevelForMemTableOutput puts them, for every positive byte limit, and none of its merges is a trivial move |
| `Resurrection.NoOtherInputs` | db/version_set.cc:1557-1601 | with one file in the level SetupOtherInputs can return no other inputs than those of the run |
| `Builder.VersionBuilder.Apply` | db/version_set.cc:781-823 | per level, deletions are added and the numbers of added files taken out of them again, added files go to the ordered set; compaction pointers are those named last |
| `Builder.SaveOneLevel` | db/version_set.cc:829-852 | the merge loop yields the ordered merge of base and added files without the deleted ones |
| `Builder.UpperBound` | db/version_set.cc:840-842 | the first base file strictly after the added one |
| `Builder.VersionBuilder.SaveTo` | db/version_set.cc:826-870 | every level saved from its base files and its own additions and deletions |
| `Builder.SaveMembers` | db/version_set.cc:826-885 | a saved level holds exactly (base plus added) minus deleted files |
| `Builder.SaveOrdered` | db/version_set.cc:854-868 | it is strictly ordered iff no kept file is both in the base and added |
| `Builder.LogAndApply` | db/version_set.cc:965-970 | one edit through a new builder |
| `Builder.Recover` | db/version_set.cc:1078-1146 | all edits through one builder on the version without files |
| `Builder.InstallAll` | db/version_set.cc:965-970 | the edits installed one at a time |
| `Builder.WriteSnapshot` | db/version_set.cc:1242-1270 | one edit that adds all files of a version, level by level, and its compaction pointers |
| `Builder.ManifestRecovers` | db/version_set.cc:1078-1146 | a manifest that starts with a snapshot of any version recovers to the very version that installing the later edits gave |
| `Builder.HeldIffCurrent` | db/version_set.cc:781-885 | a level holds a file iff it was in the base or added, and no edit since deleted it |
| `Builder.ReplayHoldsTheSame` | db/version_set.cc:1078-1101 | replay through one builder holds the same files as installing the edits one at a time |
| `Builder.RecoveryIff` | db/version_set.cc:1078-1101 | on any base, and is the same list iff no base file is added by an edit and not deleted by a later one; on the empty base always |
| `Builder.ReturningFileIsSavedTwice` | db/version_set.cc:820-846 | why the base matters: a builder on a base that holds a file which an edit adds again saves it twice |
| `Builder.CompactionEditReplaces` | db/db_impl.cc:1037-1045 | the edit of a compaction, applied, replaces its inputs by its outputs and nothing else |
| `Builder.EditInstalls` | db/version_set.cc:965-970 | installing an edit of one level removes and adds the named files and keeps the order |
| `Recovery.StepMakes` | db/db_impl.cc:1030-1046 | each step of a run that changes the tree does exactly what its edit does |
| `Recovery.EverIdentified` | db/version_set.cc:950-1037 | over a whole run a file number names one file |
| `Recovery.RunIsItsEdits` | db/version_set.cc:965-970 | the tree of any state of any run is what its edits so far give when each is installed on the version before |
| `Recovery.RecoverRun` | db/version_set.cc:1078-1146 | replaying the edits of any run, up to any state, gives the tree of that state |
| `Manifest.ReadEdits` | db/version_set.cc:1082-1123 | for every file, the edits that the replay loop applies before the first report, undecodable edit or foreign comparator, and the status |
| `Manifest.ManifestCrash` | db/version_set.cc:1082-1123 | a manifest cut anywhere gives exactly the edits that are wholly in it |
| `Manifest.RecoverAfterCrash` | db/version_set.cc:1078-1146 | however a crash cuts the manifest of a run, recovery gives the tree of the state after the last edit that is wholly there |
| `Coding.EncodeVarint32IsVarint` | util/coding.cc:47-73 | the five-way unrolled encoder equals the general one |
| `Coding.EncodeVarint64` | util/coding.cc:81-90 | the loop emits seven bits a byte, least significant first |
| `Coding.GetVarint` | util/coding.cc:112-169 | decodes a number that ends within the allowed bytes, cut to its width, and leaves the rest; fails otherwise |
| `Coding.VarintRoundTrip` | util/coding.cc:81-90 | an encoded number decodes to itself and its length, whatever follows |
| `Coding.PrefixedRoundTrip` | util/coding.cc:98-101 | a length-prefixed string decodes to itself, whatever follows |
| `Coding.GetLengthPrefixedSlice` | util/coding.cc:181-190 | succeeds iff the length parses and that many bytes follow, and takes exactly them |
| `Coding.FixedRoundTrip` | util/coding.cc:9-33 | little-endian numbers decode to themselves |
| `VersionEdit.Edit.EncodeTo` | db/version_edit.cc:41-85 | appends the encoding of the fields, deleted files in ascending order |
| `VersionEdit.AscendingOrder` | db/version_edit.cc:69-74 | deleted files come by level, then by number, each once |
| `VersionEdit.Edit.DecodeFrom` | db/version_edit.cc:107-205 | for every input the fields and the status of the reference decoder, starting from what Clear leaves |
| `VersionEdit.BadField` | db/version_edit.cc:107-205 | by the number of its tag, what a field that does not parse is reported as, and that decoding stops there |
| `VersionEdit.EditRoundTrip` | db/version_edit.cc:26-39 | encoded edits decode to themselves, iff the decoding object had no compaction pointers, which Clear keeps |
| `WriteBatch.Batch.Add` | db/write_batch.cc:98-109 | one more operation, counted |
| `WriteBatch.Batch.Append` | db/write_batch.cc:144-148 | the operations of both batches in order, counted |
| `WriteBatch.Batch.SetSequence` | db/write_batch.cc:94-96 | the sequence number changes, the operations do not |
| `WriteBatch.BatchRoundTrip` | db/write_batch.cc:42-80 | a batch iterates as its operations and its sequence number reads back |
| `WriteBatch.InsertInto` | db/write_batch.cc:115-136 | for every input, the operations before the first corruption get consecutive sequence numbers, and the status says what is wrong |
| `Keys.SliceToInteger` | mod/util.cpp:97-110 | the value of the decimal string in 64-bit arithmetic, leading zeros skipped |
| `Keys.ByteOrderIsNumeric` | mod/util.cpp:112-127 | on decimal keys of one width byte order is numeric order |
| `Keys.NumberIsInjective` | mod/util.cpp:97-110 | two decimal keys of one width are equal iff their numbers are |
| `Keys.PaddingKeepsNumber` | mod/util.cpp:86-89 | zero padding does not change the number |
| `Keys.StoredOrder` | db/dbformat.cc:51-67 | the comparator on stored bytes is the order on (user key ascending, packed sequence and type descending) |
| `Log.UnmaskMask` | util/crc32c.h:29-38 | Unmask inverts Mask |
| `Log.Writer.constructor` | db/log_writer.cc:23-30 | a writer that continues a file of any length |
| `Log.Writer.AddRecord` | db/log_writer.cc:34-80 | what is appended is a function of the record and of the length of the file alone; when the file stops taking bytes, a beginning of it |
| `Log.Writer.EmitPhysicalRecord` | db/log_writer.cc:82-108 | appends header and payload, or a beginning of them if the file takes no more, and moves the offset on in any case |
| `Log.Writer.SwitchBlock` | db/log_writer.cc:46-56 | a block tail too short for a header is filled with zeros |
| `Log.ReopenedLog` | db/log_writer.cc:27-30 | closing and reopening the log at any point leaves the bytes of one continuous writer |
| `Log.Reader.ReadPhysicalRecord` | db/log_reader.cc:189-271 | for every file and position, the fragment, end, bad record and reports of the reference reader |
| `Log.Reader.ReadRecord` | db/log_reader.cc:56-174 | for every file and position, the record and reports of the reference reader |
| `Log.Reader.Refill` | db/log_reader.cc:189-220 | reading the next block at the end of the buffer does not change what comes next; without a header left it is the end |
| `Log.WholeFragment` | db/log_reader.cc:222-271 | an emitted fragment wholly in the file reads back unharmed |
| `Log.CutFragment` | db/log_reader.cc:207-245 | a fragment cut anywhere reads as the end of the file and reports nothing |
| `Log.EmittedReadsBack` | db/log_writer.cc:34-80 | what AddRecord emits at any block offset reads back as the record if the file holds all of it, else as the end, with nothing reported |
| `Log.CrashRoundTrip` | db/log_reader.cc:143-151 | for any records and any cut of the file, the reader returns exactly the records wholly inside and reports nothing |
| `Log.LogRoundTrip` | db/log_reader.cc:56-174 | an uncut log reads back as its records, with nothing reported |
| `Log.TornLog` | db/log_writer.cc:34-108 | a record whose append or flush failed is read back or not, all before it are, and nothing is reported |
| `LogReading.PhysicalRead` | db/log_reader.cc:189-270 | for every file and position: a fragment is returned iff a whole one with the right checksum is at the next place; otherwise the rest of the block is dropped and reported, or the file has ended |
| `LogReading.RecordIsWhole` | db/log_reader.cc:56-173 | for every file: a returned record is the payload of one FULL fragment, or of FIRST, MIDDLE and LAST fragments next to each other in the file, all inside their blocks and with the right checksum |
| `LogReading.NothingLost` | db/log_reader.cc:56-173 | for every file: each payload byte read and each byte dropped is returned or reported, once, or is of a record that the end of the file cuts off |
| `LogReading.UnknownKind` | db/log_reader.cc:161-170 | a good fragment of unknown type is reported, except type bytes 5 and 6, which the reader takes for its own marks |
| `LogDamage.DamageIsLocal` | doc/log_format.md:59-62 | whatever the bytes before a block boundary have become, all records that start behind it are read, in order, unless a fragment with type byte 5 is met before it; then what lies behind is not read at all |
| `LogDamage.SplitAtBoundary` | db/log_writer.cc:34-80 | what is written of a record behind a block boundary is what would be written of its rest there |
| `DbIter.DBIter.FindNextUserEntry` | db/db_iter.cc:168-198 | stops on the first live entry of a user key past the one to skip, or reports that there is none |
| `DbIter.DBIter.FindPrevUserEntry` | db/db_iter.cc:227-267 | stops on the last live entry of a smaller user key, and leaves the inner iterator before all visible entries of that key |
| `DbIter.DBIter.Seek` | db/db_iter.cc:269-281 | the first live entry at or after the target |
| `DbIter.DBIter.SeekToFirst` | db/db_iter.cc:283-292 | the first live entry |
| `DbIter.DBIter.SeekToLast` | db/db_iter.cc:294-299 | the last live entry |
| `DbIter.DBIter.Next` | db/db_iter.cc:141-166 | in either direction, the next live user key |
| `DbIter.DBIter.Prev` | db/db_iter.cc:200-225 | in either direction, the previous live user key |
| `DbIter.DBIter.Key` | db/db_iter.cc:64-67 | in either direction, the user key of the live entry the iterator stands on |
| `DbIter.DBIter.Value` | db/db_iter.cc:68-71 | in either direction, its value |
| `DbIter.LiveIffFound` | db/db_iter.cc:34-38 | a user key has a live entry iff a lookup at the same sequence number finds a value, and then it is that value |
| `Merger.MergingIterator.FindSmallest` | table/merger.cc:148-161 | with every child on its first entry within a bound, picks the first entry of the union within it |
| `Merger.MergingIterator.FindLargest` | table/merger.cc:163-176 | with every child on its last entry within a bound, picks the last entry of the union within it |
| `Merger.MergingIterator.SeekToFirst` | table/merger.cc:31-37 | the first entry of the union |
| `Merger.MergingIterator.SeekToLast` | table/merger.cc:39-45 | the last entry of the union |
| `Merger.MergingIterator.Seek` | table/merger.cc:47-53 | the first entry of the union at or after the target |
| `Merger.MergingIterator.Next` | table/merger.cc:55-79 | in either direction, the first entry after the current key; all children stay on the right side of it |
| `Merger.MergingIterator.Prev` | table/merger.cc:81-108 | in either direction, the last entry before the current key |
| `Merger.MovesAsCursor` | table/merger.cc:55-108 | Next and Prev move as an index into the sorted union does |
| `Merger.FirstInUnion` | table/merger.cc:148-161 | the first entry of the children past a bound is the one at its index in the sorted union |
| `Merger.LastInUnion` | table/merger.cc:163-176 | likewise the last entry before a bound |
| `Merger.SeeksAsCursor` | table/merger.cc:47-53 | Seek lands where it would in the sorted union |
| `Merger.Scan` | table/merger.cc:31-79 | the sorted union exists, and a scan from front to back yields it |
| `Table.DecodeEntry` | table/block.h:60-80 | for every input the result of the three-varint parse, fast path included |
| `Table.EntryRoundTrip` | table/block_builder.cc:93-102 | an entry decodes to its key and value, whatever follows |
| `Table.BlockBuilder.Add` | table/block_builder.cc:73-109 | the buffer stays the concatenation of the entries, the restarts the offsets of every interval-th entry |
| `Table.BlockBuilder.Finish` | table/block_builder.cc:63-71 | the entries, the restart array and its length |
| `Table.TableBuilder.Add` | table/table_builder.cc:94-123 | an entry joins the current block, which is written as soon as it is full; index entries follow one behind |
| `Table.TableBuilder.Flush` | table/table_builder.cc:125-194 | writes a block that is not empty with its trailer and remembers its handle |
| `Table.TableBuilder.Finish` | table/table_builder.cc:198-238 | the file is the blocks in order and the index block has one entry for each, with its last key and its place |
| `Table.FullBlocksAreEqual` | table/table_builder.cc:119-122 | a block cut when full holds exactly the capacity that the sizes determine |
| `Table.BlockOffset` | table/table_builder.cc:177-194 | block k starts at k strides |
| `Table.FinishedIsEven` | table/table_builder.cc:117-122 | with entries of one size all blocks but the last hold the same number of entries, the last no more |
| `Table.EntryOffset` | table/table_builder.cc:141-194 | entry j of block k starts exactly at k strides plus j entry sizes |
| `LevelRead.BuiltIsLaid` | table/table_builder.cc:198-238 | what the table builder writes meets the layout that LevelRead relies on |
| `LevelRead.FillBlock` | table/table.cc:310-316 | the user keys of a block parsed from its bytes, and where its restart array starts |
| `LevelRead.FillData` | table/table.cc:297-337 | the user keys of the table, parsed from its bytes through the index block, are appended by position, or nothing if the model was filled; the geometry is recorded once, and rightly if the first block is full |
| `LevelRead.IndexEntry` | db/table_cache.cc:340-346 | the restart array of the index block leads to the entry of the block |
| `LevelRead.ChooseBlock` | db/table_cache.cc:335-349 | the comparison with the index key picks the first block iff the user key is not past its last key |
| `LevelRead.RightBlock` | db/table_cache.cc:335-349 | of two adjacent blocks an entry is in the first iff its user key is not past the last key there, and inside the part that the range covers |
| `LevelRead.SearchBlock` | db/table_cache.cc:387-427 | the binary search over raw entries lands on the first entry of the range whose user key is not below the target, or on the last of the range |
| `LevelRead.ReadCovers` | db/table_cache.cc:371-380 | the bytes read are exactly the entries of the chosen positions |
| `LevelRead.ReadRange` | db/table_cache.cc:330-427 | for a range at most one block wide: a present key is found, an absent one lands on an entry of another user key or on none |
| `LevelRead.LevelRead` | db/table_cache.cc:285-431 | the same through the trained file model, if 2*error+1 is at most the number of entries in a block |
| `LevelRead.LevelReadAgrees` | db/version_set.cc:276-289 | filtered by user key, the landed entry is what the baseline lookup finds |
| `LearnedTable.BuildTable` | table/table_builder.cc:94-253 | the entries fed to a table builder come out as blocks in order, all but the last cut when full |
| `LearnedTable.TrainingIncreases` | mod/learned_index.cpp:62-89 | the training keys of a table whose user keys increase are strictly increasing |
| `LearnedTable.TrainOn` | mod/learned_index.cpp:62-89 | filling a model from the bytes of a table and training it gives a model that fits the table |
| `LearnedTable.BuildLearnAndGet` | db/table_cache.cc:285-431 | from entries to answers: the table is built, learned, and read through the model and through the index block; both return the entry of the user key if there is one, and otherwise no entry with that key |
| `StoredGet.TableCacheGet` | db/table_cache.cc:285-431 | a lookup in the bytes of a table, through its model iff that is learned, gives what a search of its entries gives |
| `StoredGet.StoredLevel0Get` | db/version_set.cc:373-395 | in level 0, newest file first, the newest visible entry of the level |
| `StoredGet.ChooseFile` | db/version_set.cc:396-460 | the file searched, by the level model iff that is learned and else by bisection, holds the answer of its level, and no file is searched only if there is none |
| `StoredGet.StoredLevelGet` | db/version_set.cc:396-552 | on bytes, the newest visible entry of a deeper level |
| `StoredGet.Get` | db/version_set.cc:344-552 | Version::Get with level models and file models, down to the bytes of the tables, returns the newest visible entry of the whole tree |
| `BlockRead.RestartsAre` | table/block_builder.cc:73-109 | restart point t is the offset of entry t times the interval |
| `BlockRead.ReadEntry` | table/block.h:273-300 | the entry at an offset and the offset of the next, from the bytes |
| `BlockRead.RestartPoint` | table/block.h:107-110 | the number read from the restart array is the offset of its entry |
| `BlockRead.BlockSeek` | table/block.h:174-211 | on the bytes of a block, the binary search over restart points and the scan land on the first entry at or after the target |
| `Baseline.BlockwiseSeek` | table/table.cc:208-268 | the first block whose last key is at or after the target holds the first such entry of the table |
| `Baseline.ReadBlock` | table/table.cc:147-206 | the handle in an index entry leads to the bytes of its block |
| `Baseline.IndexIsSorted` | table/table_builder.cc:94-140 | the index block of a sorted table is itself a sorted block, keyed by the last key of each block |
| `Baseline.InternalGet` | table/table.cc:208-268 | on the bytes of the file, index block, filter and block give what a search of all entries gives |
| `GroupCommit.BuildBatchGroup` | db/db_impl.cc:1486-1532 | the group is a prefix of the queue with its operations in order: followers of a leader of at most 128 KB add at most 128 KB, a larger leader leads at most 1 MB, none syncs unless the leader does; the first writer left out would break one of these |
| `GroupCommit.AppliedGroup` | db/db_impl.cc:1427-1463 | a group of whose operations some first ones were inserted has added them writer by writer with consecutive numbers, and each writer is told its share |
| `GroupCommit.EnqueueKeepsInv` | db/db_impl.cc:1408-1420 | a writer that queues up keeps the invariant |
| `GroupCommit.LeadKeepsInv` | db/db_impl.cc:1424-1430 | so does a leader that makes room and forms its group |
| `GroupCommit.FinishKeepsInv` | db/db_impl.cc:1437-1479 | so does a commit that succeeds, fails in the log, or breaks off inside a corrupt batch |
| `GroupCommit.GroupLeaves` | db/db_impl.cc:1465-1474 | exactly the writers of the group leave, in order, with the leader's outcome |
| `GroupCommit.FinishKeepsRules` | db/db_impl.cc:1506-1512 | a writer told of success has all its operations in the memtable, one outside a commit none, and no sync write has left under a leader that does not sync |
| `GroupCommit.FinishAppliesAndNumbers` | db/db_impl.cc:1462-1474 | after each commit the memtable is what the writers that left have put in, in order, and all ranges ascend without overlap |
| `GroupCommit.EveryRunKeepsInv` | db/db_impl.cc:1408-1482 | over every interleaving: each operation of a writer told of success exactly once, in queue order, at most a beginning of one that failed, disjoint consecutive ranges, no sync write under a leader that does not sync |
| `GroupCommit.ArrivedOnlyGrows` | db/db_impl.cc:1465-1474 | no step changes the order of arrival, and what was applied stays |
| `Lru.HandleTable.Lookup` | util/cache.cc:74-76 | the matching entry iff there is one |
| `Lru.HandleTable.Insert` | util/cache.cc:78-92 | the entry replaces the matching one, which is returned; there are never more entries than chains, and the table grows only then |
| `Lru.HandleTable.Remove` | util/cache.cc:94-102 | the matching entry goes, and no other |
| `Lru.HandleTable.Resize` | util/cache.cc:122-146 | keeps exactly the same entries and leaves at least as many chains as entries, at most twice as many or four |
| `Lru.LRUCache.Unref` | util/cache.cc:225-237 | the last reference frees the entry, once; the last client of a cached entry moves it to the newest end of the lru list |
| `Lru.LRUCache.Ref` | util/cache.cc:217-223 | a cached entry joins the in-use list with its first client |
| `Lru.LRUCache.FinishErase` | util/cache.cc:307-316 | the entry leaves its list and its charge the usage; it is freed now iff no client holds it |
| `Lru.LRUCache.Lookup` | util/cache.cc:252-259 | finds the cached entry of the key iff there is one, counts a client more and takes the entry off the lru list |
| `Lru.LRUCache.Release` | util/cache.cc:261-264 | counts a client less; frees the entry iff it is no longer cached or held; the last client of a cached entry makes it the newest of the lru list |
| `Lru.LRUCache.Insert` | util/cache.cc:266-303 | ends within capacity or with an empty lru list, frees the oldest first and no more than needed, replaces an entry of the same key |
| `Lru.LRUCache.Erase` | util/cache.cc:318-321 | exactly the entry of the key leaves the cache, freed now iff no client holds it |
| `Lru.LRUCache.Prune` | util/cache.cc:323-333 | the lru list is freed in order, entries in use stay |
| `Lru.LRUCache.Evict` | util/cache.cc:293-300 | frees the oldest first, stops within capacity or with an empty lru list, and no eviction was needless |
| `Lru.FindPointer` | util/cache.cc:114-120 | the first matching entry of the bucket, or its end |
| `SkipList.List.FindGreaterOrEqual` | db/skiplist.h:260-281 | the least key at or after the given one, and on every level the last place before it |
| `SkipList.List.FindLessThan` | db/skiplist.h:283-302 | the last place before the key |
| `SkipList.List.FindLast` | db/skiplist.h:304-322 | the last place of the list |
| `SkipList.List.Contains` | db/skiplist.h:370-378 | whether the key is in the list |
| `SkipList.List.Insert` | db/skiplist.h:336-368 | at any height exactly the levels below it gain the key; by the loop invariants every state between the stores of two levels is a valid list |
| `SkipList.ChainInsert` | db/skiplist.h:362-367 | linking a key behind its predecessor keeps the level a sorted chain and adds this key only |
| `SkipList.WalkIsSorted` | db/skiplist.h:336-368 | following the links of a level from any place yields its keys after that place, sorted |
| `SkipList.LevelsNest` | db/skiplist.h:336-368 | each level is a subsequence of the one below |
| `Coherence.ApplyToModel` | db/version_set.cc:934-948 | exactly the levels above 0 that the edit does not touch keep the model of the previous version |
| `Coherence.InstallKeepsCoherence` | db/version_set.cc:1018-1022 | installing a version keeps all versions coherent, the models it shares included |
| `Coherence.LearnKeepsCoherence` | mod/learned_index.cpp:93-135 | training a level of any version keeps all versions coherent if the model was empty |
| `Coherence.CoherentIffFilledOnce` | db/version_set.cc:1761-1773 | a training keeps coherence iff the model had not been filled before |
| `Coherence.SecondFillSpoils` | mod/learned_index.cpp:107-118 | a training given up after it filled the model, then repeated: the model is trained on every boundary key twice |
| `Coherence.EveryRunIsCoherent` | db/version_set.cc:1018-1022 | in every run of installs and level learning that fills each model at most once, every learned model of every version was trained on that version's boundary keys |

## Left out

- A memtable flush that runs inside `DoCompactionWork`: steps are atomic and nothing is claimed about that interleaving.
- Which level and which file a compaction starts from, seek statistics and read samples: any choice is allowed.
- Grandparent limits in `ShouldStopBefore` and output size limits: when an output is full or must stop is a parameter.
- Floating-point rounding, and keys of more than 64 bits: exact reals and numbers are used.
- Model files, learning threads and the cost-benefit analyser: text I/O, timing and heuristics; an abort of the training is a parameter.
- CRC32C itself, Snappy, Bloom filters, the arena and the value log: parameters or easier members.
- The fixed 4096-byte buffer of `LevelRead`: the bytes read are a value without a size limit.
- Environment, file names, options, C bindings, benchmarks and statistics: I/O or user interface.
- Memory order of atomics and condition-variable wakeups: a critical section is one step.
- DoCompactionWork: keys that do not parse are not modelled, since stored keys are well formed; failures to write an output are not either.
- FlushKeepsSound: a flush during log recovery, which goes to level 0, is covered; replaying the log into a memtable is not modelled.
- AddRecord: a failure to append the zero trailer of a block, whose status the source does not look at, is not modelled.
- ReadPhysicalRecord: read errors of the file and an initial offset other than 0 are not modelled; every caller but the tests passes 0.
- ReadRecord: resynchronisation after an initial offset is not modelled, for the same reason.
- Recover: the log, file and sequence numbers it restores, and its complaint when one is missing, are not modelled.
- FinishKeepsInv: whether the log holds the record of a commit that failed is not captured; what a torn log reads back as is Log.TornLog.
- Finish: filter, metaindex and footer blocks are any bytes after the data blocks, and the block trailer's checksum is not read back.
- LevelRead: nothing is said of tables with two entries of a user key or of lookups older than a stored entry, which the landed entry is not checked for.
- MergeInputs: the concatenating iterator of a level is one child per file.
- LRUCache: linked-list and hash-chain pointers are sequences, and a handle's reference count and in-cache mark live in the cache, so pointer surgery in place is not captured.
- SkipList: nodes are named by their keys and links are kept level by level, so addresses and the order of two stores on one level are not captured.
- DBIter: the inner iterator is an index into the sorted stream of entries; that the merging iterator moves as one is Merger.MovesAsCursor.

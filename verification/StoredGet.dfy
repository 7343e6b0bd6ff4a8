/**
 Version::Get down to the bytes of the tables (db/version_set.cc, db/table_cache.cc,
 table/table.cc): level models choose files, file models choose positions, and what
 has no model goes through binary searches.
 */
module StoredGet {
  import opened Format
  import opened Coding
  import opened Keys
  import opened Log
  import opened Table
  import opened BlockRead
  import opened Baseline
  import opened LevelRead
  import opened LearnedTable
  import opened LearnedIndex
  import opened LevelModel
  import opened Version

  /** A table in the table cache: its bytes, its index block, and its model. */
  datatype Image = Image(file: Bytes, indexBlock: Bytes, g: Geometry, model: LearnedIndexData)

  /** How tables are written: checksum, restart interval, width of user keys. */
  datatype Layout = Layout(crc: Checksum, interval: nat, keySize: nat)

  /** The bytes hold the entries of `f`, in these blocks. */
  ghost predicate Stores(image: Image, f: File, layout: Layout, blocks: seq<seq<Raw>>) {
    && StoredTable(image.file, image.indexBlock, layout.crc, layout.interval, blocks, layout.keySize)
    && AllNumeric(blocks, layout.keySize) && f.entries == Concat(AsBlocks(blocks, layout.keySize))
  }

  /** A file model that was learned fits the table, for lookups at `snapshot`. */
  ghost predicate FitsTable(image: Image, layout: Layout, blocks: seq<seq<Raw>>, snapshot: nat)
    reads image.model`learned, image.model`stringSegments, image.model`minKey, image.model`maxKey
    reads image.model`size, image.model`trainedOn, image.model`cuts, image.model`breaks
  {
    && image.model.Valid() && !image.model.isLevel
    && (image.model.learned ==>
          && layout.interval > 0
          && Laid(image.file, image.indexBlock, IndexEntries(layout.crc, layout.interval, blocks), blocks, image.g)
          && UsersIncrease(blocks, layout.keySize, snapshot) && 2 * image.model.error + 1 <= image.g.numEntries
          && TrainedOnTable(image.model.trainedOn, blocks, image.g.numEntries, layout.keySize))
  }

  /** An entry out of its stored form. */
  method Decoded(raw: Raw, keySize: nat) returns (e: Entry)
    requires Numeric(raw, keySize)
    ensures e == AsEntry(raw, keySize)
  {
    var user := UserNumber(raw.key, keySize);
    var tag := DecodeFixed(raw.key[keySize..]);
    var value := seq(|raw.value|, i requires 0 <= i < |raw.value| => raw.value[i] as char);
    e := Entry(InternalKey(user, tag / 256, if tag % 256 == 0 then Deletion else Value), value);
  }

  /** The lookup key as bytes. */
  ghost predicate Asks(key: Bytes, keySize: nat, user: nat, snapshot: nat) {
    WellFormed(key, keySize) && Number(key[..keySize]) < TWO_64 && KeyOf(key, keySize) == LookupKey(user, snapshot)
  }

  lemma StoresFacts(image: Image, f: File, layout: Layout, blocks: seq<seq<Raw>>)
    requires Stores(image, f, layout, blocks)
    ensures AllWellFormed(blocks, layout.keySize) && layout.interval > 0
    ensures forall k: nat, j: nat :: InTable(blocks, k, j) ==> Numeric(blocks[k][j], layout.keySize)
  {
    hide WellFormed, Number, Storable;
  }

  lemma AsksFacts(key: Bytes, keySize: nat, user: nat, snapshot: nat)
    requires Asks(key, keySize, user, snapshot)
    ensures WellFormed(key, keySize) && Number(key[..keySize]) < TWO_64
    ensures KeyOf(key, keySize) == LookupKey(user, snapshot)
    ensures KeyOf(key, keySize).user == user
  {
  }

  lemma EntryUser(raw: Raw, keySize: nat)
    requires WellFormed(raw.key, keySize)
    ensures AsEntry(raw, keySize).key.user == User(raw, keySize)
  {
  }

  lemma NumericIs(raw: Raw, keySize: nat)
    requires Numeric(raw, keySize)
    ensures WellFormed(raw.key, keySize)
  {
  }

  /** TableCache::Get: through the file model if there is one, else through the index block.
      Both results are filtered by user key (SaveValue). */
  method TableCacheGet(image: Image, key: Bytes, keySize: nat, user: nat, ghost f: File, ghost layout: Layout,
                       ghost blocks: seq<seq<Raw>>, ghost snapshot: nat)
    returns (r: Option<Entry>)
    requires layout.keySize == keySize && Stores(image, f, layout, blocks) && FitsTable(image, layout, blocks, snapshot)
    requires Asks(key, keySize, user, snapshot)
    modifies image.model`served
    ensures r == TableGet(f.entries, user, snapshot)
    // A learned model is asked.
    ensures image.model.served == old(image.model.served) + if image.model.learned then 1 else 0
  {
    StoresFacts(image, f, layout, blocks);
    AsksFacts(key, keySize, user, snapshot);
    hide Laid, UsersIncrease, TrainedOnTable, StoredTable, WellFormed, KeyOf, Concat, TableGet, IndexEntries,
         TableBytes, Asks, AllNumeric, Number, Complete, StrictlyIncreasing, AllEven, Numeric, AsEntry;
    var raw: Option<Raw>;
    if image.model.learned {
      ghost var index := IndexEntries(layout.crc, layout.interval, blocks);
      raw := LevelRead.LevelRead(image.file, image.indexBlock, image.g, key, image.model, o => true, index, blocks,
                                 keySize, snapshot);
      LevelReadAgrees(blocks, keySize, snapshot, user, raw);
    } else {
      raw := InternalGet(image.file, image.indexBlock, key, o => true, layout.crc, layout.interval, blocks, keySize,
                         user, snapshot);
    }
    r := None;
    if raw.Some? {
      var e := Decoded(raw.value, keySize);
      NumericIs(raw.value, keySize);
      EntryUser(raw.value, keySize);
      if e.key.user == user {
        r := Some(e);
      }
    }
  }

  // ---------------------------------------------------------------- the tree

  /** The table cache holds every file of the tree. */
  ghost predicate Cached(cache: map<nat, Image>, files: seq<File>, layout: Layout, contents: nat -> seq<seq<Raw>>) {
    forall f <- files :: f.number in cache && Stores(cache[f.number], f, layout, contents(f.number))
  }

  ghost function Models(cache: map<nat, Image>): set<LearnedIndexData> {
    set n | n in cache :: cache[n].model
  }

  ghost predicate AllFit(cache: map<nat, Image>, layout: Layout, contents: nat -> seq<seq<Raw>>, snapshot: nat)
    reads Models(cache)`learned, Models(cache)`stringSegments, Models(cache)`minKey, Models(cache)`maxKey
    reads Models(cache)`size, Models(cache)`trainedOn, Models(cache)`cuts, Models(cache)`breaks
  {
    forall n :: n in cache ==> FitsTable(cache[n], layout, contents(n), snapshot)
  }

  /** One table of the tree. */
  method FileGet(cache: map<nat, Image>, f: File, key: Bytes, keySize: nat, user: nat, ghost files: seq<File>,
                 ghost layout: Layout, ghost contents: nat -> seq<seq<Raw>>, ghost snapshot: nat)
    returns (r: Option<Entry>)
    requires layout.keySize == keySize && Cached(cache, files, layout, contents) && f in files
    requires AllFit(cache, layout, contents, snapshot) && Asks(key, keySize, user, snapshot)
    modifies Models(cache)`served
    ensures r == TableGet(f.entries, user, snapshot)
  {
    hide Stores, FitsTable, Asks, TableGet;
    assert cache[f.number].model in Models(cache);
    r := TableCacheGet(cache[f.number], key, keySize, user, f, layout, contents(f.number), snapshot);
  }

  /** Version::Get at level 0: newest file first. */
  method StoredLevel0Get(files: seq<File>, cache: map<nat, Image>, key: Bytes, keySize: nat, user: nat,
                         ghost layout: Layout, ghost contents: nat -> seq<seq<Raw>>, ghost snapshot: nat)
    returns (r: Option<Entry>)
    requires NewerFilesHigher(files) && layout.keySize == keySize && Cached(cache, files, layout, contents)
    requires AllFit(cache, layout, contents, snapshot) && Asks(key, keySize, user, snapshot)
    modifies Models(cache)`served
    ensures Answers(EntriesOf(files), user, snapshot, r)
  {
    hide Cached, AllFit, Asks, TableGet, NewerFilesHigher, Answers;
    var tmp := FilesHolding(files, user);
    tmp := SortNewestFirst(tmp);
    for i := 0 to |tmp|
      invariant forall f <- tmp[..i] :: TableGet(f.entries, user, snapshot).None?
    {
      assert tmp[i] in tmp;
      r := FileGet(cache, tmp[i], key, keySize, user, files, layout, contents, snapshot);
      if r.Some? {
        Level0Stop(files, tmp, i, user, snapshot, r);
        return;
      }
    }
    r := None;
    Level0Stop(files, tmp, |tmp|, user, snapshot, r);
  }

  /** The choice of a file at a lower level. */
  method ChooseFile(files: seq<File>, model: LearnedIndexData, user: nat, snapshot: nat) returns (choice: Option<nat>)
    requires SortedDisjoint(files) && Fits(model, files)
    modifies model`served
    ensures choice.Some? ==> choice.value < |files|
    ensures Answers(EntriesOf(files), user, snapshot,
                    if choice.Some? then TableGet(files[choice.value].entries, user, snapshot) else None)
    // A learned model is asked, and what it picks is the file whose range holds the key.
    ensures model.served == old(model.served) + if model.learned then 1 else 0
    ensures if model.learned then Holder(files, user, choice) else choice == BaselineChoice(files, user, snapshot)
  {
    hide SortedDisjoint, Complete, AllEven, BoundaryKeys, BaselineChoice, Holder, Answers, TableGet;
    if model.learned {
      choice := ChooseLearned(files, model, user);
    } else {
      choice := ChooseBaseline(files, user, snapshot);
    }
    ChoiceAnswers(files, user, snapshot, choice);
  }

  /** Version::Get at a lower level: one file, chosen by the level model if it is learned. */
  method StoredLevelGet(files: seq<File>, model: LearnedIndexData, cache: map<nat, Image>, key: Bytes, keySize: nat,
                        user: nat, snapshot: nat, ghost layout: Layout, ghost contents: nat -> seq<seq<Raw>>)
    returns (r: Option<Entry>)
    requires SortedDisjoint(files) && Fits(model, files) && layout.keySize == keySize
    requires Cached(cache, files, layout, contents)
    requires AllFit(cache, layout, contents, snapshot) && Asks(key, keySize, user, snapshot)
    modifies model`served, Models(cache)`served
    ensures Answers(EntriesOf(files), user, snapshot, r)
  {
    hide Cached, AllFit, Asks, TableGet, Answers, SortedDisjoint, Fits;
    var choice := ChooseFile(files, model, user, snapshot);
    r := None;
    if choice.Some? {
      r := FileGet(cache, files[choice.value], key, keySize, user, files, layout, contents, snapshot);
    }
  }

  /** Either choice of a file answers for the level. */
  lemma ChoiceAnswers(files: seq<File>, user: nat, snapshot: nat, choice: Option<nat>)
    requires SortedDisjoint(files)
    requires choice == BaselineChoice(files, user, snapshot)
      || (StrictlyIncreasing(BoundaryKeys(files)) && Holder(files, user, choice))
    ensures choice.Some? ==> choice.value < |files|
    ensures Answers(EntriesOf(files), user, snapshot,
                    if choice.Some? then TableGet(files[choice.value].entries, user, snapshot) else None)
  {
    hide SortedDisjoint, Answers, TableGet;
    if choice == BaselineChoice(files, user, snapshot) {
      var index := FindFileIndex(files, LookupKey(user, snapshot));
      OneFileSuffices(files, index, user, snapshot,
                      if choice.Some? then TableGet(files[choice.value].entries, user, snapshot) else None);
    } else {
      HolderSuffices(files, user, snapshot, choice);
    }
  }

  /** Version::Get with level models and file models, down to bytes: the newest visible
      entry of the whole tree. */
  method Get(levels: seq<seq<File>>, models: seq<LearnedIndexData>, cache: map<nat, Image>, key: Bytes, keySize: nat,
             user: nat, snapshot: nat, ghost layout: Layout, ghost contents: nat -> seq<seq<Raw>>)
    returns (r: Option<Entry>)
    requires Layered(levels) && |models| == |levels| && layout.keySize == keySize
    requires forall i :: 0 < i < |levels| ==> Fits(models[i], levels[i])
    requires forall i :: 0 <= i < |levels| ==> Cached(cache, levels[i], layout, contents)
    requires AllFit(cache, layout, contents, snapshot) && Asks(key, keySize, user, snapshot)
    modifies models`served, Models(cache)`served
    ensures Answers(TreeEntries(levels), user, snapshot, r)
  {
    hide NewerFilesHigher, SortedDisjoint, Above, Answers, TreeEntries, Cached, AllFit, Asks, Fits;
    assert Answers(TreeEntries(levels[..0]), user, snapshot, None) by { NothingAnswers(levels, user, snapshot); }
    for level := 0 to |levels|
      invariant Answers(TreeEntries(levels[..level]), user, snapshot, None)
    {
      if level == 0 {
        r := StoredLevel0Get(levels[0], cache, key, keySize, user, layout, contents, snapshot);
      } else {
        r := StoredLevelGet(levels[level], models[level], cache, key, keySize, user, snapshot, layout, contents);
      }
      StopOrGoOn(levels, level, user, snapshot, r);
      if r.Some? {
        return;
      }
    }
    r := None;
    assert levels[..|levels|] == levels;
  }
}

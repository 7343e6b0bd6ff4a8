/**
 Point lookups in a version (db/version_set.cc: FindFile, Version::Get), with
 the baseline path only; module LevelModel adds the learned one.
 */
module Version {
  import opened Format

  // ---------------------------------------------------------------- one table

  /** The position of the first entry at or after `key`, or the number of entries. */
  function SeekIndex(entries: seq<Entry>, key: InternalKey): (i: nat)
    ensures i <= |entries|
    ensures i < |entries| ==> Compare(entries[i].key, key) >= 0
    ensures forall j :: 0 <= j < i ==> Compare(entries[j].key, key) < 0
  {
    if entries == [] || Compare(entries[0].key, key) >= 0 then 0
    else 1 + SeekIndex(entries[1..], key)
  }

  /** Table::InternalGet with SaveValue: the entry sought, if it is of the right user key. */
  function TableGet(entries: seq<Entry>, user: nat, snapshot: nat): Option<Entry> {
    var i := SeekIndex(entries, LookupKey(user, snapshot));
    if i < |entries| && entries[i].key.user == user then Some(entries[i]) else None
  }

  lemma TableGetAnswers(entries: seq<Entry>, user: nat, snapshot: nat)
    requires Sorted(entries)
    ensures Answers(Elements(entries), user, snapshot, TableGet(entries, user, snapshot))
  {
    var i := SeekIndex(entries, LookupKey(user, snapshot));
    forall e | Candidate(e, Elements(entries), user, snapshot)
      ensures i < |entries| && entries[i].key.user == user && e.key.seqno <= entries[i].key.seqno
    {
      var j :| 0 <= j < |entries| && entries[j] == e;
      assert i <= j;
    }
  }

  // ---------------------------------------------------------------- one level

  ghost predicate AllValid(files: seq<File>) {
    forall i :: 0 <= i < |files| ==> files[i].Valid()
  }

  /** The files of a level below 0: in order, and disjoint as ranges of internal keys. */
  ghost predicate SortedDisjoint(files: seq<File>) {
    && AllValid(files)
    && forall i, j :: 0 <= i < j < |files| ==> Compare(files[i].largest, files[j].smallest) < 0
  }

  /** The least index of a file whose largest key is at or after `key`. */
  method FindFile(files: seq<File>, key: InternalKey) returns (right: nat)
    requires SortedDisjoint(files)
    ensures right <= |files|
    ensures right < |files| ==> Compare(files[right].largest, key) >= 0
    ensures forall i :: 0 <= i < right ==> Compare(files[i].largest, key) < 0
  {
    var left := 0;
    right := |files|;
    while left < right
      invariant 0 <= left <= right <= |files|
      invariant forall i :: 0 <= i < left ==> Compare(files[i].largest, key) < 0
      invariant right < |files| ==> Compare(files[right].largest, key) >= 0
    {
      var mid := (left + right) / 2;
      if Compare(files[mid].largest, key) < 0 {
        forall i | 0 <= i <= mid
          ensures Compare(files[i].largest, key) < 0
        {
          if i < mid { LargestOrdered(files, i, mid); }
        }
        left := mid + 1;
      } else {
        right := mid;
      }
    }
  }

  lemma LargestOrdered(files: seq<File>, i: nat, j: nat)
    requires SortedDisjoint(files) && i < j < |files|
    ensures Compare(files[i].largest, files[j].largest) < 0
  {
    FileRange(files[j], files[j].entries[0]);
  }

  lemma FileRange(f: File, e: Entry)
    requires f.Valid() && e in f.entries
    ensures Compare(f.smallest, e.key) <= 0 && Compare(e.key, f.largest) <= 0
  {
  }

  method LevelGet(files: seq<File>, user: nat, snapshot: nat) returns (r: Option<Entry>)
    requires SortedDisjoint(files)
    ensures Answers(EntriesOf(files), user, snapshot, r)
  {
    var index := FindFile(files, LookupKey(user, snapshot));
    if index >= |files| || user < files[index].smallest.user {
      r := None;
    } else {
      r := TableGet(files[index].entries, user, snapshot);
    }
    OneFileSuffices(files, index, user, snapshot, r);
  }

  /** The file FindFile picks holds the newest visible entry of the whole level. */
  lemma OneFileSuffices(files: seq<File>, index: nat, user: nat, snapshot: nat, r: Option<Entry>)
    requires SortedDisjoint(files) && index <= |files|
    requires index < |files| ==> Compare(files[index].largest, LookupKey(user, snapshot)) >= 0
    requires forall i :: 0 <= i < index ==> Compare(files[i].largest, LookupKey(user, snapshot)) < 0
    requires r == if index < |files| && user >= files[index].smallest.user
                  then TableGet(files[index].entries, user, snapshot) else None
    ensures Answers(EntriesOf(files), user, snapshot, r)
  {
    if index < |files| {
      TableGetAnswers(files[index].entries, user, snapshot);
      assert r.Some? ==> Candidate(r.value, Elements(files[index].entries), user, snapshot);
    }
    forall e | Candidate(e, EntriesOf(files), user, snapshot)
      ensures r.Some? && e.key.seqno <= r.value.key.seqno
    {
      var f :| f in files && e in f.entries;
      var i :| 0 <= i < |files| && files[i] == f;
      OneFileCovers(files, index, user, snapshot, i, e);
    }
  }

  lemma OneFileCovers(files: seq<File>, index: nat, user: nat, snapshot: nat, i: nat, e: Entry)
    requires SortedDisjoint(files) && index <= |files|
    requires index < |files| ==> Compare(files[index].largest, LookupKey(user, snapshot)) >= 0
    requires forall i :: 0 <= i < index ==> Compare(files[i].largest, LookupKey(user, snapshot)) < 0
    requires i < |files| && e in files[i].entries && e.key.user == user && e.key.seqno <= snapshot
    ensures index < |files| && files[index].smallest.user <= user
    ensures var r := TableGet(files[index].entries, user, snapshot); r.Some? && e.key.seqno <= r.value.key.seqno
  {
    FileRange(files[i], e);
    assert index <= i;
    if i == index {
      TableGetAnswers(files[i].entries, user, snapshot);
      assert Candidate(e, Elements(files[i].entries), user, snapshot);
    } else {
      LaterFile(files[index], user, snapshot, e);
    }
  }

  /** If a later file holds a candidate, the chosen file holds a newer one. */
  lemma LaterFile(f: File, user: nat, snapshot: nat, e: Entry)
    requires f.Valid() && Compare(f.largest, LookupKey(user, snapshot)) >= 0
    requires Compare(f.largest, e.key) < 0 && e.key.user == user && e.key.seqno <= snapshot
    ensures f.smallest.user <= user
    ensures TableGet(f.entries, user, snapshot).Some?
    ensures e.key.seqno <= TableGet(f.entries, user, snapshot).value.key.seqno
  {
    var last := f.entries[|f.entries| - 1];
    TableGetAnswers(f.entries, user, snapshot);
    assert Candidate(last, Elements(f.entries), user, snapshot);
    FileRange(f, f.entries[0]);
  }

  // ---------------------------------------------------------------- level 0

  /** Level 0: newer files have higher numbers. */
  ghost predicate NewerFilesHigher(files: seq<File>) {
    && AllValid(files)
    && (forall f <- files, g <- files :: f.number == g.number ==> f == g)
    && (forall f <- files, g <- files :: f.number > g.number ==> Above(Elements(f.entries), Elements(g.entries)))
  }

  ghost predicate NewestFirst(files: seq<File>) {
    forall i, j :: 0 <= i < j < |files| ==> files[i].number >= files[j].number
  }

  /** std::sort with the NewestFirst order. */
  function SortNewestFirst(files: seq<File>): (s: seq<File>)
    ensures NewestFirst(s)
    ensures forall f :: f in s <==> f in files
  {
    if files == [] then [] else InsertNewestFirst(files[0], SortNewestFirst(files[1..]))
  }

  function InsertNewestFirst(f: File, files: seq<File>): (s: seq<File>)
    requires NewestFirst(files)
    ensures NewestFirst(s)
    ensures forall g :: g in s <==> g == f || g in files
  {
    if files == [] || f.number >= files[0].number then [f] + files
    else
      var rest := InsertNewestFirst(f, files[1..]);
      assert forall g <- rest :: g.number <= files[0].number;
      [files[0]] + rest
  }

  /** The sort neither drops nor repeats a file. */
  lemma {:induction false} SortPermutes(files: seq<File>)
    ensures multiset(SortNewestFirst(files)) == multiset(files)
  {
    if files != [] {
      assert files == [files[0]] + files[1..];
      SortPermutes(files[1..]);
      InsertAdds(files[0], SortNewestFirst(files[1..]));
    }
  }

  lemma {:induction false} InsertAdds(f: File, files: seq<File>)
    requires NewestFirst(files)
    ensures multiset(InsertNewestFirst(f, files)) == multiset(files) + multiset{f}
  {
    if files != [] && f.number < files[0].number {
      assert files == [files[0]] + files[1..];
      InsertAdds(f, files[1..]);
    }
  }

  /** The level-0 files whose range of user keys contains `user`. */
  method FilesHolding(files: seq<File>, user: nat) returns (tmp: seq<File>)
    ensures forall f :: f in tmp <==> f in files && f.smallest.user <= user <= f.largest.user
  {
    tmp := [];
    for i := 0 to |files|
      invariant forall f :: f in tmp <==> f in files[..i] && f.smallest.user <= user <= f.largest.user
    {
      if user >= files[i].smallest.user && user <= files[i].largest.user {
        tmp := tmp + [files[i]];
      }
    }
  }

  method Level0Get(files: seq<File>, user: nat, snapshot: nat) returns (r: Option<Entry>)
    requires NewerFilesHigher(files)
    ensures Answers(EntriesOf(files), user, snapshot, r)
  {
    var tmp := FilesHolding(files, user);
    tmp := SortNewestFirst(tmp);
    for i := 0 to |tmp|
      invariant forall f <- tmp[..i] :: TableGet(f.entries, user, snapshot).None?
    {
      r := TableGet(tmp[i].entries, user, snapshot);
      if r.Some? {
        Level0Stop(files, tmp, i, user, snapshot, r);
        return;
      }
    }
    r := None;
    Level0Stop(files, tmp, |tmp|, user, snapshot, r);
  }

  lemma Level0Stop(files: seq<File>, tmp: seq<File>, i: nat, user: nat, snapshot: nat, r: Option<Entry>)
    requires NewerFilesHigher(files) && NewestFirst(tmp) && i <= |tmp|
    requires forall f <- tmp :: f in files
    requires forall f <- files :: f.smallest.user <= user <= f.largest.user ==> f in tmp
    requires forall f <- tmp[..i] :: TableGet(f.entries, user, snapshot).None?
    requires r == if i < |tmp| then TableGet(tmp[i].entries, user, snapshot) else None
    requires i < |tmp| ==> r.Some?
    ensures Answers(EntriesOf(files), user, snapshot, r)
  {
    if i < |tmp| {
      TableGetAnswers(tmp[i].entries, user, snapshot);
      assert Candidate(r.value, Elements(tmp[i].entries), user, snapshot) && tmp[i] in files;
    }
    forall e | Candidate(e, EntriesOf(files), user, snapshot)
      ensures r.Some? && e.key.seqno <= r.value.key.seqno
    {
      var f :| f in files && e in f.entries;
      FileRange(f, e);
      var j :| 0 <= j < |tmp| && tmp[j] == f;
      Level0Covers(files, tmp, i, user, snapshot, j, e);
    }
  }

  lemma Level0Covers(files: seq<File>, tmp: seq<File>, i: nat, user: nat, snapshot: nat, j: nat, e: Entry)
    requires NewerFilesHigher(files) && NewestFirst(tmp) && i <= |tmp|
    requires forall f <- tmp :: f in files
    requires forall f <- tmp[..i] :: TableGet(f.entries, user, snapshot).None?
    requires i < |tmp| ==> TableGet(tmp[i].entries, user, snapshot).Some?
    requires j < |tmp| && e in tmp[j].entries && e.key.user == user && e.key.seqno <= snapshot
    ensures i < |tmp| && e.key.seqno <= TableGet(tmp[i].entries, user, snapshot).value.key.seqno
  {
    assert tmp[j] in files;
    TableGetAnswers(tmp[j].entries, user, snapshot);
    assert Candidate(e, Elements(tmp[j].entries), user, snapshot);
    if i < j {
      TableGetAnswers(tmp[i].entries, user, snapshot);
      var r := TableGet(tmp[i].entries, user, snapshot).value;
      assert r in Elements(tmp[i].entries) && e in Elements(tmp[j].entries);
    }
  }

  // ---------------------------------------------------------------- the whole tree

  ghost function TreeEntries(levels: seq<seq<File>>): set<Entry> {
    set i, e | 0 <= i < |levels| && e in EntriesOf(levels[i]) :: e
  }

  /** Files are in order within their level, and newer than everything below it. */
  ghost predicate Layered(levels: seq<seq<File>>) {
    && |levels| == NUM_LEVELS
    && NewerFilesHigher(levels[0])
    && (forall i :: 0 < i < |levels| ==> SortedDisjoint(levels[i]))
    && (forall i, j :: 0 <= i < j < |levels| ==> Above(EntriesOf(levels[i]), EntriesOf(levels[j])))
  }

  /** Version::Get: searches level by level and stops at the first hit. */
  method Get(levels: seq<seq<File>>, user: nat, snapshot: nat) returns (r: Option<Entry>)
    requires Layered(levels)
    ensures Answers(TreeEntries(levels), user, snapshot, r)
  {
    for level := 0 to |levels|
      invariant Answers(TreeEntries(levels[..level]), user, snapshot, None)
    {
      if level == 0 {
        r := Level0Get(levels[0], user, snapshot);
      } else {
        r := LevelGet(levels[level], user, snapshot);
      }
      StopOrGoOn(levels, level, user, snapshot, r);
      if r.Some? {
        return;
      }
    }
    r := None;
    assert levels[..|levels|] == levels;
  }

  lemma TreeSplit(levels: seq<seq<File>>, k: nat)
    requires k <= |levels|
    ensures TreeEntries(levels) == TreeEntries(levels[..k]) + TreeEntries(levels[k..])
  {
    forall e | e in TreeEntries(levels)
      ensures e in TreeEntries(levels[..k]) + TreeEntries(levels[k..])
    {
      var i :| 0 <= i < |levels| && e in EntriesOf(levels[i]);
      if i < k { assert levels[..k][i] == levels[i]; } else { assert levels[k..][i - k] == levels[i]; }
    }
  }

  lemma PrefixAboveSuffix(levels: seq<seq<File>>, k: nat)
    requires Layered(levels) && k <= |levels|
    ensures Above(TreeEntries(levels[..k]), TreeEntries(levels[k..]))
  {
    forall d, e | d in TreeEntries(levels[..k]) && e in TreeEntries(levels[k..]) && d.key.user == e.key.user
      ensures d.key.seqno > e.key.seqno
    {
      var i :| 0 <= i < k && d in EntriesOf(levels[i]);
      var j :| 0 <= j < |levels| - k && e in EntriesOf(levels[k..][j]);
      assert levels[k..][j] == levels[k + j];
      assert Above(EntriesOf(levels[i]), EntriesOf(levels[k + j]));
    }
  }

  lemma StopOrGoOn(levels: seq<seq<File>>, level: nat, user: nat, snapshot: nat, r: Option<Entry>)
    requires Layered(levels) && level < |levels|
    requires Answers(TreeEntries(levels[..level]), user, snapshot, None)
    requires Answers(EntriesOf(levels[level]), user, snapshot, r)
    ensures Answers(TreeEntries(levels[..level + 1]), user, snapshot, r)
    ensures r.Some? ==> Answers(TreeEntries(levels), user, snapshot, r)
  {
    hide Layered, TreeEntries, EntriesOf, Answers, Above;
    TreeStep(levels, level);
    FirstHitWins(TreeEntries(levels[..level]), EntriesOf(levels[level]), user, snapshot, None, r);
    TreeSplit(levels, level + 1);
    PrefixAboveSuffix(levels, level + 1);
    var q := AnswerExists(TreeEntries(levels[level + 1..]), user, snapshot);
    FirstHitWins(TreeEntries(levels[..level + 1]), TreeEntries(levels[level + 1..]), user, snapshot, r, q);
  }

  lemma TreeStep(levels: seq<seq<File>>, level: nat)
    requires level < |levels|
    ensures TreeEntries(levels[..level + 1]) == TreeEntries(levels[..level]) + EntriesOf(levels[level])
  {
    var upper := levels[..level + 1];
    TreeSplit(upper, level);
    assert upper[..level] == levels[..level] && upper[level..] == [levels[level]];
    assert TreeEntries([levels[level]]) == EntriesOf(levels[level]);
  }
}

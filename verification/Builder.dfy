/**
 VersionSet::Builder (db/version_set.cc): applying edits to a version, one at a
 time as they are logged, or all of them through one builder as recovery does.
 */
module Builder {
  import opened Format
  import opened Version
  import opened Inputs
  import opened Lsm

  // ---------------------------------------------------------------- the order of files

  /** BySmallestKey: by smallest key, then by number. */
  predicate Less(f: File, g: File) {
    var r := Compare(f.smallest, g.smallest);
    if r != 0 then r < 0 else f.number < g.number
  }

  ghost predicate Ordered(files: seq<File>) {
    forall i, j :: 0 <= i < j < |files| ==> Less(files[i], files[j])
  }

  lemma OrderedIsBuilderOrder(files: seq<File>)
    ensures Ordered(files) <==> InBuilderOrder(files)
  {
    hide Less, Compare;
    forall i, j | 0 <= i < j < |files|
      ensures Less(files[i], files[j]) <==>
        Compare(files[i].smallest, files[j].smallest) < 0
        || (files[i].smallest == files[j].smallest && files[i].number < files[j].number)
    {
      LessMeans(files[i], files[j]);
    }
  }

  lemma LessMeans(f: File, g: File)
    ensures Less(f, g) <==>
      Compare(f.smallest, g.smallest) < 0 || (f.smallest == g.smallest && f.number < g.number)
  {
  }

  lemma LessTransitive(f: File, g: File, h: File)
    requires Less(f, g) && Less(g, h)
    ensures Less(f, h)
  {
  }

  lemma LessTotal(f: File, g: File)
    ensures !(Less(f, g) && Less(g, f))
    ensures !Less(f, g) && !Less(g, f) ==> f.number == g.number
  {
  }

  /** Inserting into the ordered set of added files: an equivalent one stays. */
  function Insert(files: seq<File>, f: File): seq<File> {
    if files == [] || Less(f, files[0]) then [f] + files
    else if Less(files[0], f) then [files[0]] + Insert(files[1..], f)
    else files
  }

  lemma {:induction false} InsertMembers(files: seq<File>, f: File, all: set<File>)
    requires Identified(all) && f in all && forall g <- files :: g in all
    ensures forall g :: g in Insert(files, f) <==> g in files || g == f
  {
    if files == [] || Less(f, files[0]) {
    } else if Less(files[0], f) {
      InsertMembers(files[1..], f, all);
      assert files == [files[0]] + files[1..];
    } else {
      assert files[0] in files;
      LessTotal(f, files[0]);
    }
  }

  lemma {:induction false} InsertWithin(files: seq<File>, f: File)
    ensures forall g :: g in Insert(files, f) ==> g in files || g == f
  {
    hide Less;
    if files != [] && !Less(f, files[0]) && Less(files[0], f) {
      InsertWithin(files[1..], f);
    }
  }

  lemma {:induction false} InsertOrdered(files: seq<File>, f: File)
    requires Ordered(files)
    ensures Ordered(Insert(files, f))
  {
    hide Less;
    if files == [] {
    } else if Less(f, files[0]) {
      OrderedCons(f, files);
    } else if Less(files[0], f) {
      var rest := files[1..];
      InsertOrdered(rest, f);
      InsertWithin(rest, f);
      forall i | 0 <= i < |Insert(rest, f)|
        ensures Less(files[0], Insert(rest, f)[i])
      {
        assert Insert(rest, f)[i] in Insert(rest, f);
      }
    }
  }

  lemma OrderedCons(f: File, files: seq<File>)
    requires Ordered(files) && files != [] && Less(f, files[0])
    ensures Ordered([f] + files)
  {
    hide Less;
    forall i | 0 < i < |files|
      ensures Less(f, files[i])
    {
      LessTransitive(f, files[0], files[i]);
    }
  }

  /** Two strictly ordered lists of the same files are the same list. */
  lemma {:induction false} SameFilesSameList(a: seq<File>, b: seq<File>)
    requires Ordered(a) && Ordered(b) && forall f :: f in a <==> f in b
    ensures a == b
  {
    hide Less;
    assert (|a| > 0 ==> a[0] in a) && (|b| > 0 ==> b[0] in b);
    if a != [] && b != [] {
      assert a[0] in b && b[0] in a;
      var j :| 0 <= j < |b| && b[j] == a[0];
      var i :| 0 <= i < |a| && a[i] == b[0];
      LessTotal(a[0], b[0]);
      forall f
        ensures f in a[1..] <==> f in b[1..]
      {
        TailMembers(a, f);
        TailMembers(b, f);
      }
      SameFilesSameList(a[1..], b[1..]);
      assert a == [a[0]] + a[1..] && b == [b[0]] + b[1..];
    }
  }

  lemma TailMembers(a: seq<File>, f: File)
    requires Ordered(a) && a != []
    ensures f in a[1..] <==> f in a && f != a[0]
  {
    hide Less;
    assert a == [a[0]] + a[1..];
    if a[0] in a[1..] {
      var i :| 0 <= i < |a[1..]| && a[1..][i] == a[0];
      LessTotal(a[0], a[i + 1]);
    }
  }

  // ---------------------------------------------------------------- one level

  /** What the builder keeps for a level. */
  datatype LevelState = LevelState(deleted: set<nat>, added: seq<File>)

  /** What an edit does to a level. */
  datatype LevelEdit = LevelEdit(deletions: set<nat>, additions: seq<File>)

  const NO_CHANGE := LevelState({}, [])

  ghost function Numbers(files: seq<File>): set<nat> {
    set f | f in files :: f.number
  }

  ghost function InsertAll(files: seq<File>, additions: seq<File>): seq<File> {
    if additions == [] then files
    else Insert(InsertAll(files, additions[..|additions| - 1]), additions[|additions| - 1])
  }

  ghost function ApplyLevel(st: LevelState, e: LevelEdit): LevelState {
    LevelState(st.deleted + e.deletions - Numbers(e.additions), InsertAll(st.added, e.additions))
  }

  /** Base files go before an equivalent added one. */
  function Merge(base: seq<File>, added: seq<File>): seq<File> {
    if added == [] then base
    else if base == [] || Less(added[0], base[0]) then [added[0]] + Merge(base, added[1..])
    else [base[0]] + Merge(base[1..], added)
  }

  function Keep(files: seq<File>, deleted: set<nat>): seq<File> {
    if files == [] then []
    else (if files[0].number in deleted then [] else [files[0]]) + Keep(files[1..], deleted)
  }

  ghost function SaveLevel(base: seq<File>, st: LevelState): seq<File> {
    Keep(Merge(base, st.added), st.deleted)
  }

  // ---------------------------------------------------------------- what a level then holds

  lemma {:induction false} InsertAllMembers(files: seq<File>, additions: seq<File>, all: set<File>)
    requires Identified(all) && (forall g <- files :: g in all) && (forall g <- additions :: g in all) && Ordered(files)
    ensures forall g :: g in InsertAll(files, additions) <==> g in files || g in additions
    ensures Ordered(InsertAll(files, additions))
  {
    hide Identified, Ordered, Insert;
    if additions != [] {
      var n := |additions| - 1;
      var init := additions[..n];
      assert additions == init + [additions[n]];
      InsertAllMembers(files, init, all);
      InsertMembers(InsertAll(files, init), additions[n], all);
      InsertOrdered(InsertAll(files, init), additions[n]);
    }
  }

  lemma {:induction false} MergeMembers(base: seq<File>, added: seq<File>)
    ensures forall f :: f in Merge(base, added) <==> f in base || f in added
  {
    hide Less;
    if added != [] {
      if base == [] || Less(added[0], base[0]) {
        MergeMembers(base, added[1..]);
        assert added == [added[0]] + added[1..];
      } else {
        MergeMembers(base[1..], added);
        assert base == [base[0]] + base[1..];
      }
    }
  }

  lemma {:induction false} KeepMembers(files: seq<File>, deleted: set<nat>)
    ensures forall f :: f in Keep(files, deleted) <==> f in files && f.number !in deleted
  {
    if files != [] {
      KeepMembers(files[1..], deleted);
      assert files == [files[0]] + files[1..];
    }
  }

  /** (Base plus added) minus deleted. */
  lemma SaveMembers(base: seq<File>, st: LevelState)
    ensures forall f :: f in SaveLevel(base, st) <==> (f in base || f in st.added) && f.number !in st.deleted
  {
    hide Merge, Keep;
    MergeMembers(base, st.added);
    KeepMembers(Merge(base, st.added), st.deleted);
  }

  // ---------------------------------------------------------------- counting

  ghost predicate WeaklyOrdered(files: seq<File>) {
    forall i, j :: 0 <= i < j < |files| ==> !Less(files[j], files[i])
  }

  lemma {:induction false} MergeCounts(base: seq<File>, added: seq<File>, f: File)
    ensures multiset(Merge(base, added))[f] == multiset(base)[f] + multiset(added)[f]
  {
    hide Less;
    if added != [] {
      if base == [] || Less(added[0], base[0]) {
        MergeCounts(base, added[1..], f);
        CountsSplit(added, f);
        CountsSplit(Merge(base, added), f);
      } else {
        MergeCounts(base[1..], added, f);
        CountsSplit(base, f);
        CountsSplit(Merge(base, added), f);
      }
    }
  }

  lemma CountsSplit(files: seq<File>, f: File)
    requires files != []
    ensures multiset(files)[f] == (if f == files[0] then 1 else 0) + multiset(files[1..])[f]
  {
    assert files == [files[0]] + files[1..];
  }

  lemma {:induction false} KeepCounts(files: seq<File>, deleted: set<nat>, f: File)
    ensures multiset(Keep(files, deleted))[f] == if f.number in deleted then 0 else multiset(files)[f]
  {
    if files != [] {
      KeepCounts(files[1..], deleted, f);
      assert files == [files[0]] + files[1..];
    }
  }

  lemma {:induction false} OrderedCount(files: seq<File>, f: File)
    requires Ordered(files)
    ensures multiset(files)[f] <= 1
  {
    hide Less;
    if files != [] {
      OrderedCount(files[1..], f);
      TailMembers(files, f);
      assert files == [files[0]] + files[1..];
    }
  }

  lemma TwiceCounts(files: seq<File>, i: nat, j: nat)
    requires i < j < |files| && files[i] == files[j]
    ensures multiset(files)[files[i]] >= 2
  {
    assert files == files[..j] + files[j..];
    assert files[..j][i] == files[i] && files[j..][0] == files[j];
  }

  lemma BaseBeforeAdded(base: seq<File>, added: seq<File>, f: File)
    requires Ordered(base) && Ordered(added) && added != []
    requires f in base || f in added
    ensures (base == [] || Less(added[0], base[0])) ==> !Less(f, added[0])
    ensures !(base == [] || Less(added[0], base[0])) ==> !Less(f, base[0])
  {
    hide Less;
    var i: nat, g: File;
    if f in base {
      i :| 0 <= i < |base| && base[i] == f;
      g := base[0];
    } else {
      i :| 0 <= i < |added| && added[i] == f;
      g := added[0];
    }
    assert i == 0 || Less(g, f);
    LessTotal(g, f);
    if f in base {
      if Less(added[0], base[0]) {
        if Less(f, added[0]) { LessTransitive(f, added[0], g); }
      }
    } else if base != [] {
      if Less(f, base[0]) && i > 0 { LessTransitive(g, f, base[0]); }
    }
  }

  lemma {:induction false} MergeWeak(base: seq<File>, added: seq<File>)
    requires Ordered(base) && Ordered(added)
    ensures WeaklyOrdered(Merge(base, added))
  {
    hide Less;
    if added == [] {
      forall i, j | 0 <= i < j < |base| ensures !Less(base[j], base[i]) { LessTotal(base[i], base[j]); }
    } else {
      var first := base == [] || Less(added[0], base[0]);
      var rest := if first then Merge(base, added[1..]) else Merge(base[1..], added);
      if first {
        MergeWeak(base, added[1..]);
        MergeMembers(base, added[1..]);
      } else {
        MergeWeak(base[1..], added);
        MergeMembers(base[1..], added);
      }
      forall i | 0 <= i < |rest|
        ensures !Less(rest[i], if first then added[0] else base[0])
      {
        assert rest[i] in rest;
        BaseBeforeAdded(base, added, rest[i]);
      }
    }
  }

  lemma {:induction false} KeepWeak(files: seq<File>, deleted: set<nat>)
    requires WeaklyOrdered(files)
    ensures WeaklyOrdered(Keep(files, deleted))
  {
    hide Less;
    if files != [] {
      KeepWeak(files[1..], deleted);
      KeepMembers(files[1..], deleted);
      var kept := Keep(files[1..], deleted);
      forall i | 0 <= i < |kept|
        ensures !Less(kept[i], files[0])
      {
        assert kept[i] in kept;
        assert kept[i] in files[1..];
      }
    }
  }

  /** A saved level is strictly ordered exactly when no kept file is both in the base and added. */
  lemma SaveOrdered(base: seq<File>, st: LevelState, all: set<File>)
    requires Ordered(base) && Ordered(st.added) && Identified(all)
    requires (forall f <- base :: f in all) && (forall f <- st.added :: f in all)
    ensures Ordered(SaveLevel(base, st)) <==> forall f <- base :: f in st.added ==> f.number in st.deleted
  {
    hide Less, Ordered, Merge, Keep;
    var saved := SaveLevel(base, st);
    MergeWeak(base, st.added);
    KeepWeak(Merge(base, st.added), st.deleted);
    if Ordered(saved) {
      forall f <- base | f in st.added
        ensures f.number in st.deleted
      {
        OrderedCount(saved, f);
        MergeCounts(base, st.added, f);
        KeepCounts(Merge(base, st.added), st.deleted, f);
      }
    } else if forall f <- base :: f in st.added ==> f.number in st.deleted {
      SaveMembers(base, st);
      forall i, j | 0 <= i < j < |saved|
        ensures Less(saved[i], saved[j])
      {
        StrictlyBefore(base, st, all, i, j);
      }
      StrictIsOrdered(saved);
    }
  }

  lemma StrictIsOrdered(files: seq<File>)
    requires forall i, j :: 0 <= i < j < |files| ==> Less(files[i], files[j])
    ensures Ordered(files)
  {
  }

  lemma StrictlyBefore(base: seq<File>, st: LevelState, all: set<File>, i: nat, j: nat)
    requires Ordered(base) && Ordered(st.added) && Identified(all)
    requires (forall f <- base :: f in all) && (forall f <- st.added :: f in all)
    requires forall f <- base :: f in st.added ==> f.number in st.deleted
    requires i < j < |SaveLevel(base, st)| && WeaklyOrdered(SaveLevel(base, st))
    ensures Less(SaveLevel(base, st)[i], SaveLevel(base, st)[j])
  {
    hide Less, Ordered, Merge, Keep;
    var saved := SaveLevel(base, st);
    var f, g := saved[i], saved[j];
    SaveMembers(base, st);
    assert f in saved && g in saved;
    LessTotal(f, g);
    if f == g {
      TwiceCounts(saved, i, j);
      KeepCounts(Merge(base, st.added), st.deleted, f);
      MergeCounts(base, st.added, f);
      OrderedCount(base, f);
      OrderedCount(st.added, f);
    }
  }

  // ---------------------------------------------------------------- replay

  /** All edits through one builder. */
  ghost function Replay(edits: seq<LevelEdit>): LevelState {
    if edits == [] then NO_CHANGE else ApplyLevel(Replay(edits[..|edits| - 1]), edits[|edits| - 1])
  }

  /** A new version after every edit. */
  ghost function OneByOne(base: seq<File>, edits: seq<LevelEdit>): seq<File> {
    if edits == [] then base
    else
      var n := |edits| - 1;
      SaveLevel(OneByOne(base, edits[..n]), ApplyLevel(NO_CHANGE, edits[n]))
  }

  ghost predicate AddsOnlyMissing(v: seq<File>, e: LevelEdit, all: set<File>) {
    forall f <- e.additions :: f in all && f !in v
  }

  /** Numbers name files, the base is in order, and an edit adds to a level only
      files that it does not hold. */
  ghost predicate Sensible(base: seq<File>, edits: seq<LevelEdit>, all: set<File>) {
    && Ordered(base) && Identified(all) && (forall f <- base :: f in all)
    && (forall k :: 0 <= k < |edits| ==> AddsOnlyMissing(OneByOne(base, edits[..k]), edits[k], all))
  }

  lemma SensiblePrefix(base: seq<File>, edits: seq<LevelEdit>, all: set<File>)
    requires edits != [] && Sensible(base, edits, all)
    ensures Sensible(base, edits[..|edits| - 1], all)
  {
    hide OneByOne, Ordered, Identified;
    var init := edits[..|edits| - 1];
    forall k | 0 <= k < |init|
      ensures AddsOnlyMissing(OneByOne(base, init[..k]), init[k], all)
    {
      assert init[..k] == edits[..k] && init[k] == edits[k];
    }
  }

  lemma {:induction false} ReplayState(base: seq<File>, edits: seq<LevelEdit>, all: set<File>)
    requires Sensible(base, edits, all)
    ensures Ordered(Replay(edits).added)
    ensures forall f :: f in Replay(edits).added <==> exists k :: 0 <= k < |edits| && f in edits[k].additions
    ensures forall f <- Replay(edits).added :: f in all
  {
    if edits != [] {
      var n := |edits| - 1;
      SensiblePrefix(base, edits, all);
      ReplayState(base, edits[..n], all);
      hide Ordered, Identified, OneByOne, InsertAll;
      assert AddsOnlyMissing(OneByOne(base, edits[..n]), edits[n], all);
      InsertAllMembers(Replay(edits[..n]).added, edits[n].additions, all);
      forall f
        ensures f in Replay(edits).added <==> exists k :: 0 <= k < |edits| && f in edits[k].additions
      {
        if k :| 0 <= k < |edits| && f in edits[k].additions {
          assert k == n || f in edits[..n][k].additions;
        }
      }
    }
  }

  /** What one step does to the meaning of the builder's sets. */
  lemma StepMembers(v: seq<File>, base: seq<File>, st: LevelState, e: LevelEdit, all: set<File>, f: File)
    requires Identified(all) && (forall g <- base :: g in all) && (forall g <- st.added :: g in all)
    requires (forall g <- v :: g in all) && (forall g <- e.additions :: g in all) && Ordered(st.added)
    requires f in v <==> (f in base || f in st.added) && f.number !in st.deleted
    ensures f in SaveLevel(v, ApplyLevel(NO_CHANGE, e)) <==> f in SaveLevel(base, ApplyLevel(st, e))
  {
    hide InsertAll, Ordered, SaveLevel;
    SaveMembers(v, ApplyLevel(NO_CHANGE, e));
    SaveMembers(base, ApplyLevel(st, e));
    InsertAllMembers(st.added, e.additions, all);
    OrderedNone();
    InsertAllMembers([], e.additions, all);
    if f.number in Numbers(e.additions) && f in all {
      assert f in e.additions;
    }
  }

  lemma OrderedNone()
    ensures Ordered([])
  {
  }

  /** Replay and one-by-one installation hold the same files, in any sensible history. */
  lemma {:induction false} ReplayHoldsTheSame(base: seq<File>, edits: seq<LevelEdit>, all: set<File>)
    requires Sensible(base, edits, all)
    ensures forall f :: f in OneByOne(base, edits) <==> f in SaveLevel(base, Replay(edits))
    ensures Ordered(OneByOne(base, edits))
    ensures forall f <- OneByOne(base, edits) :: f in all
  {
    if edits == [] {
      SaveMembers(base, NO_CHANGE);
    } else {
      var n := |edits| - 1;
      var (v, st, e) := (OneByOne(base, edits[..n]), Replay(edits[..n]), edits[n]);
      SensiblePrefix(base, edits, all);
      ReplayHoldsTheSame(base, edits[..n], all);
      ReplayState(base, edits[..n], all);
      hide Identified, SaveLevel, Ordered, InsertAll;
      SaveMembers(base, st);
      forall f
        ensures f in OneByOne(base, edits) <==> f in SaveLevel(base, Replay(edits))
      {
        StepMembers(v, base, st, e, all, f);
      }
      var st' := ApplyLevel(NO_CHANGE, e);
      OrderedNone();
      InsertAllMembers([], e.additions, all);
      SaveOrdered(v, st', all);
      SaveMembers(v, st');
    }
  }

  /** No edit from `k` on deletes the file. */
  ghost predicate Kept(f: File, edits: seq<LevelEdit>, k: nat) {
    forall m :: k <= m < |edits| ==> f.number !in edits[m].deletions
  }

  /** The file is in the base, or added, and not deleted since. */
  ghost predicate Current(f: File, base: seq<File>, edits: seq<LevelEdit>) {
    (f in base && Kept(f, edits, 0)) || exists k :: 0 <= k < |edits| && f in edits[k].additions && Kept(f, edits, k + 1)
  }

  /** What the history of edits says a level holds. */
  lemma {:induction false} HeldIffCurrent(base: seq<File>, edits: seq<LevelEdit>, all: set<File>, f: File)
    requires Sensible(base, edits, all) && f in all
    ensures f in OneByOne(base, edits) <==> Current(f, base, edits)
  {
    if edits != [] {
      var n := |edits| - 1;
      SensiblePrefix(base, edits, all);
      HeldIffCurrent(base, edits[..n], all, f);
      hide Identified, SaveLevel, Ordered, InsertAll;
      OneMoreEdit(OneByOne(base, edits[..n]), edits[n], all, f) by {
        assert AddsOnlyMissing(OneByOne(base, edits[..n]), edits[n], all);
      }
      CurrentStep(f, base, edits);
    }
  }

  lemma OneMoreEdit(v: seq<File>, e: LevelEdit, all: set<File>, f: File)
    requires Identified(all) && f in all && forall g <- e.additions :: g in all
    ensures f in SaveLevel(v, ApplyLevel(NO_CHANGE, e)) <==> f in e.additions || (f in v && f.number !in e.deletions)
  {
    hide InsertAll, Ordered, SaveLevel;
    SaveMembers(v, ApplyLevel(NO_CHANGE, e));
    OrderedNone();
    InsertAllMembers([], e.additions, all);
  }

  lemma CurrentStep(f: File, base: seq<File>, edits: seq<LevelEdit>)
    requires edits != []
    ensures var n := |edits| - 1;
      Current(f, base, edits) <==>
        f in edits[n].additions || (Current(f, base, edits[..n]) && f.number !in edits[n].deletions)
  {
    var n := |edits| - 1;
    var init := edits[..n];
    forall k | 0 <= k <= n ensures Kept(f, edits, k) <==> Kept(f, init, k) && f.number !in edits[n].deletions {
      if Kept(f, edits, k) {
        forall m | k <= m < n ensures f.number !in init[m].deletions { assert init[m] == edits[m]; }
      }
      if Kept(f, init, k) {
        forall m | k <= m < n ensures f.number !in edits[m].deletions { assert init[m] == edits[m]; }
      }
    }
    hide Kept;
    if k :| 0 <= k < n && f in init[k].additions && Kept(f, init, k + 1) {
      assert f in edits[k].additions;
    }
    if k :| 0 <= k <= n && f in edits[k].additions && Kept(f, edits, k + 1) {
      assert k == n || f in init[k].additions;
    }
    if f in edits[n].additions {
      assert Kept(f, edits, n + 1) by { KeptAtEnd(f, edits); }
    }
  }

  lemma KeptAtEnd(f: File, edits: seq<LevelEdit>)
    ensures Kept(f, edits, |edits|)
  {
  }

  lemma KeptLater(f: File, edits: seq<LevelEdit>, k: nat)
    ensures Kept(f, edits, 0) ==> Kept(f, edits, k)
  {
  }

  /** Replay gives the list that one-by-one installation gives, exactly when no base
      file is added by an edit and not deleted by a later one. */
  lemma RecoveryIff(base: seq<File>, edits: seq<LevelEdit>, all: set<File>)
    requires Sensible(base, edits, all)
    ensures SaveLevel(base, Replay(edits)) == OneByOne(base, edits) <==>
      !exists f, k :: f in base && 0 <= k < |edits| && f in edits[k].additions && Kept(f, edits, k + 1)
  {
    ReplayHoldsTheSame(base, edits, all);
    ReplayState(base, edits, all);
    hide Replay, OneByOne, SaveLevel, Ordered, Identified, Kept;
    var st := Replay(edits);
    SaveOrdered(base, st, all);
    SaveMembers(base, st);
    forall f <- base
      ensures f.number !in st.deleted && f in st.added <==>
        exists k :: 0 <= k < |edits| && f in edits[k].additions && Kept(f, edits, k + 1)
    {
      HeldIffCurrent(base, edits, all, f);
      if k :| 0 <= k < |edits| && f in edits[k].additions { KeptLater(f, edits, k + 1); }
    }
    if Ordered(SaveLevel(base, st)) {
      SameFilesSameList(SaveLevel(base, st), OneByOne(base, edits));
    }
  }

  /** On a base that holds a file which an edit adds again, replay saves it twice. */
  lemma ReturningFileIsSavedTwice(f: File)
    ensures var edits := [LevelEdit({f.number}, []), LevelEdit({}, [f])];
      && Sensible([f], edits, {f})
      && OneByOne([f], edits) == [f]
      && SaveLevel([f], Replay(edits)) == [f, f]
  {
    hide Keep, Less;
    var (gone, back) := (LevelEdit({f.number}, []), LevelEdit({}, [f]));
    var edits := [gone, back];
    assert edits[..1] == [gone] && edits[..0] == [] && [gone][..0] == [];
    MergeOfOne(f);
    KeepOfOne(f);
    NothingMerged([f]);
    NothingMerged([f, f]);
    assert ApplyLevel(NO_CHANGE, gone) == LevelState({f.number}, []) by { assert Numbers([]) == {}; }
    assert ApplyLevel(NO_CHANGE, back) == LevelState({}, [f]) by { OneAdded(f); }
    assert Replay([gone]) == LevelState({f.number}, []);
    assert Replay(edits) == ApplyLevel(Replay([gone]), back) == LevelState({}, [f]) by { OneAdded(f); }
    assert OneByOne([f], [gone]) == SaveLevel(OneByOne([f], []), ApplyLevel(NO_CHANGE, gone)) == [];
    assert OneByOne([f], edits) == SaveLevel(OneByOne([f], [gone]), ApplyLevel(NO_CHANGE, back)) == [f];
  }

  lemma MergeOfOne(f: File)
    ensures Merge([f], [f]) == [f, f] && Merge([], [f]) == [f]
  {
    LessTotal(f, f);
    assert [f][1..] == [];
    assert Merge([], [f]) == [f] + Merge([], []);
    assert Merge([f], [f]) == [f] + Merge([], [f]);
  }

  lemma KeepOfOne(f: File)
    ensures Keep([f], {f.number}) == []
  {
  }

  lemma OneAdded(f: File)
    ensures InsertAll([], [f]) == [f] && Numbers([f]) == {f.number}
  {
    assert [f][..0] == [];
  }

  /** One edit installs its files: what a compaction or a flush writes to a level. */
  lemma EditInstalls(base: seq<File>, removed: seq<File>, added: seq<File>, all: set<File>)
    requires Ordered(base) && Identified(all) && (forall f <- base :: f in all)
    requires (forall f <- removed :: f in all && f !in added) && (forall f <- added :: f in all && f !in base)
    ensures Installed(base, removed, added, OneByOne(base, [LevelEdit(Numbers(removed), added)]))
  {
    hide Ordered, InsertAll, SaveLevel, InBuilderOrder;
    var st := ApplyLevel(NO_CHANGE, LevelEdit(Numbers(removed), added));
    var e := [LevelEdit(Numbers(removed), added)];
    assert e[..0] == [];
    var v := SaveLevel(base, st);
    assert OneByOne(base, e) == v;
    OrderedNone();
    InsertAllMembers([], added, all);
    SaveMembers(base, st);
    SaveOrdered(base, st, all);
    OrderedIsBuilderOrder(v);
    forall f
      ensures f in v <==> (f in base && f !in removed) || f in added
    {
      if f.number in Numbers(removed) && f in base { assert f in removed; }
      if f.number in Numbers(added) && f in base { assert f in added; }
    }
  }

  // ---------------------------------------------------------------- the builder

  datatype Edit = Edit(compactPointers: seq<(nat, InternalKey)>, deletedFiles: set<(nat, nat)>,
                       newFiles: seq<(nat, File)>) {
    ghost predicate InRange() {
      && (forall p <- compactPointers :: p.0 < NUM_LEVELS)
      && (forall d <- deletedFiles :: d.0 < NUM_LEVELS)
      && (forall f <- newFiles :: f.0 < NUM_LEVELS)
    }

    ghost function AtLevel(level: nat): LevelEdit {
      LevelEdit(DeletedAt(deletedFiles, level), FilesAt(newFiles, level))
    }
  }

  ghost function DeletedAt(deletedFiles: set<(nat, nat)>, level: nat): set<nat> {
    set d | d in deletedFiles && d.0 == level :: d.1
  }

  ghost function FilesAt(newFiles: seq<(nat, File)>, level: nat): seq<File> {
    if newFiles == [] then []
    else
      var n := |newFiles| - 1;
      FilesAt(newFiles[..n], level) + if newFiles[n].0 == level then [newFiles[n].1] else []
  }

  /** The last compaction pointer of the edit for the level. */
  ghost function PointerAt(pointers: seq<(nat, InternalKey)>, level: nat,
                           before: Option<InternalKey>): Option<InternalKey> {
    if pointers == [] then before
    else if pointers[|pointers| - 1].0 == level then Some(pointers[|pointers| - 1].1)
    else PointerAt(pointers[..|pointers| - 1], level, before)
  }

  class VersionBuilder {
    const base: seq<seq<File>>
    var levels: seq<LevelState>
    var compactPointer: seq<Option<InternalKey>>

    ghost predicate Valid()
      reads this
    {
      && |base| == NUM_LEVELS && |levels| == NUM_LEVELS && |compactPointer| == NUM_LEVELS
      && (forall l :: 0 <= l < NUM_LEVELS ==> Ordered(base[l]) && Ordered(levels[l].added))
    }

    constructor (base: seq<seq<File>>, compactPointer: seq<Option<InternalKey>>)
      requires |base| == NUM_LEVELS && |compactPointer| == NUM_LEVELS
      requires forall l :: 0 <= l < NUM_LEVELS ==> Ordered(base[l])
      ensures Valid() && this.base == base && this.compactPointer == compactPointer
      ensures forall l :: 0 <= l < NUM_LEVELS ==> levels[l] == NO_CHANGE
    {
      this.base, this.compactPointer := base, compactPointer;
      levels := seq(NUM_LEVELS, i => NO_CHANGE);
    }

    /** Builder::Apply: deletions first, then additions, which erase a deletion. */
    method Apply(edit: Edit)
      requires Valid() && edit.InRange()
      modifies this
      ensures Valid()
      ensures forall l :: 0 <= l < NUM_LEVELS ==> levels[l] == ApplyLevel(old(levels[l]), edit.AtLevel(l))
      ensures forall l :: 0 <= l < NUM_LEVELS ==>
        compactPointer[l] == PointerAt(edit.compactPointers, l, old(compactPointer[l]))
    {
      hide Ordered;
      SetPointers(edit);
      DeleteFiles(edit);
      AddFiles(edit);
    }

    method SetPointers(edit: Edit)
      requires Valid() && edit.InRange()
      modifies `compactPointer
      ensures Valid()
      ensures forall l :: 0 <= l < NUM_LEVELS ==>
        compactPointer[l] == PointerAt(edit.compactPointers, l, old(compactPointer[l]))
    {
      hide Ordered;
      var pointers := edit.compactPointers;
      for i := 0 to |pointers|
        invariant Valid()
        invariant forall l :: 0 <= l < NUM_LEVELS ==>
          compactPointer[l] == PointerAt(pointers[..i], l, old(compactPointer[l]))
      {
        var (level, key) := pointers[i];
        assert pointers[i] in pointers && pointers[..i + 1][..i] == pointers[..i];
        compactPointer := compactPointer[level := Some(key)];
      }
      assert pointers[..|pointers|] == pointers;
    }

    method DeleteFiles(edit: Edit)
      requires Valid() && edit.InRange()
      modifies `levels
      ensures Valid()
      ensures forall l :: 0 <= l < NUM_LEVELS ==>
        levels[l] == LevelState(old(levels[l]).deleted + DeletedAt(edit.deletedFiles, l), old(levels[l]).added)
    {
      hide Ordered, DeletedSoFar, DeletedAt;
      var del := edit.deletedFiles;
      ghost var done: set<(nat, nat)> := {};
      DeletedNone(levels);
      while del != {}
        invariant Valid() && done + del == edit.deletedFiles && DeletedSoFar(old(levels), levels, done)
        decreases |del|
      {
        var d :| d in del;
        assert d in edit.deletedFiles;
        DeletedOneMore(old(levels), levels, done, d);
        del, done := del - {d}, done + {d};
        levels := levels[d.0 := LevelState(levels[d.0].deleted + {d.1}, levels[d.0].added)];
      }
      assert done == edit.deletedFiles;
      DeletedAll(old(levels), levels, done);
    }

    method AddFiles(edit: Edit)
      requires Valid() && edit.InRange()
      modifies `levels
      ensures Valid()
      ensures forall l :: 0 <= l < NUM_LEVELS ==>
        levels[l] == ApplyLevel(old(levels[l]), LevelEdit({}, FilesAt(edit.newFiles, l)))
    {
      hide Ordered, Insert, ApplyLevel, FilesAt;
      var files := edit.newFiles;
      forall st: LevelState, l: nat ensures ApplyLevel(st, LevelEdit({}, FilesAt(files[..0], l))) == st {
        NothingAdded(st, files, l);
      }
      for i := 0 to |files|
        invariant Valid()
        invariant forall l :: 0 <= l < NUM_LEVELS ==>
          levels[l] == ApplyLevel(old(levels[l]), LevelEdit({}, FilesAt(files[..i], l)))
      {
        var (level, f) := files[i];
        assert files[i] in files;
        InsertOrdered(levels[level].added, f);
        AddOneFile(files, i, old(levels[level]));
        levels := levels[level := LevelState(levels[level].deleted - {f.number}, Insert(levels[level].added, f))];
      }
      assert files[..|files|] == files;
    }

    /** Builder::SaveTo. */
    method SaveTo() returns (v: seq<seq<File>>)
      requires Valid()
      ensures |v| == NUM_LEVELS && forall l :: 0 <= l < NUM_LEVELS ==> v[l] == SaveLevel(base[l], levels[l])
    {
      hide Ordered, SaveLevel;
      v := [];
      for level := 0 to NUM_LEVELS
        invariant |v| == level && forall l :: 0 <= l < level ==> v[l] == SaveLevel(base[l], levels[l])
      {
        var files := SaveOneLevel(base[level], levels[level]);
        v := v + [files];
      }
    }
  }

  /** std::upper_bound over the rest of the base: the first file after `f`. */
  method UpperBound(files: seq<File>, start: nat, f: File) returns (pos: nat)
    requires Ordered(files) && start <= |files|
    ensures start <= pos <= |files|
    ensures forall i :: start <= i < pos ==> !Less(f, files[i])
    ensures pos < |files| ==> Less(f, files[pos])
  {
    hide Less;
    pos := start;
    var hi := |files|;
    while pos < hi
      invariant start <= pos <= hi <= |files|
      invariant forall i :: start <= i < pos ==> !Less(f, files[i])
      invariant hi < |files| ==> Less(f, files[hi])
    {
      var mid := (pos + hi) / 2;
      if Less(f, files[mid]) {
        hi := mid;
      } else {
        forall i | start <= i < mid
          ensures !Less(f, files[i])
        {
          if Less(f, files[i]) { LessTransitive(f, files[i], files[mid]); }
        }
        pos := mid + 1;
      }
    }
  }

  /** Builder::MaybeAddFile. */
  function MaybeAddFile(files: seq<File>, f: File, deleted: set<nat>): seq<File> {
    if f.number in deleted then files else files + [f]
  }

  ghost function Remaining(base: seq<File>, b: nat, added: seq<File>, i: nat, deleted: set<nat>): seq<File>
    requires b <= |base| && i <= |added|
  {
    Keep(Merge(base[b..], added[i..]), deleted)
  }

  /** The merge of added and base files of one level. */
  method SaveOneLevel(baseFiles: seq<File>, st: LevelState) returns (files: seq<File>)
    requires Ordered(baseFiles)
    ensures files == SaveLevel(baseFiles, st)
  {
    hide Ordered, Less, Merge, Keep, MaybeAddFile, Remaining;
    files := [];
    var (added, deleted) := (st.added, st.deleted);
    var baseIter := 0;
    assert Remaining(baseFiles, 0, added, 0, deleted) == SaveLevel(baseFiles, st) by {
      AllRemains(baseFiles, added, deleted);
    }
    for i := 0 to |added|
      invariant baseIter <= |baseFiles|
      invariant files + Remaining(baseFiles, baseIter, added, i, deleted) == SaveLevel(baseFiles, st)
    {
      var bpos := UpperBound(baseFiles, baseIter, added[i]);
      while baseIter != bpos
        invariant baseIter <= bpos
        invariant files + Remaining(baseFiles, baseIter, added, i, deleted) == SaveLevel(baseFiles, st)
        decreases bpos - baseIter
      {
        TakesBase(files, baseFiles, baseIter, added, i, deleted);
        files := MaybeAddFile(files, baseFiles[baseIter], deleted);
        baseIter := baseIter + 1;
      }
      TakesAdded(files, baseFiles, baseIter, added, i, deleted);
      files := MaybeAddFile(files, added[i], deleted);
    }
    while baseIter != |baseFiles|
      invariant baseIter <= |baseFiles|
      invariant files + Remaining(baseFiles, baseIter, added, |added|, deleted) == SaveLevel(baseFiles, st)
      decreases |baseFiles| - baseIter
    {
      TakesBase(files, baseFiles, baseIter, added, |added|, deleted);
      files := MaybeAddFile(files, baseFiles[baseIter], deleted);
      baseIter := baseIter + 1;
    }
    NothingRemains(baseFiles, added, deleted);
  }

  lemma AllRemains(base: seq<File>, added: seq<File>, deleted: set<nat>)
    ensures Remaining(base, 0, added, 0, deleted) == Keep(Merge(base, added), deleted)
  {
    assert base[0..] == base && added[0..] == added;
  }

  lemma NothingRemains(base: seq<File>, added: seq<File>, deleted: set<nat>)
    ensures Remaining(base, |base|, added, |added|, deleted) == []
  {
  }

  lemma TakesBase(files: seq<File>, base: seq<File>, b: nat, added: seq<File>, i: nat, deleted: set<nat>)
    requires b < |base| && i <= |added| && (i < |added| ==> !Less(added[i], base[b]))
    ensures files + Remaining(base, b, added, i, deleted)
      == MaybeAddFile(files, base[b], deleted) + Remaining(base, b + 1, added, i, deleted)
  {
    assert base[b..][1..] == base[b + 1..] && base[b..] == [base[b]] + base[b + 1..];
    assert Merge(base[b..], added[i..]) == [base[b]] + Merge(base[b + 1..], added[i..]);
  }

  lemma TakesAdded(files: seq<File>, base: seq<File>, b: nat, added: seq<File>, i: nat, deleted: set<nat>)
    requires b <= |base| && i < |added| && (b < |base| ==> Less(added[i], base[b]))
    ensures files + Remaining(base, b, added, i, deleted)
      == MaybeAddFile(files, added[i], deleted) + Remaining(base, b, added, i + 1, deleted)
  {
    assert added[i..][1..] == added[i + 1..];
    assert Merge(base[b..], added[i..]) == [added[i]] + Merge(base[b..], added[i + 1..]);
  }

  // ---------------------------------------------------------------- logging and recovery

  ghost function AllAtLevel(edits: seq<Edit>, level: nat): (r: seq<LevelEdit>)
    ensures |r| == |edits|
  {
    seq(|edits|, i requires 0 <= i < |edits| => edits[i].AtLevel(level))
  }

  /** The version part of VersionSet::LogAndApply. */
  method LogAndApply(current: seq<seq<File>>, edit: Edit) returns (v: seq<seq<File>>)
    requires |current| == NUM_LEVELS && (forall l :: 0 <= l < NUM_LEVELS ==> Ordered(current[l])) && edit.InRange()
    ensures |v| == NUM_LEVELS && forall l :: 0 <= l < NUM_LEVELS ==> v[l] == OneByOne(current[l], [edit.AtLevel(l)])
  {
    hide Ordered, SaveLevel, ApplyLevel;
    var builder := new VersionBuilder(current, seq(NUM_LEVELS, i => None));
    builder.Apply(edit);
    v := builder.SaveTo();
    forall l | 0 <= l < NUM_LEVELS
      ensures v[l] == OneByOne(current[l], [edit.AtLevel(l)])
    {
      assert [edit.AtLevel(l)][..0] == [];
    }
  }

  /** The replay in VersionSet::Recover, onto the version without files. */
  method Recover(edits: seq<Edit>) returns (v: seq<seq<File>>)
    requires forall e <- edits :: e.InRange()
    ensures |v| == NUM_LEVELS && forall l :: 0 <= l < NUM_LEVELS ==> v[l] == SaveLevel([], Replay(AllAtLevel(edits, l)))
  {
    OrderedNone();
    hide Ordered, SaveLevel, ApplyLevel;
    var builder := new VersionBuilder(seq(NUM_LEVELS, i => []), seq(NUM_LEVELS, i => None));
    for i := 0 to |edits|
      invariant fresh(builder) && builder.Valid() && forall l :: 0 <= l < NUM_LEVELS ==> builder.base[l] == []
      invariant forall l :: 0 <= l < NUM_LEVELS ==> builder.levels[l] == Replay(AllAtLevel(edits[..i], l))
    {
      assert edits[i] in edits;
      builder.Apply(edits[i]);
      forall l | 0 <= l < NUM_LEVELS
        ensures builder.levels[l] == Replay(AllAtLevel(edits[..i + 1], l))
      {
        assert AllAtLevel(edits[..i + 1], l)[..i] == AllAtLevel(edits[..i], l);
      }
    }
    assert edits[..|edits|] == edits;
    v := builder.SaveTo();
  }

  /** The versions that LogAndApply installs, edit by edit; the last one. */
  method InstallAll(base: seq<seq<File>>, edits: seq<Edit>, ghost all: set<File>) returns (v: seq<seq<File>>)
    requires |base| == NUM_LEVELS && forall e <- edits :: e.InRange()
    requires forall l :: 0 <= l < NUM_LEVELS ==> Sensible(base[l], AllAtLevel(edits, l), all)
    ensures |v| == NUM_LEVELS && forall l :: 0 <= l < NUM_LEVELS ==> v[l] == OneByOne(base[l], AllAtLevel(edits, l))
  {
    hide Ordered, SaveLevel, ApplyLevel, Identified, AddsOnlyMissing;
    v := base;
    for i := 0 to |edits|
      invariant |v| == NUM_LEVELS
      invariant forall l :: 0 <= l < NUM_LEVELS ==> v[l] == OneByOne(base[l], AllAtLevel(edits, l)[..i])
    {
      assert edits[i] in edits;
      forall l | 0 <= l < NUM_LEVELS ensures Ordered(v[l]) { VersionOrdered(base[l], AllAtLevel(edits, l), all, i); }
      v := LogAndApply(v, edits[i]);
      forall l | 0 <= l < NUM_LEVELS
        ensures v[l] == OneByOne(base[l], AllAtLevel(edits, l)[..i + 1])
      {
        var e := AllAtLevel(edits, l);
        assert e[..i + 1] == e[..i] + [e[i]];
        OneByOneAppend(base[l], e[..i], [e[i]]);
      }
    }
    forall l | 0 <= l < NUM_LEVELS ensures v[l] == OneByOne(base[l], AllAtLevel(edits, l)) {
      assert AllAtLevel(edits, l)[..|edits|] == AllAtLevel(edits, l);
    }
  }

  lemma VersionOrdered(base: seq<File>, edits: seq<LevelEdit>, all: set<File>, i: nat)
    requires Sensible(base, edits, all) && i <= |edits|
    ensures Ordered(OneByOne(base, edits[..i]))
    decreases |edits|
  {
    hide Ordered, OneByOne;
    if i == |edits| {
      assert edits[..i] == edits;
      ReplayHoldsTheSame(base, edits, all);
    } else {
      var init := edits[..|edits| - 1];
      SensiblePrefix(base, edits, all);
      VersionOrdered(base, init, all, i);
      assert init[..i] == edits[..i];
    }
  }

  lemma {:induction false} OneByOneAppend(base: seq<File>, a: seq<LevelEdit>, b: seq<LevelEdit>)
    ensures OneByOne(base, a + b) == OneByOne(OneByOne(base, a), b)
  {
    hide SaveLevel, ApplyLevel;
    if b == [] {
      assert a + b == a;
    } else {
      var n := |b| - 1;
      OneByOneAppend(base, a, b[..n]);
      assert (a + b)[..|a| + n] == a + b[..n];
    }
  }

  // ---------------------------------------------------------------- the manifest

  /** VersionSet::WriteSnapshot: the files of a version as one edit. */
  method WriteSnapshot(current: seq<seq<File>>, compactPointer: seq<Option<InternalKey>>) returns (edit: Edit)
    requires |current| == NUM_LEVELS == |compactPointer|
    ensures edit.InRange()
    ensures forall l :: 0 <= l < NUM_LEVELS ==> edit.AtLevel(l) == LevelEdit({}, current[l])
    ensures forall l :: 0 <= l < NUM_LEVELS ==> PointerAt(edit.compactPointers, l, None) == compactPointer[l]
  {
    var pointers: seq<(nat, InternalKey)> := [];
    for level := 0 to NUM_LEVELS
      invariant forall p <- pointers :: p.0 < level
      invariant forall l :: 0 <= l < NUM_LEVELS ==>
        PointerAt(pointers, l, None) == if l < level then compactPointer[l] else None
    {
      if compactPointer[level].Some? {
        assert (pointers + [(level, compactPointer[level].value)])[..|pointers|] == pointers;
        pointers := pointers + [(level, compactPointer[level].value)];
      }
    }
    var newFiles: seq<(nat, File)> := [];
    for level := 0 to NUM_LEVELS
      invariant forall f <- newFiles :: f.0 < level
      invariant forall l :: 0 <= l < NUM_LEVELS ==> FilesAt(newFiles, l) == if l < level then current[l] else []
    {
      hide FilesAt;
      var (before, files) := (newFiles, current[level]);
      assert files[..0] == [];
      for i := 0 to |files|
        invariant forall f <- newFiles :: f.0 <= level
        invariant forall l :: 0 <= l < NUM_LEVELS ==>
          FilesAt(newFiles, l) == if l == level then files[..i] else FilesAt(before, l)
      {
        forall l: nat ensures FilesAt(newFiles + [(level, files[i])], l) ==
          FilesAt(newFiles, l) + if l == level then [files[i]] else []
        {
          FilesAtAppend(newFiles, level, files[i], l);
        }
        newFiles := newFiles + [(level, files[i])];
        assert files[..i + 1] == files[..i] + [files[i]];
      }
      assert files[..|files|] == files;
    }
    edit := Edit(pointers, {}, newFiles);
  }

  lemma FilesAtAppend(newFiles: seq<(nat, File)>, level: nat, f: File, l: nat)
    ensures FilesAt(newFiles + [(level, f)], l) == FilesAt(newFiles, l) + if l == level then [f] else []
  {
    assert (newFiles + [(level, f)])[..|newFiles|] == newFiles;
  }

  /** A snapshot edit on no files gives the files back. */
  lemma SnapshotInstalls(base: seq<File>, all: set<File>)
    requires Ordered(base) && Identified(all) && forall f <- base :: f in all
    ensures OneByOne([], [LevelEdit({}, base)]) == base
  {
    OrderedNone();
    hide Ordered, OneByOne, InBuilderOrder, Identified;
    EditInstalls([], [], base, all);
    assert Numbers([]) == {};
    var v := OneByOne([], [LevelEdit({}, base)]);
    OrderedIsBuilderOrder(v);
    SameFilesSameList(v, base);
  }

  lemma SnapshotThenEdits(base: seq<File>, edits: seq<LevelEdit>, all: set<File>)
    requires Sensible(base, edits, all)
    ensures Sensible([], [LevelEdit({}, base)] + edits, all)
    ensures OneByOne([], [LevelEdit({}, base)] + edits) == OneByOne(base, edits)
  {
    OrderedNone();
    hide Ordered, OneByOne, Identified;
    var first := LevelEdit({}, base);
    SnapshotInstalls(base, all);
    OneByOneAppend([], [first], edits);
    var e := [first] + edits;
    forall k | 0 <= k < |e|
      ensures AddsOnlyMissing(OneByOne([], e[..k]), e[k], all)
    {
      if k == 0 {
        NothingInstalled();
      } else {
        assert e[..k] == [first] + edits[..k - 1];
        OneByOneAppend([], [first], edits[..k - 1]);
      }
    }
  }

  lemma NothingInstalled()
    ensures OneByOne([], []) == []
  {
  }

  /** Recovery from a manifest, which starts with a snapshot of some version, builds the
      very version that installing the later edits one at a time had built. */
  method ManifestRecovers(base: seq<seq<File>>, compactPointer: seq<Option<InternalKey>>, edits: seq<Edit>,
                          ghost all: set<File>)
    returns (recovered: seq<seq<File>>, installed: seq<seq<File>>)
    requires |base| == NUM_LEVELS == |compactPointer| && forall e <- edits :: e.InRange()
    requires forall l :: 0 <= l < NUM_LEVELS ==> Sensible(base[l], AllAtLevel(edits, l), all)
    ensures |recovered| == NUM_LEVELS && recovered == installed
    ensures forall l :: 0 <= l < NUM_LEVELS ==> recovered[l] == OneByOne(base[l], AllAtLevel(edits, l))
  {
    hide Ordered, SaveLevel, Replay, OneByOne, Sensible, FilesAt, DeletedAt, PointerAt;
    var snapshot := WriteSnapshot(base, compactPointer);
    recovered := Recover([snapshot] + edits);
    installed := InstallAll(base, edits, all);
    forall l | 0 <= l < NUM_LEVELS
      ensures recovered[l] == installed[l]
    {
      var (first, rest) := (LevelEdit({}, base[l]), AllAtLevel(edits, l));
      assert AllAtLevel([snapshot] + edits, l) == [first] + rest;
      SnapshotThenEdits(base[l], rest, all);
      RecoveryIff([], [first] + rest, all);
    }
  }

  ghost predicate DeletedSoFar(was: seq<LevelState>, levels: seq<LevelState>, done: set<(nat, nat)>) {
    && |was| == |levels|
    && forall l :: 0 <= l < |was| ==> levels[l] == LevelState(was[l].deleted + DeletedAt(done, l), was[l].added)
  }

  lemma DeletedNone(levels: seq<LevelState>)
    ensures DeletedSoFar(levels, levels, {})
  {
  }

  lemma DeletedAll(was: seq<LevelState>, levels: seq<LevelState>, done: set<(nat, nat)>)
    requires DeletedSoFar(was, levels, done)
    ensures forall l :: 0 <= l < |was| ==> levels[l] == LevelState(was[l].deleted + DeletedAt(done, l), was[l].added)
  {
  }

  lemma DeletedOneMore(was: seq<LevelState>, levels: seq<LevelState>, done: set<(nat, nat)>, d: (nat, nat))
    requires DeletedSoFar(was, levels, done) && d.0 < |was|
    ensures DeletedSoFar(was, levels[d.0 := LevelState(levels[d.0].deleted + {d.1}, levels[d.0].added)], done + {d})
  {
    forall l: nat
      ensures DeletedAt(done + {d}, l) == DeletedAt(done, l) + if l == d.0 then {d.1} else {}
    {
      if l == d.0 { assert d in done + {d}; }
      forall n | n in DeletedAt(done, l) ensures n in DeletedAt(done + {d}, l) { assert (l, n) in done + {d}; }
    }
  }

  lemma NothingAdded(st: LevelState, files: seq<(nat, File)>, level: nat)
    ensures ApplyLevel(st, LevelEdit({}, FilesAt(files[..0], level))) == st
  {
  }

  lemma AddOneFile(files: seq<(nat, File)>, i: nat, st: LevelState)
    requires i < |files|
    ensures var (level, f) := files[i];
      var before := ApplyLevel(st, LevelEdit({}, FilesAt(files[..i], level)));
      ApplyLevel(st, LevelEdit({}, FilesAt(files[..i + 1], level)))
      == LevelState(before.deleted - {f.number}, Insert(before.added, f))
    ensures forall l :: l != files[i].0 ==> FilesAt(files[..i + 1], l) == FilesAt(files[..i], l)
  {
    hide Insert;
    var (level, f) := files[i];
    assert files[..i + 1][..i] == files[..i];
    var before := FilesAt(files[..i], level);
    assert FilesAt(files[..i + 1], level) == before + [f];
    assert (before + [f])[..|before|] == before;
    assert Numbers(before + [f]) == Numbers(before) + {f.number};
  }

  // ---------------------------------------------------------------- the edit of a compaction

  function NumbersAt(level: nat, files: seq<File>): set<(nat, nat)> {
    set f | f in files :: (level, f.number)
  }

  function PlacedAt(level: nat, files: seq<File>): (r: seq<(nat, File)>)
    ensures |r| == |files|
  {
    if files == [] then [] else PlacedAt(level, files[..|files| - 1]) + [(level, files[|files| - 1])]
  }

  /** AddInputDeletions and InstallCompactionResults. */
  function CompactionEdit(level: nat, in0: seq<File>, in1: seq<File>, outs: seq<File>): Edit {
    Edit([], NumbersAt(level, in0) + NumbersAt(level + 1, in1), PlacedAt(level + 1, outs))
  }

  lemma {:induction false} PlacedFiles(level: nat, files: seq<File>, l: nat)
    ensures FilesAt(PlacedAt(level, files), l) == if l == level then files else []
  {
    if files != [] {
      var n := |files| - 1;
      PlacedFiles(level, files[..n], l);
      assert PlacedAt(level, files)[..n] == PlacedAt(level, files[..n]);
      assert files == files[..n] + [files[n]];
    }
  }

  lemma DeletedNumbers(level: nat, in0: seq<File>, in1: seq<File>, l: nat)
    ensures DeletedAt(NumbersAt(level, in0) + NumbersAt(level + 1, in1), l)
      == if l == level then Numbers(in0) else if l == level + 1 then Numbers(in1) else {}
  {
    var d := NumbersAt(level, in0) + NumbersAt(level + 1, in1);
    forall n | n in Numbers(in0) ensures n in DeletedAt(d, level) {
      var f :| f in in0 && f.number == n;
      assert (level, f.number) in d;
    }
    forall n | n in Numbers(in1) ensures n in DeletedAt(d, level + 1) {
      var f :| f in in1 && f.number == n;
      assert (level + 1, f.number) in d;
    }
  }

  lemma EmptyEditChangesNothing(files: seq<File>)
    requires Ordered(files)
    ensures OneByOne(files, [LevelEdit({}, [])]) == files
  {
    hide Ordered;
    var e := [LevelEdit({}, [])];
    assert e[..0] == [];
    assert ApplyLevel(NO_CHANGE, e[0]) == NO_CHANGE;
    NothingMerged(files);
  }

  lemma {:induction false} NothingMerged(files: seq<File>)
    ensures Keep(files, {}) == files && Merge(files, []) == files
  {
    if files != [] {
      NothingMerged(files[1..]);
    }
  }

  /** Applied by a builder, the edit of a compaction replaces its inputs by its outputs. */
  lemma CompactionEditReplaces(levels: seq<seq<File>>, level: nat, in0: seq<File>, in1: seq<File>, outs: seq<File>,
                               all: set<File>, v: seq<seq<File>>)
    requires level + 1 < |levels| == |v| && Identified(all)
    requires forall l :: 0 <= l < |levels| ==> Ordered(levels[l]) && forall f <- levels[l] :: f in all
    requires (forall f <- in0 :: f in levels[level]) && (forall f <- in1 :: f in levels[level + 1] && f !in outs)
    requires forall f <- outs :: f in all && f !in levels[level + 1]
    requires forall l :: 0 <= l < |levels| ==>
      v[l] == OneByOne(levels[l], [CompactionEdit(level, in0, in1, outs).AtLevel(l)])
    ensures Replaces(levels, level, in0, in1, outs, v)
  {
    hide OneByOne, Ordered, Identified, Installed, FilesAt, DeletedAt, PlacedAt, NumbersAt, Numbers;
    forall l | 0 <= l < |levels|
      ensures l == level ==> Installed(levels[level], in0, [], v[level])
      ensures l == level + 1 ==> Installed(levels[level + 1], in1, outs, v[level + 1])
      ensures l != level && l != level + 1 ==> v[l] == levels[l]
    {
      PlacedFiles(level + 1, outs, l);
      DeletedNumbers(level, in0, in1, l);
      if l == level {
        EditInstalls(levels[l], in0, [], all);
      } else if l == level + 1 {
        EditInstalls(levels[l], in1, outs, all);
      } else {
        EmptyEditChangesNothing(levels[l]);
      }
    }
  }
}

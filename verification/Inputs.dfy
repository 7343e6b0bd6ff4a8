/**
 Choosing the files of a compaction (db/version_set.cc: GetOverlappingInputs,
 GetRange, AddBoundaryInputs, SetupOtherInputs).
 */
module Inputs {
  import opened Format
  import opened Version

  // ---------------------------------------------------------------- overlap

  /** Some user key of `f` may lie in [begin, end]; a missing bound is infinite. */
  predicate Overlaps(f: File, begin: Option<nat>, end: Option<nat>) {
    && (begin.Some? ==> f.largest.user >= begin.value)
    && (end.Some? ==> f.smallest.user <= end.value)
  }

  ghost predicate Within(f: File, begin: Option<nat>, end: Option<nat>) {
    && (begin.Some? ==> begin.value <= f.smallest.user)
    && (end.Some? ==> f.largest.user <= end.value)
  }

  ghost predicate Touch(f: File, g: File) {
    f.smallest.user <= g.largest.user && g.smallest.user <= f.largest.user
  }

  /** The files that overlap the range, in their order. */
  function Overlapping(files: seq<File>, begin: Option<nat>, end: Option<nat>): (r: seq<File>)
    ensures forall f :: f in r <==> f in files && Overlaps(f, begin, end)
  {
    if files == [] then []
    else
      var n := |files| - 1;
      Overlapping(files[..n], begin, end) + if Overlaps(files[n], begin, end) then [files[n]] else []
  }

  ghost predicate RangesValid(files: seq<File>) {
    forall i :: 0 <= i < |files| ==> files[i].smallest.user <= files[i].largest.user
  }

  /** `s` holds every file that overlaps the range, and every file that touches one of its own. */
  ghost predicate ClosedFor(s: set<File>, files: seq<File>, begin: Option<nat>, end: Option<nat>) {
    && (forall f <- files :: Overlaps(f, begin, end) ==> f in s)
    && (forall f <- files, g <- files :: f in s && Touch(f, g) ==> g in s)
  }

  /** Every set closed for [begin, end] holds all files that overlap [b, e]. */
  ghost predicate Forced(files: seq<File>, begin: Option<nat>, end: Option<nat>, b: Option<nat>, e: Option<nat>) {
    forall s: set<File> :: ClosedFor(s, files, begin, end) ==> forall f <- files :: Overlaps(f, b, e) ==> f in s
  }

  /** How many files stick out of the range: what each restart of the level-0 scan reduces. */
  ghost function Outside(files: seq<File>, begin: Option<nat>, end: Option<nat>): nat {
    if files == [] then 0
    else
      var f := files[0];
      (if begin.Some? && f.smallest.user < begin.value then 1 else 0)
      + (if end.Some? && f.largest.user > end.value then 1 else 0)
      + Outside(files[1..], begin, end)
  }

  lemma OutsideShrinks(files: seq<File>, begin: Option<nat>, end: Option<nat>, begin': Option<nat>, end': Option<nat>)
    requires begin.Some? == begin'.Some? && (begin.Some? ==> begin'.value <= begin.value)
    requires end.Some? == end'.Some? && (end.Some? ==> end'.value >= end.value)
    ensures Outside(files, begin', end') <= Outside(files, begin, end)
    ensures (exists f <- files :: (begin.Some? && begin'.value <= f.smallest.user < begin.value)
                               || (end.Some? && end.value < f.largest.user <= end'.value))
      ==> Outside(files, begin', end') < Outside(files, begin, end)
  {
    if files != [] { OutsideShrinks(files[1..], begin, end, begin', end'); }
  }

  /** Version::GetOverlappingInputs.  Above level 0 this is a filter.  At level 0
      a file that sticks out of the range widens it and restarts the scan; the
      result is the least set of files closed under overlap. */
  method GetOverlappingInputs(level: nat, files: seq<File>, begin: Option<nat>, end: Option<nat>)
    returns (inputs: seq<File>, ghost begin': Option<nat>, ghost end': Option<nat>)
    requires RangesValid(files)
    ensures inputs == Overlapping(files, begin', end')
    ensures level > 0 ==> begin' == begin && end' == end
    ensures begin'.Some? == begin.Some? && (begin.Some? ==> begin'.value <= begin.value)
    ensures end'.Some? == end.Some? && (end.Some? ==> end.value <= end'.value)
    ensures level == 0 ==> forall f <- inputs :: Within(f, begin', end')
    ensures forall s: set<File> :: level == 0 && ClosedFor(s, files, begin, end) ==> forall f <- inputs :: f in s
  {
    hide Forced, Outside, ClosedFor, Overlapping;
    ForcedStart(files, begin, end);
    OverlappingNone(files, begin, end);
    inputs := [];
    var userBegin: Option<nat>, userEnd: Option<nat> := begin, end;
    var i := 0;
    while i < |files|
      invariant 0 <= i <= |files|
      invariant inputs == Overlapping(files[..i], userBegin, userEnd)
      invariant level > 0 ==> userBegin == begin && userEnd == end
      invariant userBegin.Some? == begin.Some? && (begin.Some? ==> userBegin.value <= begin.value)
      invariant userEnd.Some? == end.Some? && (end.Some? ==> end.value <= userEnd.value)
      invariant level == 0 ==> forall f <- inputs :: Within(f, userBegin, userEnd)
      invariant Forced(files, begin, end, userBegin, userEnd)
      decreases Outside(files, userBegin, userEnd), |files| - i
    {
      var f := files[i];
      OverlappingStep(files, i, userBegin, userEnd);
      i := i + 1;
      if userBegin.Some? && f.largest.user < userBegin.value {
        // entirely before the range
      } else if userEnd.Some? && f.smallest.user > userEnd.value {
        // entirely after the range
      } else {
        inputs := inputs + [f];
        if level == 0 {
          if userBegin.Some? && f.smallest.user < userBegin.value {
            Widen(files, begin, end, userBegin, userEnd, f, Some(f.smallest.user), userEnd);
            OverlappingNone(files, Some(f.smallest.user), userEnd);
            userBegin := Some(f.smallest.user);
            inputs := [];
            i := 0;
          } else if userEnd.Some? && f.largest.user > userEnd.value {
            Widen(files, begin, end, userBegin, userEnd, f, userBegin, Some(f.largest.user));
            OverlappingNone(files, userBegin, Some(f.largest.user));
            userEnd := Some(f.largest.user);
            inputs := [];
            i := 0;
          }
        }
      }
    }
    begin', end' := userBegin, userEnd;
    assert files[..|files|] == files;
    ForcedEnd(files, begin, end, begin', end', inputs);
  }

  lemma OverlappingNone(files: seq<File>, begin: Option<nat>, end: Option<nat>)
    ensures Overlapping(files[..0], begin, end) == []
  {
  }

  lemma OverlappingStep(files: seq<File>, i: nat, begin: Option<nat>, end: Option<nat>)
    requires i < |files|
    ensures Overlapping(files[..i + 1], begin, end)
      == Overlapping(files[..i], begin, end) + if Overlaps(files[i], begin, end) then [files[i]] else []
  {
    hide Overlaps;
    assert files[..i + 1][..i] == files[..i];
  }

  lemma ForcedStart(files: seq<File>, begin: Option<nat>, end: Option<nat>)
    ensures Forced(files, begin, end, begin, end)
  {
  }

  lemma ForcedEnd(files: seq<File>, begin: Option<nat>, end: Option<nat>, b: Option<nat>, e: Option<nat>,
                  inputs: seq<File>)
    requires Forced(files, begin, end, b, e) && inputs == Overlapping(files, b, e)
    ensures forall s: set<File> :: ClosedFor(s, files, begin, end) ==> forall f <- inputs :: f in s
  {
  }

  /** Widening the range to a file that overlaps it keeps every file that
      overlaps the range inside every closed set. */
  lemma Widen(files: seq<File>, begin: Option<nat>, end: Option<nat>, b: Option<nat>, e: Option<nat>, f: File,
              b': Option<nat>, e': Option<nat>)
    requires RangesValid(files) && f in files && Overlaps(f, b, e)
    requires Forced(files, begin, end, b, e)
    requires (b.Some? && f.smallest.user < b.value && b' == Some(f.smallest.user) && e' == e)
          || (e.Some? && f.largest.user > e.value && e' == Some(f.largest.user) && b' == b)
    ensures Forced(files, begin, end, b', e')
    ensures Outside(files, b', e') < Outside(files, b, e)
  {
    OutsideShrinks(files, b, e, b', e');
    forall s: set<File>, g <- files | ClosedFor(s, files, begin, end) && Overlaps(g, b', e')
      ensures g in s
    {
      if !Overlaps(g, b, e) { assert f in s && Touch(f, g); }
    }
  }

  /** At level 0, no file left out overlaps the final range or a returned file. */
  lemma ClosureLeavesNoneTouching(files: seq<File>, inputs: seq<File>, begin': Option<nat>, end': Option<nat>, f: File,
                                  g: File)
    requires inputs == Overlapping(files, begin', end') && forall h <- inputs :: Within(h, begin', end')
    requires f in files && f !in inputs && g in inputs
    ensures !Overlaps(f, begin', end') && !Touch(f, g)
  {
  }

  /** `r` are the files of a level that overlap the range, in their order; at level 0
      those of the least set that is closed under overlap. */
  ghost predicate Overlapped(level: nat, files: seq<File>, begin: Option<nat>, end: Option<nat>, r: seq<File>) {
    if level > 0 then r == Overlapping(files, begin, end)
    else
      && ClosedFor((set f | f in r), files, begin, end)
      && (forall s: set<File> :: ClosedFor(s, files, begin, end) ==> forall f <- r :: f in s)
      && exists b, e :: r == Overlapping(files, b, e)
  }

  /** What GetOverlappingInputs returns is what overlaps. */
  lemma ReturnsOverlapped(level: nat, files: seq<File>, begin: Option<nat>, end: Option<nat>, r: seq<File>,
                          begin': Option<nat>, end': Option<nat>)
    requires RangesValid(files) && r == Overlapping(files, begin', end')
    requires level > 0 ==> begin' == begin && end' == end
    requires begin'.Some? == begin.Some? && (begin.Some? ==> begin'.value <= begin.value)
    requires end'.Some? == end.Some? && (end.Some? ==> end.value <= end'.value)
    requires level == 0 ==> forall f <- r :: Within(f, begin', end')
    requires forall s: set<File> :: level == 0 && ClosedFor(s, files, begin, end) ==> forall f <- r :: f in s
    ensures Overlapped(level, files, begin, end, r)
  {
  }

  // ---------------------------------------------------------------- ranges

  ghost predicate IsSmallest(k: InternalKey, files: seq<File>) {
    && (exists f <- files :: f.smallest == k)
    && (forall f <- files :: Compare(k, f.smallest) <= 0)
  }

  ghost predicate IsLargest(k: InternalKey, files: seq<File>) {
    && (exists f <- files :: f.largest == k)
    && (forall f <- files :: Compare(f.largest, k) <= 0)
  }

  /** VersionSet::GetRange: the minimal range that covers all the files. */
  method GetRange(inputs: seq<File>) returns (smallest: InternalKey, largest: InternalKey)
    requires inputs != []
    ensures IsSmallest(smallest, inputs) && IsLargest(largest, inputs)
  {
    smallest, largest := inputs[0].smallest, inputs[0].largest;
    RangeOfOne(inputs[0]);
    assert inputs[..1] == [inputs[0]];
    hide IsSmallest, IsLargest;
    for i := 1 to |inputs|
      invariant IsSmallest(smallest, inputs[..i]) && IsLargest(largest, inputs[..i])
    {
      var f := inputs[i];
      assert inputs[..i + 1] == inputs[..i] + [f];
      RangeAppend(inputs[..i], smallest, largest, f);
      if Compare(f.smallest, smallest) < 0 {
        smallest := f.smallest;
      }
      if Compare(f.largest, largest) > 0 {
        largest := f.largest;
      }
    }
    assert inputs[..|inputs|] == inputs;
  }

  lemma RangeOfOne(f: File)
    ensures IsSmallest(f.smallest, [f]) && IsLargest(f.largest, [f])
  {
    assert f in [f];
  }

  lemma RangeAppend(files: seq<File>, smallest: InternalKey, largest: InternalKey, f: File)
    requires IsSmallest(smallest, files) && IsLargest(largest, files)
    ensures IsSmallest(if Compare(f.smallest, smallest) < 0 then f.smallest else smallest, files + [f])
    ensures IsLargest(if Compare(f.largest, largest) > 0 then f.largest else largest, files + [f])
  {
    var low :| low in files && low.smallest == smallest;
    var high :| high in files && high.largest == largest;
    assert low in files + [f] && high in files + [f] && f in files + [f];
  }

  // ---------------------------------------------------------------- boundary files

  /** `f` continues the user key that `largest` ends with. */
  predicate IsBoundary(f: File, largest: InternalKey) {
    Compare(f.smallest, largest) > 0 && f.smallest.user == largest.user
  }

  ghost predicate FirstBoundary(f: File, levelFiles: seq<File>, largest: InternalKey) {
    && IsBoundary(f, largest)
    && forall g <- levelFiles :: IsBoundary(g, largest) ==> Compare(f.smallest, g.smallest) <= 0
  }

  /** FindSmallestBoundaryFile: the first boundary file, if there is one. */
  method FindSmallestBoundaryFile(levelFiles: seq<File>, largest: InternalKey) returns (r: Option<File>)
    ensures r.None? ==> forall f <- levelFiles :: !IsBoundary(f, largest)
    ensures r.Some? ==> r.value in levelFiles && FirstBoundary(r.value, levelFiles, largest)
  {
    r := None;
    for i := 0 to |levelFiles|
      invariant r.None? ==> forall f <- levelFiles[..i] :: !IsBoundary(f, largest)
      invariant r.Some? ==> r.value in levelFiles && FirstBoundary(r.value, levelFiles[..i], largest)
    {
      var f := levelFiles[i];
      if IsBoundary(f, largest) && (r.None? || Compare(f.smallest, r.value.smallest) < 0) {
        r := Some(f);
      }
    }
  }

  ghost predicate Distinct(files: seq<File>) {
    forall i, j :: 0 <= i < j < |files| ==> files[i] != files[j]
  }

  /** How many files of the level start after `largest`. */
  ghost function After(levelFiles: seq<File>, largest: InternalKey): nat {
    if levelFiles == [] then 0
    else (if Compare(levelFiles[0].smallest, largest) > 0 then 1 else 0) + After(levelFiles[1..], largest)
  }

  lemma AfterShrinks(levelFiles: seq<File>, largest: InternalKey, f: File)
    requires f in levelFiles && Compare(f.smallest, largest) > 0 && Compare(f.smallest, f.largest) <= 0
    ensures After(levelFiles, f.largest) < After(levelFiles, largest)
  {
    AfterMonotone(levelFiles[1..], largest, f.largest);
    if f in levelFiles[1..] { AfterShrinks(levelFiles[1..], largest, f); }
  }

  lemma AfterMonotone(levelFiles: seq<File>, k: InternalKey, k': InternalKey)
    requires Compare(k, k') < 0
    ensures After(levelFiles, k') <= After(levelFiles, k)
  {
  }

  /** No file of the level that is left out shares a user-key range with a chosen one. */
  ghost predicate Untouched(levelFiles: seq<File>, r: seq<File>) {
    forall f <- levelFiles, g <- r :: f !in r ==> !Touch(f, g)
  }

  /** No file of the level that is left out lies between the files chosen. */
  ghost predicate SetAside(levelFiles: seq<File>, r: seq<File>, smallest: InternalKey, largest: InternalKey) {
    forall f <- levelFiles :: f !in r ==> Compare(f.largest, smallest) < 0 || Compare(largest, f.smallest) < 0
  }

  ghost predicate GapFree(levelFiles: seq<File>, r: seq<File>) {
    forall smallest, largest :: IsSmallest(smallest, r) && IsLargest(largest, r) ==>
      SetAside(levelFiles, r, smallest, largest)
  }

  /** Any two files of the level are disjoint as ranges of internal keys. */
  ghost predicate PairwiseApart(files: seq<File>) {
    && AllValid(files)
    && forall f <- files, g <- files :: f != g ==>
      Compare(f.largest, g.smallest) < 0 || Compare(g.largest, f.smallest) < 0
  }

  lemma SortedIsApart(files: seq<File>)
    requires SortedDisjoint(files)
    ensures PairwiseApart(files)
  {
  }

  lemma SmallestUnique(files: seq<File>, k: InternalKey, k': InternalKey)
    requires (IsSmallest(k, files) && IsSmallest(k', files)) || (IsLargest(k, files) && IsLargest(k', files))
    ensures k == k'
  {
  }

  /** From place `n` on, each file is the first of the level that continues the last user key of those before it. */
  ghost predicate Continues(levelFiles: seq<File>, n: nat, r: seq<File>) {
    forall k, largest :: n <= k < |r| && IsLargest(largest, r[..k]) ==>
      r[k] in levelFiles && FirstBoundary(r[k], levelFiles, largest)
  }

  /** `r` are the files, then those that continue their last user key, until none is left that does. */
  ghost predicate Extended(levelFiles: seq<File>, files: seq<File>, r: seq<File>) {
    && files <= r && Continues(levelFiles, |files|, r)
    && forall largest :: IsLargest(largest, r) ==> forall f <- levelFiles :: !IsBoundary(f, largest)
  }

  lemma ContinuesOne(levelFiles: seq<File>, n: nat, r: seq<File>, largest: InternalKey, f: File)
    requires Continues(levelFiles, n, r) && IsLargest(largest, r)
    requires f in levelFiles && FirstBoundary(f, levelFiles, largest)
    ensures Continues(levelFiles, n, r + [f])
  {
    hide IsLargest, FirstBoundary;
    forall k, l | n <= k < |r + [f]| && IsLargest(l, (r + [f])[..k])
      ensures (r + [f])[k] in levelFiles && FirstBoundary((r + [f])[k], levelFiles, l)
    {
      assert (r + [f])[..k] == r[..k];
      if k == |r| {
        assert r[..k] == r;
        SmallestUnique(r, l, largest);
      }
    }
  }

  /** AddBoundaryInputs: extends the files until no file of the level continues
      their last user key; no file is added twice. */
  method AddBoundaryInputs(levelFiles: seq<File>, compactionFiles: seq<File>) returns (r: seq<File>)
    requires AllValid(levelFiles) && Distinct(compactionFiles) && forall f <- compactionFiles :: f in levelFiles
    ensures Extended(levelFiles, compactionFiles, r) && Distinct(r) && forall f <- r :: f in levelFiles
    ensures PairwiseApart(levelFiles) && GapFree(levelFiles, compactionFiles) ==> GapFree(levelFiles, r)
    ensures Untouched(levelFiles, compactionFiles) ==> r == compactionFiles
  {
    hide SetAside, GapFree, PairwiseApart, AllValid, IsSmallest, IsBoundary, FirstBoundary, Distinct, Untouched,
         IsLargest;
    r := compactionFiles;
    ContinuesNone(levelFiles, r);
    if compactionFiles == [] {
      NoLargest();
      return;
    }
    hide Continues;
    var smallest, largest := GetRange(compactionFiles);
    RangeGapFree(levelFiles, r, smallest, largest);
    ghost var convex := PairwiseApart(levelFiles) && GapFree(levelFiles, compactionFiles);
    var searching := true;
    while searching
      invariant compactionFiles <= r && Distinct(r) && forall f <- r :: f in levelFiles
      invariant Continues(levelFiles, |compactionFiles|, r)
      invariant IsSmallest(smallest, r) && IsLargest(largest, r)
      invariant !searching ==> forall f <- levelFiles :: !IsBoundary(f, largest)
      invariant convex ==> SetAside(levelFiles, r, smallest, largest)
      invariant Untouched(levelFiles, compactionFiles) ==> r == compactionFiles
      decreases After(levelFiles, largest), searching
    {
      var found := FindSmallestBoundaryFile(levelFiles, largest);
      if found.Some? {
        AddOne(levelFiles, r, smallest, largest, found.value);
        BoundaryTouches(levelFiles, r, largest, found.value);
        ContinuesOne(levelFiles, |compactionFiles|, r, largest, found.value);
        r := r + [found.value];
        largest := found.value.largest;
      } else {
        searching := false;
      }
    }
    RangeGapFree(levelFiles, r, smallest, largest);
  }

  lemma ContinuesNone(levelFiles: seq<File>, r: seq<File>)
    ensures Continues(levelFiles, |r|, r)
  {
  }

  lemma NoLargest()
    ensures forall largest :: !IsLargest(largest, [])
  {
  }

  lemma RangeGapFree(levelFiles: seq<File>, r: seq<File>, smallest: InternalKey, largest: InternalKey)
    requires IsSmallest(smallest, r) && IsLargest(largest, r)
    ensures GapFree(levelFiles, r) <==> SetAside(levelFiles, r, smallest, largest)
    ensures forall k :: IsLargest(k, r) ==> k == largest
  {
    hide IsLargest, IsSmallest, SetAside;
    forall k | IsLargest(k, r) ensures k == largest { SmallestUnique(r, k, largest); }
    forall k | IsSmallest(k, r) ensures k == smallest { SmallestUnique(r, k, smallest); }
  }

  lemma AddOne(levelFiles: seq<File>, r: seq<File>, smallest: InternalKey, largest: InternalKey, f: File)
    requires AllValid(levelFiles) && Distinct(r) && forall g <- r :: g in levelFiles
    requires IsSmallest(smallest, r) && IsLargest(largest, r)
    requires f in levelFiles && FirstBoundary(f, levelFiles, largest)
    ensures Distinct(r + [f]) && After(levelFiles, f.largest) < After(levelFiles, largest)
    ensures IsSmallest(smallest, r + [f]) && IsLargest(f.largest, r + [f])
    ensures PairwiseApart(levelFiles) && SetAside(levelFiles, r, smallest, largest) ==>
      SetAside(levelFiles, r + [f], smallest, f.largest)
  {
    hide SetAside, PairwiseApart, Sorted;
    assert f.Valid();
    FileRange(f, f.entries[0]);
    AfterShrinks(levelFiles, largest, f);
    AddOneRange(levelFiles, r, smallest, largest, f);
    if PairwiseApart(levelFiles) && SetAside(levelFiles, r, smallest, largest) {
      AddOneAside(levelFiles, r, smallest, largest, f);
    }
  }

  lemma BoundaryTouches(levelFiles: seq<File>, r: seq<File>, largest: InternalKey, f: File)
    requires AllValid(levelFiles) && IsLargest(largest, r) && forall g <- r :: g in levelFiles
    requires f in levelFiles && FirstBoundary(f, levelFiles, largest)
    ensures !Untouched(levelFiles, r)
  {
    hide Sorted;
    var g :| g in r && g.largest == largest;
    assert f.Valid() && g.Valid();
    FileRange(f, f.entries[0]);
    FileRange(g, g.entries[0]);
    assert Touch(f, g) && f !in r;
  }

  lemma AddOneRange(levelFiles: seq<File>, r: seq<File>, smallest: InternalKey, largest: InternalKey, f: File)
    requires AllValid(levelFiles) && Distinct(r) && forall g <- r :: g in levelFiles
    requires IsSmallest(smallest, r) && IsLargest(largest, r)
    requires f in levelFiles && IsBoundary(f, largest)
    ensures Distinct(r + [f]) && IsSmallest(smallest, r + [f]) && IsLargest(f.largest, r + [f])
  {
    hide Sorted;
    var low :| low in r && low.smallest == smallest;
    assert f.Valid() && low.Valid();
    FileRange(f, f.entries[0]);
    FileRange(low, low.entries[0]);
    assert low in r + [f] && f in r + [f];
    assert f !in r;
  }

  lemma AddOneAside(levelFiles: seq<File>, r: seq<File>, smallest: InternalKey, largest: InternalKey, f: File)
    requires PairwiseApart(levelFiles) && SetAside(levelFiles, r, smallest, largest)
    requires f in levelFiles && FirstBoundary(f, levelFiles, largest)
    ensures SetAside(levelFiles, r + [f], smallest, f.largest)
  {
    hide PairwiseApart, FirstBoundary;
    forall g <- levelFiles | g !in r + [f]
      ensures Compare(g.largest, smallest) < 0 || Compare(f.largest, g.smallest) < 0
    {
      StaysAside(levelFiles, r, smallest, largest, f, g);
    }
  }

  lemma StaysAside(levelFiles: seq<File>, r: seq<File>, smallest: InternalKey, largest: InternalKey, f: File, g: File)
    requires PairwiseApart(levelFiles) && SetAside(levelFiles, r, smallest, largest)
    requires f in levelFiles && FirstBoundary(f, levelFiles, largest)
    requires g in levelFiles && g !in r && g != f
    ensures Compare(g.largest, smallest) < 0 || Compare(f.largest, g.smallest) < 0
  {
    assert g.Valid();
    FileRange(g, g.entries[0]);
  }

  /** What is left out is newer than what is chosen, user key by user key. */
  ghost predicate LeavesNoneOlder(levelFiles: seq<File>, inputs: seq<File>) {
    forall f <- levelFiles, g <- inputs :: f !in inputs ==> Above(Elements(f.entries), Elements(g.entries))
  }

  lemma BoundaryDone(levelFiles: seq<File>, r: seq<File>, smallest: InternalKey, largest: InternalKey)
    requires AllValid(levelFiles) && UniqueSeqnos(EntriesOf(levelFiles))
    requires forall f <- r :: f in levelFiles
    requires IsSmallest(smallest, r) && IsLargest(largest, r) && SetAside(levelFiles, r, smallest, largest)
    requires forall f <- levelFiles :: !IsBoundary(f, largest)
    ensures LeavesNoneOlder(levelFiles, r)
  {
    hide Sorted, UniqueSeqnos, EntriesOf;
    forall f <- levelFiles, g <- r, d, e |
      f !in r && d in Elements(f.entries) && e in Elements(g.entries) && d.key.user == e.key.user
      ensures d.key.seqno > e.key.seqno
    {
      assert f.Valid() && g.Valid();
      FileRange(f, d);
      FileRange(g, e);
      DifferentSeqnos(levelFiles, f, g, d, e);
    }
  }

  lemma DifferentSeqnos(levelFiles: seq<File>, f: File, g: File, d: Entry, e: Entry)
    requires UniqueSeqnos(EntriesOf(levelFiles)) && f in levelFiles && g in levelFiles
    requires d in f.entries && e in g.entries && d.key.user == e.key.user
    ensures d.key.seqno == e.key.seqno ==> d == e
  {
  }

  lemma UntouchedLeavesNoneOlder(levelFiles: seq<File>, r: seq<File>)
    requires AllValid(levelFiles) && Untouched(levelFiles, r) && forall f <- r :: f in levelFiles
    ensures LeavesNoneOlder(levelFiles, r)
  {
    hide Sorted;
    forall f <- levelFiles, g <- r, d, e | f !in r && d in Elements(f.entries) && e in Elements(g.entries)
      ensures d.key.user != e.key.user
    {
      assert f.Valid() && g.Valid();
      FileRange(f, d);
      FileRange(g, e);
    }
  }

  /** Files of a sorted level picked by overlap leave no gap. */
  lemma OverlapGapFree(levelFiles: seq<File>, begin: Option<nat>, end: Option<nat>)
    requires PairwiseApart(levelFiles)
    ensures GapFree(levelFiles, Overlapping(levelFiles, begin, end))
  {
    hide PairwiseApart;
    var r := Overlapping(levelFiles, begin, end);
    forall smallest, largest, f <- levelFiles | IsSmallest(smallest, r) && IsLargest(largest, r) && f !in r
      ensures Compare(f.largest, smallest) < 0 || Compare(largest, f.smallest) < 0
    {
      var low :| low in r && low.smallest == smallest;
      var high :| high in r && high.largest == largest;
      NotBetween(levelFiles, begin, end, f, low, high);
    }
  }

  lemma NotBetween(levelFiles: seq<File>, begin: Option<nat>, end: Option<nat>, f: File, low: File, high: File)
    requires PairwiseApart(levelFiles) && f in levelFiles && low in levelFiles && high in levelFiles
    requires !Overlaps(f, begin, end) && Overlaps(low, begin, end) && Overlaps(high, begin, end)
    ensures Compare(f.largest, low.smallest) < 0 || Compare(high.largest, f.smallest) < 0
  {
    assert f.Valid() && low.Valid() && high.Valid();
    FileRange(f, f.entries[0]);
    FileRange(low, low.entries[0]);
    FileRange(high, high.entries[0]);
  }

  lemma OverlappingDistinct(files: seq<File>, begin: Option<nat>, end: Option<nat>)
    requires Distinct(files)
    ensures Distinct(Overlapping(files, begin, end))
  {
    if files != [] {
      var n := |files| - 1;
      OverlappingDistinct(files[..n], begin, end);
      assert files[n] !in files[..n];
    }
  }

  // ---------------------------------------------------------------- all inputs

  function TotalFileSize(files: seq<File>): nat {
    if files == [] then 0 else files[0].size + TotalFileSize(files[1..])
  }

  /** The files of `next` whose user keys overlap those of `inputs`. */
  ghost predicate CoversNext(next: seq<File>, inputs: seq<File>, r: seq<File>) {
    exists smallest, largest :: IsSmallest(smallest, inputs) && IsLargest(largest, inputs)
      && r == Overlapping(next, Some(smallest.user), Some(largest.user))
  }

  /** Inputs a compaction of `files` into `next` may start from. */
  ghost predicate Seed(level: nat, files: seq<File>, inputs: seq<File>) {
    && inputs != [] && Distinct(inputs) && (forall f <- inputs :: f in files)
    && if level == 0 then Untouched(files, inputs) else GapFree(files, inputs)
  }

  lemma SeedFromOverlap(level: nat, files: seq<File>, begin: Option<nat>, end: Option<nat>)
    requires Distinct(files) && (level > 0 ==> PairwiseApart(files))
    requires Overlapping(files, begin, end) != []
    requires level == 0 ==> forall f <- Overlapping(files, begin, end) :: Within(f, begin, end)
    ensures Seed(level, files, Overlapping(files, begin, end))
  {
    OverlappingDistinct(files, begin, end);
    if level > 0 { OverlapGapFree(files, begin, end); }
  }

  /** The files of a seed, extended by boundary files, leave nothing older behind. */
  lemma SeedExtended(level: nat, files: seq<File>, seed: seq<File>, r: seq<File>)
    requires AllValid(files) && UniqueSeqnos(EntriesOf(files)) && (level > 0 ==> PairwiseApart(files))
    requires Seed(level, files, seed) && r != [] && forall f <- r :: f in files
    requires forall largest :: IsLargest(largest, r) ==> forall f <- files :: !IsBoundary(f, largest)
    requires level > 0 ==> GapFree(files, r)
    requires level == 0 ==> r == seed
    ensures LeavesNoneOlder(files, r)
  {
    hide AllValid, UniqueSeqnos, EntriesOf, PairwiseApart, LeavesNoneOlder, IsBoundary;
    if level == 0 {
      UntouchedLeavesNoneOlder(files, r);
    } else {
      var smallest, largest := RangeExists(r);
      BoundaryDone(files, r, smallest, largest);
    }
  }

  lemma RangeExists(files: seq<File>) returns (smallest: InternalKey, largest: InternalKey)
    requires files != []
    ensures IsSmallest(smallest, files) && IsLargest(largest, files)
  {
    var n := |files| - 1;
    assert files == files[..n] + [files[n]];
    if n == 0 {
      RangeOfOne(files[0]);
      smallest, largest := files[0].smallest, files[0].largest;
    } else {
      smallest, largest := RangeExists(files[..n]);
      RangeAppend(files[..n], smallest, largest, files[n]);
      smallest := if Compare(files[n].smallest, smallest) < 0 then files[n].smallest else smallest;
      largest := if Compare(files[n].largest, largest) > 0 then files[n].largest else largest;
    }
  }

  /** The files of the level that overlap the hull of all inputs, and their boundary files. */
  ghost predicate Widened(level: nat, files: seq<File>, all: seq<File>, r: seq<File>) {
    exists smallest, largest, seed ::
      && IsSmallest(smallest, all) && IsLargest(largest, all)
      && Overlapped(level, files, Some(smallest.user), Some(largest.user), seed) && Extended(files, seed, r)
  }

  /** The inputs are the plain ones, or the wider ones exactly if that is worth it. */
  ghost predicate SetUp(level: nat, files: seq<File>, next: seq<File>, inputs: seq<File>, byteLimit: nat,
                        in0: seq<File>, in1: seq<File>) {
    exists plain0, plain1 ::
      && Extended(files, inputs, plain0) && CoversNext(next, plain0, plain1)
      && WiderIff(level, files, next, plain0, plain1, byteLimit, in0, in1)
  }

  /** The files of the next level are the same either way.  Those of the level are the wider
      ones iff they are more, not too many bytes, and need no more files of the next level. */
  ghost predicate WiderIff(level: nat, files: seq<File>, next: seq<File>, plain0: seq<File>, plain1: seq<File>,
                           byteLimit: nat, in0: seq<File>, in1: seq<File>) {
    && in1 == plain1
    && if plain1 == [] then in0 == plain0
       else
         exists wide0, wide1 ::
           && Widened(level, files, plain0 + plain1, wide0) && CoversNext(next, wide0, wide1)
           && if |wide0| > |plain0| && TotalFileSize(plain1) + TotalFileSize(wide0) < byteLimit && |wide1| == |plain1|
              then in0 == wide0 else in0 == plain0
  }

  /** VersionSet::SetupOtherInputs.  The largest key is where the next compaction of the level goes on. */
  method SetupOtherInputs(level: nat, files: seq<File>, next: seq<File>, inputs: seq<File>, byteLimit: nat)
    returns (in0: seq<File>, in1: seq<File>, compactPointer: InternalKey)
    requires AllValid(files) && Distinct(files) && UniqueSeqnos(EntriesOf(files))
    requires level > 0 ==> PairwiseApart(files)
    requires AllValid(next)
    requires Seed(level, files, inputs)
    ensures (forall f <- in0 :: f in files) && Distinct(in0) && forall f <- inputs :: f in in0
    ensures LeavesNoneOlder(files, in0)
    ensures CoversNext(next, in0, in1)
    ensures SetUp(level, files, next, inputs, byteLimit, in0, in1)
    ensures IsLargest(compactPointer, in0)
  {
    hide AllValid, UniqueSeqnos, EntriesOf, PairwiseApart, LeavesNoneOlder, IsBoundary, GapFree, Untouched, IsSmallest,
         IsLargest, CoversNext, WiderIff, Widened, Overlapped, Continues;
    ValidRanges(files);
    ValidRanges(next);
    in0 := AddBoundaryInputs(files, inputs);
    SeedExtended(level, files, inputs, in0);
    var smallest, largest := GetRange(in0);
    ghost var b, e;
    in1, b, e := GetOverlappingInputs(level + 1, next, Some(smallest.user), Some(largest.user));
    NextCovered(next, in0, smallest, largest);
    ghost var (plain0, plain1) := (in0, in1);
    compactPointer := largest;
    if in1 != [] {
      var expanded0 := Expand(level, files, in0, in1);
      ghost var start, limit := RangeExists(expanded0);
      NextCovered(next, expanded0, start, limit);
      ghost var wide1 := Overlapping(next, Some(start.user), Some(limit.user));
      if |expanded0| > |in0| && TotalFileSize(in1) + TotalFileSize(expanded0) < byteLimit {
        var newStart, newLimit := GetRange(expanded0);
        SmallestUnique(expanded0, newStart, start);
        SmallestUnique(expanded0, newLimit, limit);
        var expanded1;
        expanded1, b, e := GetOverlappingInputs(level + 1, next, Some(newStart.user), Some(newLimit.user));
        SameNext(next, plain0, expanded0, smallest, largest, start, limit);
        if |expanded1| == |in1| {
          in0, in1 := expanded0, expanded1;
          compactPointer := newLimit;
        }
      }
      WiderOrNot(level, files, next, plain0, plain1, byteLimit, expanded0, wide1, in0, in1);
    } else {
      PlainOnly(level, files, next, plain0, byteLimit);
    }
  }

  /** The files of the level that a wider range takes in. */
  method Expand(level: nat, files: seq<File>, in0: seq<File>, in1: seq<File>) returns (r: seq<File>)
    requires AllValid(files) && Distinct(files) && UniqueSeqnos(EntriesOf(files))
    requires (level > 0 ==> PairwiseApart(files)) && in0 != [] && (forall f <- in0 :: f in files)
    ensures (forall f <- r :: f in files) && Distinct(r) && r != [] && forall f <- in0 :: f in r
    ensures LeavesNoneOlder(files, r) && Widened(level, files, in0 + in1, r)
  {
    hide AllValid, UniqueSeqnos, EntriesOf, PairwiseApart, LeavesNoneOlder, IsBoundary, GapFree, Untouched, IsSmallest,
         IsLargest, Overlapped, Continues, ClosedFor;
    ValidRanges(files);
    var allStart, allLimit := GetRange(in0 + in1);
    var seed;
    ghost var b, e;
    seed, b, e := GetOverlappingInputs(level, files, Some(allStart.user), Some(allLimit.user));
    ReturnsOverlapped(level, files, Some(allStart.user), Some(allLimit.user), seed, b, e);
    HullKeeps(files, in0, in1, allStart, allLimit, b, e);
    SeedFromOverlap(level, files, b, e);
    r := AddBoundaryInputs(files, seed);
    SeedExtended(level, files, seed, r);
  }

  lemma NextCovered(next: seq<File>, inputs: seq<File>, smallest: InternalKey, largest: InternalKey)
    requires IsSmallest(smallest, inputs) && IsLargest(largest, inputs)
    ensures CoversNext(next, inputs, Overlapping(next, Some(smallest.user), Some(largest.user)))
  {
  }

  lemma WiderOrNot(level: nat, files: seq<File>, next: seq<File>, plain0: seq<File>, plain1: seq<File>,
                   byteLimit: nat, wide0: seq<File>, wide1: seq<File>, in0: seq<File>, in1: seq<File>)
    requires plain1 != [] && Widened(level, files, plain0 + plain1, wide0) && CoversNext(next, wide0, wide1)
    requires in1 == plain1 && in0 ==
      if |wide0| > |plain0| && TotalFileSize(plain1) + TotalFileSize(wide0) < byteLimit && |wide1| == |plain1|
      then wide0 else plain0
    ensures WiderIff(level, files, next, plain0, plain1, byteLimit, in0, in1)
  {
    hide Widened, CoversNext, TotalFileSize;
  }

  /** More files of the level that need as many files of the next need the same ones. */
  lemma SameNext(next: seq<File>, plain: seq<File>, wide: seq<File>, smallest: InternalKey, largest: InternalKey,
                 start: InternalKey, limit: InternalKey)
    requires IsSmallest(smallest, plain) && IsLargest(largest, plain) && (forall f <- plain :: f in wide)
    requires IsSmallest(start, wide) && IsLargest(limit, wide)
    ensures var (a, b) := (Overlapping(next, Some(smallest.user), Some(largest.user)),
                           Overlapping(next, Some(start.user), Some(limit.user)));
      |a| == |b| ==> a == b
  {
    OverlapGrows(next, smallest.user, largest.user, start.user, limit.user);
  }

  lemma {:induction false} OverlapGrows(files: seq<File>, b: nat, e: nat, b': nat, e': nat)
    requires b' <= b && e <= e'
    ensures var (s, s') := (Overlapping(files, Some(b), Some(e)), Overlapping(files, Some(b'), Some(e')));
      |s| <= |s'| && (|s| == |s'| ==> s == s')
  {
    if files != [] { OverlapGrows(files[..|files| - 1], b, e, b', e'); }
  }

  /** The range of one file, and of two in order. */
  lemma RangeOfTwo(f: File, g: File)
    requires f.smallest.user < g.smallest.user && f.largest.user < g.largest.user
    ensures IsSmallest(f.smallest, [f, g]) && IsLargest(g.largest, [f, g])
  {
    assert f in [f, g] && g in [f, g];
  }

  lemma CoversAt(next: seq<File>, inputs: seq<File>, r: seq<File>, smallest: InternalKey, largest: InternalKey)
    requires CoversNext(next, inputs, r) && IsSmallest(smallest, inputs) && IsLargest(largest, inputs)
    ensures r == Overlapping(next, Some(smallest.user), Some(largest.user))
  {
    hide IsSmallest, IsLargest;
    var s, l :| IsSmallest(s, inputs) && IsLargest(l, inputs) && r == Overlapping(next, Some(s.user), Some(l.user));
    SmallestUnique(inputs, s, smallest);
    SmallestUnique(inputs, l, largest);
  }

  lemma OverlappingTwo(f: File, g: File, begin: Option<nat>, end: Option<nat>)
    requires Overlaps(f, begin, end) && Overlaps(g, begin, end)
    ensures Overlapping([f], begin, end) == [f] && Overlapping([f, g], begin, end) == [f, g]
  {
    hide Overlaps;
    assert [f][..0] == [] && [f, g][..1] == [f];
  }

  /** Files of a level that has no boundary file for their largest key stay as they are. */
  lemma NotExtended(levelFiles: seq<File>, files: seq<File>, r: seq<File>, largest: InternalKey)
    requires Extended(levelFiles, files, r) && IsLargest(largest, files)
    requires forall f <- levelFiles :: f.smallest.user != largest.user
    ensures r == files
  {
    assert r[..|files|] == files;
  }

  /** Files a (users 1 to 5) and b (6 to 8) of a level, and c (4 to 9) of the next. */
  ghost predicate Example(a: File, b: File, c: File) {
    && a.smallest.user == 1 && a.largest.user == 5
    && b.smallest.user == 6 && b.largest.user == 8
    && c.smallest.user == 4 && c.largest.user == 9
  }

  lemma ExampleRanges(a: File, b: File, c: File)
    requires Example(a, b, c)
    ensures IsSmallest(a.smallest, [a]) && IsLargest(a.largest, [a])
    ensures IsSmallest(a.smallest, [a, b]) && IsLargest(b.largest, [a, b])
    ensures IsSmallest(a.smallest, [a, c]) && IsLargest(c.largest, [a, c])
  {
    hide IsSmallest, IsLargest;
    RangeOfOne(a);
    RangeOfTwo(a, b);
    RangeOfTwo(a, c);
  }

  lemma ExampleOverlaps(a: File, b: File, c: File)
    requires Example(a, b, c)
    ensures Overlapping([c], Some(a.smallest.user), Some(a.largest.user)) == [c]
    ensures Overlapping([c], Some(a.smallest.user), Some(b.largest.user)) == [c]
    ensures Overlapping([a, b], Some(a.smallest.user), Some(c.largest.user)) == [a, b]
  {
    hide Overlapping;
    OverlappingTwo(c, c, Some(1), Some(5));
    OverlappingTwo(c, c, Some(1), Some(8));
    OverlappingTwo(a, b, Some(1), Some(9));
  }

  lemma ExamplePlain(a: File, b: File, c: File, plain0: seq<File>, plain1: seq<File>)
    requires Example(a, b, c) && Extended([a, b], [a], plain0) && CoversNext([c], plain0, plain1)
    ensures plain0 == [a] && plain1 == [c]
  {
    hide IsSmallest, IsLargest, Overlapping, Extended, CoversNext;
    ExampleRanges(a, b, c);
    ExampleOverlaps(a, b, c);
    NotExtended([a, b], [a], plain0, a.largest);
    CoversAt([c], [a], plain1, a.smallest, a.largest);
  }

  lemma WidenedFrom(level: nat, files: seq<File>, all: seq<File>, r: seq<File>)
    returns (smallest: InternalKey, largest: InternalKey, seed: seq<File>)
    requires level > 0 && Widened(level, files, all, r)
    ensures IsSmallest(smallest, all) && IsLargest(largest, all) && Extended(files, seed, r)
    ensures seed == Overlapping(files, Some(smallest.user), Some(largest.user))
  {
    hide IsSmallest, IsLargest, Extended, Overlapping, ClosedFor;
    smallest, largest, seed :| IsSmallest(smallest, all) && IsLargest(largest, all)
      && Overlapped(level, files, Some(smallest.user), Some(largest.user), seed) && Extended(files, seed, r);
  }

  lemma ExampleWidened(a: File, b: File, c: File, wide0: seq<File>)
    requires Example(a, b, c) && Widened(1, [a, b], [a, c], wide0)
    ensures Extended([a, b], [a, b], wide0)
  {
    hide *;
    var smallest, largest, seed := WidenedFrom(1, [a, b], [a, c], wide0);
    ExampleRanges(a, b, c);
    SmallestUnique([a, c], smallest, a.smallest);
    SmallestUnique([a, c], largest, c.largest);
    ExampleOverlaps(a, b, c);
  }

  lemma ExampleEnds(a: File, b: File, c: File, wide0: seq<File>)
    requires Example(a, b, c) && Extended([a, b], [a, b], wide0)
    ensures wide0 == [a, b]
  {
    ExampleRanges(a, b, c);
    hide IsSmallest, IsLargest, Extended;
    NotExtended([a, b], [a, b], wide0, b.largest);
  }

  lemma ExampleWide(a: File, b: File, c: File, wide0: seq<File>, wide1: seq<File>)
    requires Example(a, b, c) && Widened(1, [a, b], [a, c], wide0) && CoversNext([c], wide0, wide1)
    ensures wide0 == [a, b] && wide1 == [c]
  {
    hide *;
    ExampleWidened(a, b, c, wide0);
    ExampleEnds(a, b, c, wide0);
    ExampleRanges(a, b, c);
    CoversAt([c], [a, b], wide1, a.smallest, b.largest);
    ExampleOverlaps(a, b, c);
  }

  /** A compaction of a needs c; b is taken along exactly if all three files stay below the limit. */
  lemma ExpandsBelowLimit(a: File, b: File, c: File, byteLimit: nat, in0: seq<File>, in1: seq<File>)
    requires Example(a, b, c) && SetUp(1, [a, b], [c], [a], byteLimit, in0, in1)
    ensures in1 == [c] && in0 == if a.size + b.size + c.size < byteLimit then [a, b] else [a]
  {
    hide Widened, CoversNext, TotalFileSize, Extended, Example;
    var plain0, plain1 :| Extended([a, b], [a], plain0) && CoversNext([c], plain0, plain1)
      && WiderIff(1, [a, b], [c], plain0, plain1, byteLimit, in0, in1);
    ExamplePlain(a, b, c, plain0, plain1);
    var wide0, wide1 :| Widened(1, [a, b], [a] + [c], wide0) && CoversNext([c], wide0, wide1)
      && (if |wide0| > |plain0| && TotalFileSize(plain1) + TotalFileSize(wide0) < byteLimit && |wide1| == |plain1|
          then in0 == wide0 else in0 == plain0);
    hide WiderIff, SetUp;
    assert [a] + [c] == [a, c];
    ExampleWide(a, b, c, wide0, wide1);
    SizeOfOne(c);
    SizeOfTwo(a, b);
  }

  lemma SizeOfOne(f: File)
    ensures TotalFileSize([f]) == f.size
  {
    assert [f][1..] == [];
  }

  lemma SizeOfTwo(f: File, g: File)
    ensures TotalFileSize([f, g]) == f.size + g.size
  {
    assert [f, g][1..] == [g];
    SizeOfOne(g);
  }

  lemma PlainOnly(level: nat, files: seq<File>, next: seq<File>, plain0: seq<File>, byteLimit: nat)
    ensures WiderIff(level, files, next, plain0, [], byteLimit, plain0, [])
  {
  }

  /** Boundary files of a sorted level are found in only one way. */
  lemma ExtendedUnique(levelFiles: seq<File>, files: seq<File>, a: seq<File>, b: seq<File>)
    requires PairwiseApart(levelFiles) && files != []
    requires (forall f <- a :: f in levelFiles) && (forall f <- b :: f in levelFiles)
    requires Extended(levelFiles, files, a) && Extended(levelFiles, files, b)
    ensures a == b
  {
    if |a| <= |b| {
      SameStart(levelFiles, files, a, b, |a|);
      NoneFollows(levelFiles, files, a, b);
    } else {
      SameStart(levelFiles, files, b, a, |b|);
      NoneFollows(levelFiles, files, b, a);
    }
  }

  lemma NoneFollows(levelFiles: seq<File>, files: seq<File>, a: seq<File>, b: seq<File>)
    requires files != [] && Extended(levelFiles, files, a) && Extended(levelFiles, files, b) && a <= b
    requires forall f <- b :: f in levelFiles
    ensures a == b
  {
    hide IsLargest, IsSmallest;
    if |a| < |b| {
      assert b[..|a|] == a && b[|a|] in levelFiles;
      var smallest, largest := RangeExists(a);
    }
  }

  lemma {:induction false} SameStart(levelFiles: seq<File>, files: seq<File>, a: seq<File>, b: seq<File>, n: nat)
    requires PairwiseApart(levelFiles) && files != [] && |files| <= n <= |a| <= |b|
    requires (forall f <- a :: f in levelFiles) && (forall f <- b :: f in levelFiles)
    requires Extended(levelFiles, files, a) && Extended(levelFiles, files, b)
    ensures a[..n] == b[..n]
  {
    hide IsLargest, IsSmallest, PairwiseApart, FirstBoundary, IsBoundary;
    if n > |files| {
      SameStart(levelFiles, files, a, b, n - 1);
      var smallest, largest := RangeExists(a[..n - 1]);
      OneFirst(levelFiles, largest, a[n - 1], b[n - 1]);
    }
  }

  lemma OneFirst(levelFiles: seq<File>, largest: InternalKey, f: File, g: File)
    requires PairwiseApart(levelFiles) && f in levelFiles && g in levelFiles
    requires FirstBoundary(f, levelFiles, largest) && FirstBoundary(g, levelFiles, largest)
    ensures f == g
  {
    assert f.Valid() && g.Valid();
    FileRange(f, f.entries[0]);
    FileRange(g, g.entries[0]);
  }

  lemma ValidRanges(files: seq<File>)
    requires AllValid(files)
    ensures RangesValid(files)
  {
    forall i | 0 <= i < |files|
      ensures files[i].smallest.user <= files[i].largest.user
    {
      FileRange(files[i], files[i].entries[0]);
    }
  }

  /** Growing the range of the inputs keeps every input. */
  lemma HullKeeps(files: seq<File>, in0: seq<File>, in1: seq<File>, allStart: InternalKey, allLimit: InternalKey,
                  b: Option<nat>, e: Option<nat>)
    requires RangesValid(files) && in0 != [] && forall f <- in0 :: f in files
    requires IsSmallest(allStart, in0 + in1) && IsLargest(allLimit, in0 + in1)
    requires b.Some? && b.value <= allStart.user && e.Some? && allLimit.user <= e.value
    ensures forall f <- in0 :: f in Overlapping(files, b, e)
    ensures Overlapping(files, b, e) != []
  {
    forall f <- in0
      ensures f in Overlapping(files, b, e)
    {
      assert f in in0 + in1;
    }
    assert in0[0] in Overlapping(files, b, e);
  }
}

/**
 The files a compaction starts from (db/version_set.cc: PickCompaction, CompactRange).
 */
module Picking {
  import opened Format
  import opened Version
  import opened Inputs

  /** One file of a sorted level leaves no gap. */
  lemma SeedOfOne(level: nat, files: seq<File>, f: File)
    requires level > 0 && PairwiseApart(files) && f in files
    ensures Seed(level, files, [f])
  {
    hide Compare, Sorted;
    forall smallest, largest, g <- files | IsSmallest(smallest, [f]) && IsLargest(largest, [f]) && g !in [f]
      ensures Compare(g.largest, smallest) < 0 || Compare(largest, g.smallest) < 0
    {
      assert g != f;
    }
  }

  lemma SortedAppend(files: seq<File>, f: File)
    requires SortedDisjoint(files) && f.Valid()
    requires forall i :: 0 <= i < |files| ==> Compare(files[i].largest, f.smallest) < 0
    ensures SortedDisjoint(files + [f])
  {
    hide Compare, Sorted;
  }

  lemma SortedInit(files: seq<File>)
    requires SortedDisjoint(files) && files != []
    ensures SortedDisjoint(files[..|files| - 1])
    ensures forall f <- files[..|files| - 1] :: Compare(f.largest, files[|files| - 1].smallest) < 0
  {
    hide Compare, Sorted;
  }

  lemma {:induction false} OverlappingSorted(files: seq<File>, begin: Option<nat>, end: Option<nat>)
    requires SortedDisjoint(files)
    ensures SortedDisjoint(Overlapping(files, begin, end))
  {
    hide Compare, Overlaps, Sorted;
    if files != [] {
      var n := |files| - 1;
      SortedInit(files);
      OverlappingSorted(files[..n], begin, end);
      var r := Overlapping(files[..n], begin, end);
      forall i | 0 <= i < |r| ensures Compare(r[i].largest, files[n].smallest) < 0 {
        assert r[i] in r;
      }
      assert files[n].Valid();
      hide SortedDisjoint;
      SortedAppend(r, files[n]);
    }
  }

  /** Nor do the first files of those that overlap a range. */
  lemma SeedOfPrefix(level: nat, files: seq<File>, begin: Option<nat>, end: Option<nat>, n: nat)
    requires level > 0 && SortedDisjoint(files) && 0 < n <= |Overlapping(files, begin, end)|
    ensures Seed(level, files, Overlapping(files, begin, end)[..n])
  {
    hide Compare, Sorted, Overlapping, Overlaps;
    var all := Overlapping(files, begin, end);
    var r := all[..n];
    OverlappingSorted(files, begin, end);
    forall i, j | 0 <= i < j < |r| ensures r[i] != r[j] { ApartDiffer(r[i], r[j]); }
    forall f <- r ensures f in files { assert f in all; }
    forall smallest, largest, f <- files | IsSmallest(smallest, r) && IsLargest(largest, r) && f !in r
      ensures Compare(f.largest, smallest) < 0 || Compare(largest, f.smallest) < 0
    {
      var low :| low in r && low.smallest == smallest;
      var high :| high in r && high.largest == largest;
      if f in all {
        AfterPrefix(all, n, f, high);
      } else {
        SortedIsApart(files);
        NotBetween(files, begin, end, f, low, high);
      }
    }
  }

  lemma ApartDiffer(f: File, g: File)
    requires f.Valid() && Compare(f.largest, g.smallest) < 0
    ensures f != g
  {
    FileRange(f, f.entries[0]);
  }

  lemma AfterPrefix(all: seq<File>, n: nat, f: File, high: File)
    requires SortedDisjoint(all) && n <= |all| && f in all && f !in all[..n] && high in all[..n]
    ensures Compare(high.largest, f.smallest) < 0
  {
    hide Compare, Sorted;
    assert all == all[..n] + all[n..];
    var i :| 0 <= i < |all| - n && all[n..][i] == f;
    assert all[n + i] == f;
    var j :| 0 <= j < n && all[..n][j] == high;
  }

  /** The file a size compaction starts from: the first that ends after the compaction
      pointer, or the first of the level. */
  method PickFile(files: seq<File>, compactPointer: Option<InternalKey>) returns (f: File)
    requires files != []
    ensures compactPointer.None? || (forall g <- files :: Compare(g.largest, compactPointer.value) <= 0) ==>
      f == files[0]
    ensures forall i ::
      (0 <= i < |files| && compactPointer.Some? && Compare(files[i].largest, compactPointer.value) > 0
       && forall j :: 0 <= j < i ==> Compare(files[j].largest, compactPointer.value) <= 0)
      ==> f == files[i]
  {
    hide Compare;
    for i := 0 to |files|
      invariant compactPointer.Some? || i == 0
      invariant forall j :: 0 <= j < i ==> Compare(files[j].largest, compactPointer.value) <= 0
    {
      if compactPointer.None? || Compare(files[i].largest, compactPointer.value) > 0 {
        return files[i];
      }
    }
    f := files[0];
  }

  /** VersionSet::PickCompaction up to SetupOtherInputs, from the picked file. */
  method PickCompaction(level: nat, files: seq<File>, picked: File) returns (inputs: seq<File>)
    requires AllValid(files) && Distinct(files) && (level > 0 ==> PairwiseApart(files)) && picked in files
    ensures Seed(level, files, inputs) && picked in inputs
    ensures level > 0 ==> inputs == [picked]
    ensures level == 0 ==> Overlapped(0, files, Some(picked.smallest.user), Some(picked.largest.user), inputs)
  {
    hide Seed, PairwiseApart, Overlapping, Overlapped, ClosedFor;
    inputs := [picked];
    if level == 0 {
      ValidRanges(files);
      var smallest, largest := GetRange(inputs);
      ghost var b, e;
      inputs, b, e := GetOverlappingInputs(0, files, Some(smallest.user), Some(largest.user));
      assert picked in [picked];
      ReturnsOverlapped(0, files, Some(smallest.user), Some(largest.user), inputs, b, e);
      PickedOverlaps(files, picked, smallest, largest, b, e);
      SeedFromOverlap(0, files, b, e);
    } else {
      SeedOfOne(level, files, picked);
    }
  }

  lemma PickedOverlaps(files: seq<File>, picked: File, smallest: InternalKey, largest: InternalKey, b: Option<nat>,
                       e: Option<nat>)
    requires picked in files && RangesValid(files)
    requires IsSmallest(smallest, [picked]) && IsLargest(largest, [picked])
    requires b.Some? && e.Some? && b.value <= smallest.user && largest.user <= e.value
    ensures picked in Overlapping(files, b, e)
  {
    assert picked in [picked];
    var i :| 0 <= i < |files| && files[i] == picked;
  }

  /** VersionSet::CompactRange up to SetupOtherInputs: above level 0 the list is cut once
      it holds enough bytes. */
  method CompactRange(level: nat, files: seq<File>, begin: Option<nat>, end: Option<nat>, limit: nat)
    returns (inputs: seq<File>)
    requires AllValid(files) && Distinct(files) && (level > 0 ==> SortedDisjoint(files))
    ensures inputs == [] <==> Overlapping(files, begin, end) == []
    ensures inputs != [] ==> Seed(level, files, inputs)
    ensures level > 0 ==> inputs <= Overlapping(files, begin, end)
    ensures level > 0 && inputs != Overlapping(files, begin, end) ==> TotalFileSize(inputs) >= limit
    ensures level > 0 ==> forall n :: 0 < n < |inputs| ==> TotalFileSize(inputs[..n]) < limit
    ensures level == 0 ==> Overlapped(0, files, begin, end, inputs)
  {
    hide Seed, SortedDisjoint, Overlapping, TotalFileSize, Overlapped, ClosedFor;
    ValidRanges(files);
    ghost var b, e;
    inputs, b, e := GetOverlappingInputs(level, files, begin, end);
    WiderOverlaps(files, begin, end, b, e);
    ReturnsOverlapped(level, files, begin, end, inputs, b, e);
    assert level == 0 && Overlapping(files, begin, end) == [] ==> inputs == [] by {
      assert inputs == [] || inputs[0] in inputs;
      if level == 0 && Overlapping(files, begin, end) == [] {
        NoneForced(files, begin, end);
        assert forall f <- inputs :: f in {};
      }
    }
    if inputs == [] {
      return;
    }
    if level == 0 {
      SeedFromOverlap(0, files, b, e);
      return;
    }
    var all := inputs;
    SeedOfPrefix(level, files, begin, end, |all|);
    assert all[..|all|] == all;
    var total := 0;
    assert TotalFileSize(all[..0]) == 0 by { NoSize(); }
    for i := 0 to |all|
      invariant inputs == all && total == TotalFileSize(all[..i])
      invariant forall n :: 0 < n <= i ==> TotalFileSize(all[..n]) < limit
    {
      SizeAppend(all, i);
      total := total + all[i].size;
      if total >= limit {
        inputs := all[..i + 1];
        assert forall n :: 0 < n < |inputs| ==> inputs[..n] == all[..n];
        SeedOfPrefix(level, files, begin, end, i + 1);
        break;
      }
    }
  }

  lemma NoSize()
    ensures TotalFileSize([]) == 0
  {
  }

  lemma {:induction false} SizeAppend(files: seq<File>, i: nat)
    requires i < |files|
    ensures TotalFileSize(files[..i + 1]) == TotalFileSize(files[..i]) + files[i].size
  {
    if i == 0 {
      assert files[..1] == [files[0]] && files[..0] == [] && [files[0]][1..] == [];
    } else {
      SizeAppend(files[1..], i - 1);
      assert files[..i + 1][1..] == files[1..][..i] && files[..i][1..] == files[1..][..i - 1];
    }
  }

  lemma NoneForced(files: seq<File>, begin: Option<nat>, end: Option<nat>)
    requires Overlapping(files, begin, end) == []
    ensures ClosedFor({}, files, begin, end)
  {
    assert forall f <- files :: Overlaps(f, begin, end) ==> f in Overlapping(files, begin, end);
  }

  lemma WiderOverlaps(files: seq<File>, begin: Option<nat>, end: Option<nat>, b: Option<nat>, e: Option<nat>)
    requires b.Some? == begin.Some? && (begin.Some? ==> b.value <= begin.value)
    requires e.Some? == end.Some? && (end.Some? ==> end.value <= e.value)
    ensures Overlapping(files, b, e) == [] ==> Overlapping(files, begin, end) == []
  {
    var r := Overlapping(files, begin, end);
    assert forall f <- r :: f in Overlapping(files, b, e);
    assert r != [] ==> r[0] in r;
  }
}

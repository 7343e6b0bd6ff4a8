/**
 The merging iterator (table/merger.cc): several sorted children, moved so that
 together they behave as one cursor on the sorted union, in both directions.
 */
module Merger {
  import opened Format
  import opened Version

  datatype Bound = Unbounded | Inclusive(key: InternalKey) | Exclusive(key: InternalKey)

  ghost predicate AfterLow(low: Bound, e: Entry) {
    match low
    case Unbounded => true
    case Inclusive(k) => Compare(e.key, k) >= 0
    case Exclusive(k) => Compare(e.key, k) > 0
  }

  ghost predicate BeforeHigh(high: Bound, e: Entry) {
    match high
    case Unbounded => true
    case Inclusive(k) => Compare(e.key, k) <= 0
    case Exclusive(k) => Compare(e.key, k) < 0
  }

  ghost predicate InSome(children: seq<seq<Entry>>, e: Entry) {
    exists i :: 0 <= i < |children| && e in children[i]
  }

  /** `e` is the first entry of the union within the bound. */
  ghost predicate IsFirst(children: seq<seq<Entry>>, low: Bound, e: Entry) {
    && InSome(children, e) && AfterLow(low, e)
    && forall i, d :: 0 <= i < |children| && d in children[i] && AfterLow(low, d) ==> Compare(e.key, d.key) <= 0
  }

  ghost predicate NoneAfter(children: seq<seq<Entry>>, low: Bound) {
    forall i, d :: 0 <= i < |children| && d in children[i] ==> !AfterLow(low, d)
  }

  /** `e` is the last entry of the union within the bound. */
  ghost predicate IsLast(children: seq<seq<Entry>>, high: Bound, e: Entry) {
    && InSome(children, e) && BeforeHigh(high, e)
    && forall i, d :: 0 <= i < |children| && d in children[i] && BeforeHigh(high, d) ==> Compare(d.key, e.key) <= 0
  }

  ghost predicate NoneBefore(children: seq<seq<Entry>>, high: Bound) {
    forall i, d :: 0 <= i < |children| && d in children[i] ==> !BeforeHigh(high, d)
  }

  /** A child stands on its first entry within the bound, or past its end. */
  ghost predicate AtFirst(child: seq<Entry>, p: nat, low: Bound) {
    p <= |child| && forall j :: 0 <= j < |child| ==> (p <= j <==> AfterLow(low, child[j]))
  }

  /** A child stands on its last entry within the bound; if it has none it is not valid. */
  ghost predicate AtLast(child: seq<Entry>, p: nat, high: Bound) {
    p <= |child| && forall j :: 0 <= j < |child| ==> ((p < |child| && j <= p) <==> BeforeHigh(high, child[j]))
  }

  /** No key occurs in two children. */
  ghost predicate DistinctKeys(children: seq<seq<Entry>>) {
    forall i, j, d, e ::
      0 <= i < |children| && 0 <= j < |children| && i != j && d in children[i] && e in children[j] ==>
      Compare(d.key, e.key) != 0
  }

  ghost predicate AllSorted(children: seq<seq<Entry>>) {
    forall i :: 0 <= i < |children| ==> Sorted(children[i])
  }

  class MergingIterator {
    const children: seq<seq<Entry>>

    /** Where each child stands; a child's length when it is not valid. */
    var pos: seq<nat>

    var current: Option<nat>
    var reverse: bool

    ghost predicate Inner()
      reads this
    {
      AllSorted(children) && DistinctKeys(children) && |pos| == |children|
    }

    ghost predicate Valid()
      reads this
    {
      && Inner()
      && (current.Some? ==>
          && current.value < |children| && pos[current.value] < |children[current.value]|
          && forall i :: 0 <= i < |children| ==>
            if reverse then AtLast(children[i], pos[i], Inclusive(Here().key))
            else AtFirst(children[i], pos[i], Inclusive(Here().key)))
    }

    /** The entry the iterator stands on. */
    ghost function Here(): Entry
      reads this
      requires |pos| == |children| && current.Some? && current.value < |children|
      requires pos[current.value] < |children[current.value]|
    {
      children[current.value][pos[current.value]]
    }

    constructor (children: seq<seq<Entry>>)
      requires AllSorted(children) && DistinctKeys(children)
      ensures Valid() && current.None? && this.children == children
    {
      this.children := children;
      pos := seq(|children|, i => 0);
      current, reverse := None, false;
    }

    /** MergingIterator::FindSmallest. */
    method FindSmallest(ghost low: Bound)
      requires Inner() && forall i :: 0 <= i < |children| ==> AtFirst(children[i], pos[i], low)
      modifies `current
      ensures current.Some? ==> current.value < |children| && pos[current.value] < |children[current.value]|
      ensures if current.Some? then IsFirst(children, low, Here()) else NoneAfter(children, low)
      ensures forall i :: current.Some? && 0 <= i < |children| ==> AtFirst(children[i], pos[i], Inclusive(Here().key))
    {
      hide Sorted, DistinctKeys, Compare, IsFirst, NoneAfter, AtFirst;
      var smallest: Option<nat> := None;
      for i := 0 to |children|
        invariant smallest.Some? ==> smallest.value < i && pos[smallest.value] < |children[smallest.value]|
        invariant forall j :: 0 <= j < i && pos[j] < |children[j]| ==>
          smallest.Some? && Compare(children[smallest.value][pos[smallest.value]].key, children[j][pos[j]].key) <= 0
      {
        if pos[i] < |children[i]| {
          var k := children[i][pos[i]].key;
          if smallest.None? {
            CompareSelf(k);
            smallest := Some(i);
          } else if Compare(k, children[smallest.value][pos[smallest.value]].key) < 0 {
            CompareBelow(children, pos, i, k, children[smallest.value][pos[smallest.value]].key);
            smallest := Some(i);
          } else {
            CompareFlip(k, children[smallest.value][pos[smallest.value]].key);
          }
        }
      }
      current := smallest;
      SmallestIsFirst(children, pos, low, current);
    }

    /** MergingIterator::FindLargest. */
    method FindLargest(ghost high: Bound)
      requires Inner() && forall i :: 0 <= i < |children| ==> AtLast(children[i], pos[i], high)
      modifies `current
      ensures current.Some? ==> current.value < |children| && pos[current.value] < |children[current.value]|
      ensures if current.Some? then IsLast(children, high, Here()) else NoneBefore(children, high)
      ensures forall i :: current.Some? && 0 <= i < |children| ==> AtLast(children[i], pos[i], Inclusive(Here().key))
    {
      hide Sorted, DistinctKeys, Compare, IsLast, NoneBefore, AtLast;
      var largest: Option<nat> := None;
      for i := |children| downto 0
        invariant largest.Some? ==> i <= largest.value < |children| && pos[largest.value] < |children[largest.value]|
        invariant forall j :: i <= j < |children| && pos[j] < |children[j]| ==>
          largest.Some? && Compare(children[j][pos[j]].key, children[largest.value][pos[largest.value]].key) <= 0
      {
        if pos[i] < |children[i]| {
          var k := children[i][pos[i]].key;
          if largest.None? {
            CompareSelf(k);
            largest := Some(i);
          } else if Compare(k, children[largest.value][pos[largest.value]].key) > 0 {
            CompareAbove(children, pos, i + 1, k, children[largest.value][pos[largest.value]].key);
            largest := Some(i);
          }
        }
      }
      current := largest;
      LargestIsLast(children, pos, high, current);
    }

    method SeekToFirst()
      requires Valid()
      modifies this
      ensures Valid() && if current.Some? then IsFirst(children, Unbounded, Here()) else NoneAfter(children, Unbounded)
    {
      hide Sorted, DistinctKeys, Compare, IsFirst, NoneAfter;
      for i := 0 to |children|
        invariant Inner() && forall j :: 0 <= j < i ==> AtFirst(children[j], pos[j], Unbounded)
      {
        pos := pos[i := 0];
      }
      FindSmallest(Unbounded);
      reverse := false;
    }

    method SeekToLast()
      requires Valid()
      modifies this
      ensures Valid() && if current.Some? then IsLast(children, Unbounded, Here()) else NoneBefore(children, Unbounded)
    {
      hide Sorted, DistinctKeys, Compare, IsLast, NoneBefore;
      for i := 0 to |children|
        invariant Inner() && forall j :: 0 <= j < i ==> AtLast(children[j], pos[j], Unbounded)
      {
        pos := pos[i := if children[i] == [] then 0 else |children[i]| - 1];
      }
      FindLargest(Unbounded);
      reverse := true;
    }

    method Seek(target: InternalKey)
      requires Valid()
      modifies this
      ensures Valid()
      ensures if current.Some? then IsFirst(children, Inclusive(target), Here())
              else NoneAfter(children, Inclusive(target))
    {
      hide Sorted, DistinctKeys, Compare, IsFirst, NoneAfter, AtFirst;
      for i := 0 to |children|
        invariant Inner() && forall j :: 0 <= j < i ==> AtFirst(children[j], pos[j], Inclusive(target))
      {
        SeekIsAtFirst(children[i], target);
        pos := pos[i := SeekIndex(children[i], target)];
      }
      FindSmallest(Inclusive(target));
      reverse := false;
    }

    method Next()
      requires Valid() && current.Some?
      modifies this
      ensures Valid()
      ensures var low := Exclusive(old(Here().key));
        if current.Some? then IsFirst(children, low, Here()) else NoneAfter(children, low)
    {
      hide Sorted, DistinctKeys, Compare, IsFirst, NoneAfter, AtFirst, AtLast;
      var c := current.value;
      var key := children[c][pos[c]].key;
      ghost var at := pos[c];
      if reverse {
        for i := 0 to |children|
          invariant Inner() && pos[c] == at
          invariant forall j :: 0 <= j < i && j != c ==> AtFirst(children[j], pos[j], Exclusive(key))
        {
          if i != c {
            SeekIsAtFirst(children[i], key);
            var p := SeekIndex(children[i], key);
            OthersDiffer(children, c, at, i, p);
            if p < |children[i]| && Compare(key, children[i][p].key) == 0 {
              p := p + 1;
            }
            pos := pos[i := p];
          }
        }
        reverse := false;
      } else {
        forall i | 0 <= i < |children| && i != c
          ensures AtFirst(children[i], pos[i], Exclusive(key))
        {
          OthersDiffer(children, c, at, i, pos[i]);
        }
      }
      StepPast(children[c], at);
      pos := pos[c := pos[c] + 1];
      FindSmallest(Exclusive(key));
    }

    method Prev()
      requires Valid() && current.Some?
      modifies this
      ensures Valid()
      ensures var high := Exclusive(old(Here().key));
        if current.Some? then IsLast(children, high, Here()) else NoneBefore(children, high)
    {
      hide Sorted, DistinctKeys, Compare, IsLast, NoneBefore, AtFirst, AtLast;
      var c := current.value;
      var key := children[c][pos[c]].key;
      ghost var at := pos[c];
      if !reverse {
        for i := 0 to |children|
          invariant Inner() && pos[c] == at
          invariant forall j :: 0 <= j < i && j != c ==> AtLast(children[j], pos[j], Exclusive(key))
        {
          if i != c {
            SeekIsAtFirst(children[i], key);
            var p := SeekIndex(children[i], key);
            BackFromFirst(children[i], p, key);
            if p < |children[i]| {
              p := if p == 0 then |children[i]| else p - 1;
            } else {
              p := if children[i] == [] then 0 else |children[i]| - 1;
            }
            pos := pos[i := p];
          }
        }
        reverse := true;
      } else {
        forall i | 0 <= i < |children| && i != c
          ensures AtLast(children[i], pos[i], Exclusive(key))
        {
          OthersDifferBack(children, c, at, i, pos[i]);
        }
      }
      StepBefore(children[c], at);
      pos := pos[c := if pos[c] == 0 then |children[c]| else pos[c] - 1];
      FindLargest(Exclusive(key));
    }
  }

  lemma SeekIsAtFirst(child: seq<Entry>, key: InternalKey)
    requires Sorted(child)
    ensures AtFirst(child, SeekIndex(child, key), Inclusive(key))
  {
    hide Compare;
    var p := SeekIndex(child, key);
    forall j | p < j < |child|
      ensures Compare(child[j].key, key) >= 0
    {
      CompareFlip(child[p].key, key);
      CompareFlip(child[j].key, key);
      CompareChain(key, child[p].key, child[j].key);
    }
    forall j | 0 <= j < p
      ensures !(Compare(child[j].key, key) >= 0)
    {
    }
  }

  lemma OthersDiffer(children: seq<seq<Entry>>, c: nat, at: nat, i: nat, p: nat)
    requires DistinctKeys(children) && c < |children| && i < |children| && i != c && at < |children[c]|
    requires AtFirst(children[i], p, Inclusive(children[c][at].key))
    ensures AtFirst(children[i], p, Exclusive(children[c][at].key))
    ensures p < |children[i]| ==> Compare(children[c][at].key, children[i][p].key) != 0
  {
    hide Compare;
    assert children[c][at] in children[c];
    forall j | 0 <= j < |children[i]|
      ensures Compare(children[i][j].key, children[c][at].key) != 0
      ensures Compare(children[c][at].key, children[i][j].key) != 0
    {
      assert children[i][j] in children[i];
    }
  }

  lemma OthersDifferBack(children: seq<seq<Entry>>, c: nat, at: nat, i: nat, p: nat)
    requires DistinctKeys(children) && c < |children| && i < |children| && i != c && at < |children[c]|
    requires AtLast(children[i], p, Inclusive(children[c][at].key))
    ensures AtLast(children[i], p, Exclusive(children[c][at].key))
  {
    hide Compare;
    assert children[c][at] in children[c];
    forall j | 0 <= j < |children[i]|
      ensures Compare(children[i][j].key, children[c][at].key) != 0
    {
      assert children[i][j] in children[i];
    }
  }

  lemma StepPast(child: seq<Entry>, p: nat)
    requires Sorted(child) && p < |child|
    ensures AtFirst(child, p + 1, Exclusive(child[p].key))
  {
    hide Compare;
    CompareSelf(child[p].key);
    forall j | 0 <= j < |child|
      ensures j < p ==> Compare(child[j].key, child[p].key) < 0
      ensures p < j ==> Compare(child[j].key, child[p].key) > 0
    {
      CompareFlip(child[j].key, child[p].key);
    }
  }

  lemma StepBefore(child: seq<Entry>, p: nat)
    requires Sorted(child) && p < |child|
    ensures AtLast(child, if p == 0 then |child| else p - 1, Exclusive(child[p].key))
  {
    hide Compare;
    CompareSelf(child[p].key);
    forall j | 0 <= j < |child|
      ensures j < p ==> Compare(child[j].key, child[p].key) < 0
      ensures p < j ==> Compare(child[j].key, child[p].key) > 0
    {
      CompareFlip(child[j].key, child[p].key);
    }
  }

  lemma BackFromFirst(child: seq<Entry>, p: nat, key: InternalKey)
    requires AtFirst(child, p, Inclusive(key))
    ensures AtLast(child, if p == 0 then |child| else p - 1, Exclusive(key))
  {
    hide Compare;
  }

  lemma CompareAbove(children: seq<seq<Entry>>, pos: seq<nat>, n: nat, k: InternalKey, s: InternalKey)
    requires |pos| == |children| && n <= |children| && Compare(k, s) > 0
    requires forall j :: n <= j < |children| && pos[j] < |children[j]| ==> Compare(children[j][pos[j]].key, s) <= 0
    ensures Compare(k, k) == 0
    ensures forall j :: n <= j < |children| && pos[j] < |children[j]| ==> Compare(children[j][pos[j]].key, k) <= 0
  {
  }

  lemma LargestIsLast(children: seq<seq<Entry>>, pos: seq<nat>, high: Bound, current: Option<nat>)
    requires AllSorted(children) && |pos| == |children|
    requires forall i :: 0 <= i < |children| ==> AtLast(children[i], pos[i], high)
    requires current.Some? ==> current.value < |children| && pos[current.value] < |children[current.value]|
    requires forall j :: 0 <= j < |children| && pos[j] < |children[j]| ==>
      current.Some? && Compare(children[j][pos[j]].key, children[current.value][pos[current.value]].key) <= 0
    ensures current.None? ==> NoneBefore(children, high)
    ensures current.Some? ==> IsLast(children, high, children[current.value][pos[current.value]])
    ensures forall i :: current.Some? && 0 <= i < |children| ==>
      AtLast(children[i], pos[i], Inclusive(children[current.value][pos[current.value]].key))
  {
    hide Compare;
    if current.Some? {
      var e := children[current.value][pos[current.value]];
      assert e in children[current.value];
      forall i, j | 0 <= i < |children| && 0 <= j < |children[i]|
        ensures pos[i] < |children[i]| && j <= pos[i] ==> Compare(children[i][j].key, e.key) <= 0
        ensures !(pos[i] < |children[i]| && j <= pos[i]) ==> Compare(children[i][j].key, e.key) > 0
      {
        OneEntryBack(children, pos, high, e, i, j);
      }
    }
  }

  lemma OneEntryBack(children: seq<seq<Entry>>, pos: seq<nat>, high: Bound, e: Entry, i: nat, j: nat)
    requires AllSorted(children) && |pos| == |children| && i < |children| && j < |children[i]|
    requires AtLast(children[i], pos[i], high)
    requires BeforeHigh(high, e)
    requires pos[i] < |children[i]| ==> Compare(children[i][pos[i]].key, e.key) <= 0
    ensures pos[i] < |children[i]| && j <= pos[i] ==> Compare(children[i][j].key, e.key) <= 0
    ensures !(pos[i] < |children[i]| && j <= pos[i]) ==> Compare(children[i][j].key, e.key) > 0
  {
    hide Compare;
    CompareFlip(children[i][j].key, e.key);
    if pos[i] < |children[i]| && j <= pos[i] {
      if j < pos[i] { CompareChain(children[i][j].key, children[i][pos[i]].key, e.key); }
    } else {
      assert !BeforeHigh(high, children[i][j]);
      if high.Inclusive? || high.Exclusive? {
        CompareFlip(e.key, high.key);
        CompareFlip(children[i][j].key, high.key);
        CompareChain(e.key, high.key, children[i][j].key);
      }
    }
  }

  lemma CompareSelf(k: InternalKey)
    ensures Compare(k, k) == 0
  {
  }

  lemma CompareFlip(a: InternalKey, b: InternalKey)
    ensures Compare(a, b) >= 0 <==> Compare(b, a) <= 0
    ensures Compare(a, b) > 0 <==> Compare(b, a) < 0
  {
  }

  lemma CompareChain(a: InternalKey, b: InternalKey, c: InternalKey)
    requires Compare(a, b) <= 0 && Compare(b, c) <= 0
    ensures Compare(a, c) <= 0 && (Compare(a, b) < 0 || Compare(b, c) < 0 ==> Compare(a, c) < 0)
  {
  }

  lemma CompareBelow(children: seq<seq<Entry>>, pos: seq<nat>, n: nat, k: InternalKey, s: InternalKey)
    requires |pos| == |children| && n <= |children| && Compare(k, s) < 0
    requires forall j :: 0 <= j < n && pos[j] < |children[j]| ==> Compare(s, children[j][pos[j]].key) <= 0
    ensures Compare(k, k) == 0
    ensures forall j :: 0 <= j < n && pos[j] < |children[j]| ==> Compare(k, children[j][pos[j]].key) <= 0
  {
  }

  lemma SmallestIsFirst(children: seq<seq<Entry>>, pos: seq<nat>, low: Bound, current: Option<nat>)
    requires AllSorted(children) && |pos| == |children|
    requires forall i :: 0 <= i < |children| ==> AtFirst(children[i], pos[i], low)
    requires current.Some? ==> current.value < |children| && pos[current.value] < |children[current.value]|
    requires forall j :: 0 <= j < |children| && pos[j] < |children[j]| ==>
      current.Some? && Compare(children[current.value][pos[current.value]].key, children[j][pos[j]].key) <= 0
    ensures current.None? ==> NoneAfter(children, low)
    ensures current.Some? ==> IsFirst(children, low, children[current.value][pos[current.value]])
    ensures forall i :: current.Some? && 0 <= i < |children| ==>
      AtFirst(children[i], pos[i], Inclusive(children[current.value][pos[current.value]].key))
  {
    hide Compare;
    if current.None? {
    } else {
      var e := children[current.value][pos[current.value]];
      assert e in children[current.value];
      forall i, j | 0 <= i < |children| && 0 <= j < |children[i]|
        ensures pos[i] <= j ==> Compare(e.key, children[i][j].key) <= 0 && Compare(children[i][j].key, e.key) >= 0
        ensures j < pos[i] ==> Compare(children[i][j].key, e.key) < 0
      {
        OneEntry(children, pos, low, e, i, j);
      }
    }
  }

  lemma OneEntry(children: seq<seq<Entry>>, pos: seq<nat>, low: Bound, e: Entry, i: nat, j: nat)
    requires AllSorted(children) && |pos| == |children| && i < |children| && j < |children[i]|
    requires AtFirst(children[i], pos[i], low)
    requires AfterLow(low, e)
    requires pos[i] < |children[i]| ==> Compare(e.key, children[i][pos[i]].key) <= 0
    ensures pos[i] <= j ==> Compare(e.key, children[i][j].key) <= 0 && Compare(children[i][j].key, e.key) >= 0
    ensures j < pos[i] ==> Compare(children[i][j].key, e.key) < 0
  {
    hide Compare;
    CompareFlip(children[i][j].key, e.key);
    if pos[i] < j {
      CompareChain(e.key, children[i][pos[i]].key, children[i][j].key);
    } else if j < pos[i] {
      assert !AfterLow(low, children[i][j]);
      if low.Inclusive? || low.Exclusive? {
        CompareFlip(e.key, low.key);
        CompareFlip(children[i][j].key, low.key);
        CompareChain(children[i][j].key, low.key, e.key);
      }
    }
  }

  // ---------------------------------------------------------------- one cursor on the sorted union

  ghost predicate IsUnion(children: seq<seq<Entry>>, u: seq<Entry>) {
    Sorted(u) && forall e :: e in u <==> InSome(children, e)
  }

  /** The first entry within a bound is where a single sorted sequence would stand. */
  lemma FirstInUnion(children: seq<seq<Entry>>, u: seq<Entry>, q: nat, low: Bound, r: Option<Entry>)
    requires IsUnion(children, u) && AtFirst(u, q, low)
    requires if r.Some? then IsFirst(children, low, r.value) else NoneAfter(children, low)
    ensures r == if q < |u| then Some(u[q]) else None
  {
    hide Compare;
    assert q < |u| ==> u[q] in u && InSome(children, u[q]);
    if r.Some? {
      var i :| 0 <= i < |u| && u[i] == r.value;
      if i != q {
        CompareFlip(u[q].key, u[i].key);
      }
    }
  }

  lemma LastInUnion(children: seq<seq<Entry>>, u: seq<Entry>, q: nat, high: Bound, r: Option<Entry>)
    requires IsUnion(children, u) && AtLast(u, q, high)
    requires if r.Some? then IsLast(children, high, r.value) else NoneBefore(children, high)
    ensures r == if q < |u| then Some(u[q]) else None
  {
    hide Compare;
    assert q < |u| ==> u[q] in u && InSome(children, u[q]);
    if r.Some? {
      var i :| 0 <= i < |u| && u[i] == r.value;
      if i != q {
        CompareFlip(u[q].key, u[i].key);
      }
    }
  }

  /** Next, Prev and Seek move as an index into the union does. */
  lemma MovesAsCursor(children: seq<seq<Entry>>, u: seq<Entry>, p: nat, after: Option<Entry>, before: Option<Entry>)
    requires IsUnion(children, u) && p < |u|
    requires if after.Some? then IsFirst(children, Exclusive(u[p].key), after.value)
             else NoneAfter(children, Exclusive(u[p].key))
    requires if before.Some? then IsLast(children, Exclusive(u[p].key), before.value)
             else NoneBefore(children, Exclusive(u[p].key))
    ensures after == if p + 1 < |u| then Some(u[p + 1]) else None
    ensures before == if p > 0 then Some(u[p - 1]) else None
  {
    hide Compare, IsFirst, IsLast, NoneAfter, NoneBefore, AtFirst, AtLast, InSome;
    StepPast(u, p);
    FirstInUnion(children, u, p + 1, Exclusive(u[p].key), after);
    StepBefore(u, p);
    LastInUnion(children, u, if p == 0 then |u| else p - 1, Exclusive(u[p].key), before);
  }

  lemma SeeksAsCursor(children: seq<seq<Entry>>, u: seq<Entry>, target: InternalKey, r: Option<Entry>)
    requires IsUnion(children, u)
    requires if r.Some? then IsFirst(children, Inclusive(target), r.value) else NoneAfter(children, Inclusive(target))
    ensures var i := SeekIndex(u, target); r == if i < |u| then Some(u[i]) else None
  {
    hide Compare, IsFirst, NoneAfter, AtFirst, InSome;
    SeekIsAtFirst(u, target);
    FirstInUnion(children, u, SeekIndex(u, target), Inclusive(target), r);
  }

  // ---------------------------------------------------------------- reading the union from front to back

  /** `u` holds what the children hold before the bound. */
  ghost predicate TakenUpTo(children: seq<seq<Entry>>, u: seq<Entry>, low: Bound) {
    Sorted(u) && forall e :: e in u <==> InSome(children, e) && !AfterLow(low, e)
  }

  ghost function StillToCome(children: seq<seq<Entry>>, low: Bound): set<Entry> {
    set i, e | 0 <= i < |children| && e in children[i] && AfterLow(low, e) :: e
  }

  lemma SameKeySameEntry(children: seq<seq<Entry>>, d: Entry, e: Entry)
    requires AllSorted(children) && DistinctKeys(children)
    requires InSome(children, d) && InSome(children, e) && Compare(d.key, e.key) == 0
    ensures d == e
  {
    hide Compare, Sorted;
    var i :| 0 <= i < |children| && d in children[i];
    var j :| 0 <= j < |children| && e in children[j];
    assert i == j;
    SameKeyInChild(children[i], d, e);
  }

  lemma SameKeyInChild(child: seq<Entry>, d: Entry, e: Entry)
    requires Sorted(child) && d in child && e in child && Compare(d.key, e.key) == 0
    ensures d == e
  {
    hide Compare;
    var p :| 0 <= p < |child| && child[p] == d;
    var q :| 0 <= q < |child| && child[q] == e;
    CompareFlip(d.key, e.key);
  }

  lemma BeforeBound(low: Bound, d: Entry, e: Entry)
    requires AfterLow(low, e)
    ensures !AfterLow(low, d) ==> Compare(d.key, e.key) < 0
    ensures AfterLow(Exclusive(e.key), d) ==> AfterLow(low, d)
  {
    hide Compare;
    CompareFlip(d.key, e.key);
    if low.Inclusive? || low.Exclusive? {
      CompareFlip(d.key, low.key);
      CompareFlip(e.key, low.key);
      if !AfterLow(low, d) { CompareChain(d.key, low.key, e.key); }
      if AfterLow(Exclusive(e.key), d) { CompareChain(low.key, e.key, d.key); }
    }
  }

  lemma TakeFirst(children: seq<seq<Entry>>, u: seq<Entry>, low: Bound, e: Entry)
    requires AllSorted(children) && DistinctKeys(children) && TakenUpTo(children, u, low) && IsFirst(children, low, e)
    ensures TakenUpTo(children, u + [e], Exclusive(e.key))
    ensures StillToCome(children, Exclusive(e.key)) < StillToCome(children, low)
  {
    hide Compare, AfterLow, AllSorted, DistinctKeys;
    forall i | 0 <= i < |u| ensures Compare(u[i].key, e.key) < 0 {
      assert u[i] in u;
      BeforeBound(low, u[i], e);
    }
    forall d
      ensures d in u + [e] <==> InSome(children, d) && !AfterLow(Exclusive(e.key), d)
    {
      BeforeBound(low, d, e);
      ExclusiveMeans(d, e);
      if InSome(children, d) && AfterLow(low, d) && !AfterLow(Exclusive(e.key), d) {
        CompareFlip(d.key, e.key);
        SameKeySameEntry(children, d, e);
      }
    }
    FewerToCome(children, low, e);
  }

  lemma ExclusiveMeans(d: Entry, e: Entry)
    ensures AfterLow(Exclusive(e.key), d) <==> Compare(d.key, e.key) > 0
    ensures !AfterLow(Exclusive(e.key), e)
  {
  }

  lemma FewerToCome(children: seq<seq<Entry>>, low: Bound, e: Entry)
    requires InSome(children, e) && AfterLow(low, e)
    ensures StillToCome(children, Exclusive(e.key)) < StillToCome(children, low)
  {
    hide Compare, AfterLow;
    forall d | d in StillToCome(children, Exclusive(e.key)) ensures d in StillToCome(children, low) {
      BeforeBound(low, d, e);
    }
    ExclusiveMeans(e, e);
    assert e in StillToCome(children, low);
  }

  /** A scan of the merging iterator from front to back yields the sorted union of the
      children, which therefore exists. */
  method Scan(children: seq<seq<Entry>>) returns (u: seq<Entry>)
    requires AllSorted(children) && DistinctKeys(children)
    ensures IsUnion(children, u)
  {
    hide Compare, IsFirst, AfterLow, AllSorted, DistinctKeys, AtFirst, AtLast, StillToCome, TakenUpTo;
    var it := new MergingIterator(children);
    it.SeekToFirst();
    u := [];
    ghost var low := Unbounded;
    NothingTaken(children);
    while it.current.Some?
      invariant fresh(it) && it.Valid() && it.children == children && TakenUpTo(children, u, low)
      invariant if it.current.Some? then IsFirst(children, low, it.Here()) else NoneAfter(children, low)
      decreases StillToCome(children, low)
    {
      var e := children[it.current.value][it.pos[it.current.value]];
      TakeFirst(children, u, low, e);
      u := u + [e];
      low := Exclusive(e.key);
      it.Next();
    }
    AllTaken(children, u, low);
  }

  lemma NothingTaken(children: seq<seq<Entry>>)
    ensures TakenUpTo(children, [], Unbounded)
  {
  }

  lemma AllTaken(children: seq<seq<Entry>>, u: seq<Entry>, low: Bound)
    requires TakenUpTo(children, u, low) && NoneAfter(children, low)
    ensures IsUnion(children, u)
  {
    hide AfterLow, Sorted;
  }
}

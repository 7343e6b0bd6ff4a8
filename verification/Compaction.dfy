/**
 The merge loop of a compaction (db/db_impl.cc: DoCompactionWork) and the cursor
 it consults for deletion markers (db/version_set.cc: IsBaseLevelForKey).
 */
module Compaction {
  import opened Format
  import opened Version

  // ---------------------------------------------------------------- base level

  /** The files' ranges of user keys come in order. */
  ghost predicate RangesInOrder(files: seq<File>) {
    && (forall i :: 0 <= i < |files| ==> files[i].smallest.user <= files[i].largest.user)
    && (forall i, j :: 0 <= i < j < |files| ==> files[i].largest.user <= files[j].smallest.user)
  }

  /** No file two or more levels below `level` has `user` in its range. */
  ghost predicate IsBase(levels: seq<seq<File>>, level: nat, user: nat) {
    forall l, f :: level + 2 <= l < |levels| && f in levels[l] ==> !(f.smallest.user <= user <= f.largest.user)
  }

  class BaseLevelCursor {
    const level: nat
    const levels: seq<seq<File>>
    var levelPtrs: seq<nat>

    /** No key below this will be asked about again. */
    ghost var floor: nat

    ghost predicate Valid()
      reads this
    {
      && |levelPtrs| == |levels|
      && (forall l :: level + 2 <= l < |levels| ==> RangesInOrder(levels[l]) && Passed(levels[l], levelPtrs[l], floor))
    }

    constructor (levels: seq<seq<File>>, level: nat)
      requires forall l :: level + 2 <= l < |levels| ==> RangesInOrder(levels[l])
      ensures Valid() && floor == 0 && this.levels == levels && this.level == level
    {
      this.levels, this.level := levels, level;
      levelPtrs := seq(|levels|, i => 0);
      floor := 0;
    }

    /** Compaction::IsBaseLevelForKey.  The cursors only move forward, which is
        enough because the keys come in order. */
    method IsBaseLevelForKey(user: nat) returns (r: bool)
      requires Valid() && floor <= user
      modifies `levelPtrs, `floor
      ensures Valid() && floor == user
      ensures r <==> IsBase(levels, level, user)
    {
      floor := user;
      var lvl := level + 2;
      while lvl < |levels|
        invariant level + 2 <= lvl && Valid() && floor == user
        invariant forall l, f :: level + 2 <= l < lvl && l < |levels| && f in levels[l] ==>
          !(f.smallest.user <= user <= f.largest.user)
        decreases |levels| - lvl
      {
        var files := levels[lvl];
        while levelPtrs[lvl] < |files|
          invariant Valid() && floor == user
          decreases |files| - levelPtrs[lvl]
        {
          var f := files[levelPtrs[lvl]];
          if user <= f.largest.user {
            if user >= f.smallest.user {
              assert f in levels[lvl];
              return false;
            }
            break;
          }
          levelPtrs := levelPtrs[lvl := levelPtrs[lvl] + 1];
        }
        NoneHolds(files, levelPtrs[lvl], user);
        lvl := lvl + 1;
      }
      r := true;
    }
  }

  /** The files before `ptr` end before `user`. */
  ghost predicate Passed(files: seq<File>, ptr: nat, user: nat) {
    ptr <= |files| && forall i :: 0 <= i < ptr ==> files[i].largest.user < user
  }

  lemma NoneHolds(files: seq<File>, ptr: nat, user: nat)
    requires RangesInOrder(files) && Passed(files, ptr, user)
    requires ptr < |files| ==> user < files[ptr].smallest.user
    ensures forall f <- files :: !(f.smallest.user <= user <= f.largest.user)
  {
  }

  // ---------------------------------------------------------------- the merge loop

  /** Rule (A): a newer entry of the same user key is itself visible at the oldest snapshot. */
  ghost predicate Hidden(input: seq<Entry>, i: nat, smallestSnapshot: nat)
    requires i < |input|
  {
    i > 0 && input[i - 1].key.user == input[i].key.user && input[i - 1].key.seqno <= smallestSnapshot
  }

  /** A deletion marker with nothing left below to delete. */
  ghost predicate Obsolete(e: Entry, smallestSnapshot: nat, levels: seq<seq<File>>, level: nat) {
    e.key.kind.Deletion? && e.key.seqno <= smallestSnapshot && IsBase(levels, level, e.key.user)
  }

  /** The entries among the first `n` that the merge keeps. */
  ghost function Survivors(input: seq<Entry>, n: nat, smallestSnapshot: nat, levels: seq<seq<File>>,
                           level: nat): (r: seq<Entry>)
    requires n <= |input|
  {
    if n == 0 then []
    else
      Survivors(input, n - 1, smallestSnapshot, levels, level)
      + if Hidden(input, n - 1, smallestSnapshot) || Obsolete(input[n - 1], smallestSnapshot, levels, level)
        then [] else [input[n - 1]]
  }

  ghost function Flatten(outputs: seq<seq<Entry>>): seq<Entry> {
    if outputs == [] then [] else Flatten(outputs[..|outputs| - 1]) + outputs[|outputs| - 1]
  }

  lemma UsersInOrder(input: seq<Entry>, i: nat)
    requires Sorted(input) && i < |input|
    ensures i + 1 < |input| ==> input[i].key.user <= input[i + 1].key.user
  {
  }

  lemma FlattenNone()
    ensures Flatten([]) == []
  {
  }

  lemma FlattenAppend(outputs: seq<seq<Entry>>, o: seq<Entry>)
    ensures Flatten(outputs + [o]) == Flatten(outputs) + o
  {
    assert (outputs + [o])[..|outputs|] == outputs;
  }

  lemma SurvivorsNone(input: seq<Entry>, smallestSnapshot: nat, levels: seq<seq<File>>, level: nat)
    ensures Survivors(input, 0, smallestSnapshot, levels, level) == []
  {
  }

  lemma SurvivorsNext(input: seq<Entry>, i: nat, smallestSnapshot: nat, levels: seq<seq<File>>, level: nat, drop: bool)
    requires i < |input|
    requires drop <==> Hidden(input, i, smallestSnapshot) || Obsolete(input[i], smallestSnapshot, levels, level)
    ensures Survivors(input, i + 1, smallestSnapshot, levels, level)
      == Survivors(input, i, smallestSnapshot, levels, level) + if drop then [] else [input[i]]
  {
    hide Hidden, Obsolete;
  }

  /** Between the kept entries `i` and `j` the output is cut: it was full, or had to stop
      before an entry after `i`. */
  ghost predicate CutBetween(i: nat, j: nat, stopBefore: nat -> bool, full: nat -> bool) {
    full(i) || exists t :: i < t <= j && stopBefore(t)
  }

  /** The output holds the entries at these places of the input, none of which is cut off from the one before. */
  ghost predicate OnePiece(input: seq<Entry>, places: seq<nat>, o: seq<Entry>, stopBefore: nat -> bool,
                           full: nat -> bool) {
    && |places| == |o|
    && (forall x :: 0 <= x < |o| ==> places[x] < |input| && o[x] == input[places[x]])
    && (forall x :: 0 <= x < |o| - 1 ==>
          places[x] < places[x + 1] && !CutBetween(places[x], places[x + 1], stopBefore, full))
  }

  /** Each output is one piece, and between any two the output is cut. */
  ghost predicate CutRight(input: seq<Entry>, places: seq<seq<nat>>, outputs: seq<seq<Entry>>, stopBefore: nat -> bool,
                           full: nat -> bool) {
    && |places| == |outputs|
    && (forall m :: 0 <= m < |outputs| ==>
          places[m] != [] && OnePiece(input, places[m], outputs[m], stopBefore, full))
    && (forall m :: 0 <= m < |outputs| - 1 ==>
          && places[m][|places[m]| - 1] < places[m + 1][0]
          && CutBetween(places[m][|places[m]| - 1], places[m + 1][0], stopBefore, full))
  }

  /** The same before entry `i`, with an output under construction. */
  ghost predicate CutSoFar(input: seq<Entry>, places: seq<seq<nat>>, outputs: seq<seq<Entry>>, open: seq<nat>,
                           builder: seq<Entry>, i: nat, stopBefore: nat -> bool, full: nat -> bool) {
    && CutRight(input, if open == [] then places else places + [open],
                if open == [] then outputs else outputs + [builder], stopBefore, full)
    && |open| == |builder|
    && (open != [] ==>
          var last := open[|open| - 1]; last < i && !full(last) && forall t :: last < t < i ==> !stopBefore(t))
    && (open == [] && places != [] ==>
          var last := places[|places| - 1];
          last != [] && last[|last| - 1] < i
          && (full(last[|last| - 1]) || exists t :: last[|last| - 1] < t < i && stopBefore(t)))
  }

  /** Only places before `i` have been used. */
  ghost predicate Earlier(places: seq<seq<nat>>, open: seq<nat>, i: nat) {
    && (forall x <- open :: x < i)
    && (forall m :: 0 <= m < |places| ==> forall x <- places[m] :: x < i)
  }

  lemma AllCut(input: seq<Entry>, places: seq<seq<nat>>, outputs: seq<seq<Entry>>, open: seq<nat>,
               builder: seq<Entry>, stopBefore: nat -> bool, full: nat -> bool)
    requires CutSoFar(input, places, outputs, open, builder, |input|, stopBefore, full)
    ensures CutRight(input, if open == [] then places else places + [open],
                     if open == [] then outputs else outputs + [builder], stopBefore, full)
    ensures |open| == |builder|
  {
  }

  lemma NothingCut(input: seq<Entry>, stopBefore: nat -> bool, full: nat -> bool)
    ensures CutSoFar(input, [], [], [], [], 0, stopBefore, full)
  {
  }

  /** ShouldStopBefore is asked, and an open output closed. */
  lemma StopsBefore(input: seq<Entry>, places: seq<seq<nat>>, outputs: seq<seq<Entry>>, open: seq<nat>,
                    builder: seq<Entry>, i: nat, stopBefore: nat -> bool, full: nat -> bool)
    requires CutSoFar(input, places, outputs, open, builder, i, stopBefore, full)
    ensures if stopBefore(i) && open != []
      then CutSoFar(input, places + [open], outputs + [builder], [], [], i + 1, stopBefore, full)
      else CutSoFar(input, places, outputs, open, builder, i + 1, stopBefore, full)
  {
    hide CutRight;
  }

  /** Entry `i`, which was asked about, is kept. */
  lemma KeepsEntry(input: seq<Entry>, places: seq<seq<nat>>, outputs: seq<seq<Entry>>, open: seq<nat>,
                   builder: seq<Entry>, i: nat, stopBefore: nat -> bool, full: nat -> bool)
    requires i < |input| && CutSoFar(input, places, outputs, open, builder, i + 1, stopBefore, full)
    requires Earlier(places, open, i)
    ensures if full(i)
      then CutSoFar(input, places + [open + [i]], outputs + [builder + [input[i]]], [], [], i + 1, stopBefore, full)
      else CutSoFar(input, places, outputs, open + [i], builder + [input[i]], i + 1, stopBefore, full)
  {
    hide CutRight;
    Longer(input, places, outputs, open, builder, i, stopBefore, full);
  }

  lemma Longer(input: seq<Entry>, places: seq<seq<nat>>, outputs: seq<seq<Entry>>, open: seq<nat>,
               builder: seq<Entry>, i: nat, stopBefore: nat -> bool, full: nat -> bool)
    requires i < |input| && CutSoFar(input, places, outputs, open, builder, i + 1, stopBefore, full)
    requires Earlier(places, open, i)
    ensures CutRight(input, places + [open + [i]], outputs + [builder + [input[i]]], stopBefore, full)
  {
    hide CutRight, OnePiece;
    if open == [] {
      PieceOfOne(input, i, stopBefore, full);
      assert open + [i] == [i] && builder + [input[i]] == [input[i]];
      if places != [] {
        var last := places[|places| - 1];
        assert last[|last| - 1] in last;
      }
    } else {
      assert open[|open| - 1] in open;
      LastPiece(input, places, open, outputs, builder, stopBefore, full);
      PieceGrows(input, open, builder, i, stopBefore, full);
    }
    OneMorePiece(input, places, open + [i], outputs, builder + [input[i]], stopBefore, full);
  }

  lemma PieceOfOne(input: seq<Entry>, i: nat, stopBefore: nat -> bool, full: nat -> bool)
    requires i < |input|
    ensures OnePiece(input, [i], [input[i]], stopBefore, full)
  {
  }

  lemma PieceGrows(input: seq<Entry>, open: seq<nat>, builder: seq<Entry>, i: nat, stopBefore: nat -> bool,
                   full: nat -> bool)
    requires open != [] && OnePiece(input, open, builder, stopBefore, full)
    requires open[|open| - 1] < i < |input| && !CutBetween(open[|open| - 1], i, stopBefore, full)
    ensures OnePiece(input, open + [i], builder + [input[i]], stopBefore, full)
  {
    hide CutBetween;
  }

  /** `piece` may come next. */
  ghost predicate Borders(places: seq<seq<nat>>, piece: seq<nat>, stopBefore: nat -> bool, full: nat -> bool)
    requires piece != []
  {
    places == [] ||
    var last := places[|places| - 1];
    last != [] && last[|last| - 1] < piece[0] && CutBetween(last[|last| - 1], piece[0], stopBefore, full)
  }

  lemma LastPiece(input: seq<Entry>, places: seq<seq<nat>>, open: seq<nat>, outputs: seq<seq<Entry>>,
                  builder: seq<Entry>, stopBefore: nat -> bool, full: nat -> bool)
    requires open != [] && CutRight(input, places + [open], outputs + [builder], stopBefore, full)
    ensures CutRight(input, places, outputs, stopBefore, full) && OnePiece(input, open, builder, stopBefore, full)
    ensures Borders(places, open, stopBefore, full)
  {
    hide CutBetween, OnePiece;
    var (p, o) := (places + [open], outputs + [builder]);
    assert p[|places|] == open && o[|places|] == builder;
    assert forall m :: 0 <= m < |places| ==> p[m] == places[m] && o[m] == outputs[m];
    if places != [] { assert p[|places| - 1 + 1] == open; }
  }

  lemma OneMorePiece(input: seq<Entry>, places: seq<seq<nat>>, piece: seq<nat>, outputs: seq<seq<Entry>>,
                     o: seq<Entry>, stopBefore: nat -> bool, full: nat -> bool)
    requires piece != [] && CutRight(input, places, outputs, stopBefore, full)
    requires OnePiece(input, piece, o, stopBefore, full) && Borders(places, piece, stopBefore, full)
    ensures CutRight(input, places + [piece], outputs + [o], stopBefore, full)
  {
    hide CutBetween, OnePiece;
  }

  /** DBImpl::DoCompactionWork.  `stopBefore` and `full` stand for the decisions
      of ShouldStopBefore and of the size limit, which only cut the output; from
      entry `shutdownAt` on the database is found to be shutting down. */
  method DoCompactionWork(input: seq<Entry>, smallestSnapshot: nat, levels: seq<seq<File>>, level: nat,
                          stopBefore: nat -> bool, full: nat -> bool, shutdownAt: nat)
    returns (ok: bool, outputs: seq<seq<Entry>>, ghost places: seq<seq<nat>>)
    requires Sorted(input) && smallestSnapshot < MAX_SEQUENCE
    requires forall l :: level + 2 <= l < |levels| ==> RangesInOrder(levels[l])
    ensures ok <==> |input| < shutdownAt
    ensures ok ==> Flatten(outputs) == Survivors(input, |input|, smallestSnapshot, levels, level)
    ensures forall o <- outputs :: o != []
    ensures ok ==> CutRight(input, places, outputs, stopBefore, full)
    ensures ok ==> Sorted(Flatten(outputs)) && forall o <- outputs, e <- o :: e in input
    // An entry goes iff a newer one of its user key is visible at the oldest snapshot, or it is a
    // deletion visible there and no file two or more levels down can hold its user key.
    ensures ok ==> forall e <- input ::
      (forall o <- outputs :: e !in o) <==>
        || (exists d <- input ::
              d.key.user == e.key.user && Compare(d.key, e.key) < 0 && d.key.seqno <= smallestSnapshot)
        || (e.key.kind.Deletion? && e.key.seqno <= smallestSnapshot
            && forall l, f :: level + 2 <= l < |levels| && f in levels[l] ==>
              !(f.smallest.user <= e.key.user <= f.largest.user))
  {
    hide Flatten, IsBase, RangesInOrder, Sorted, Passed, Survivors, CutSoFar, CutRight;
    places := [];
    ghost var open: seq<nat> := [];
    NothingCut(input, stopBefore, full);
    FlattenNone();
    SurvivorsNone(input, smallestSnapshot, levels, level);
    var cursor := new BaseLevelCursor(levels, level);
    outputs := [];
    var builder: seq<Entry> := [];
    var currentUserKey: Option<nat> := None;
    var lastSequenceForKey := MAX_SEQUENCE;
    for i := 0 to |input|
      invariant i <= shutdownAt && |open| == |builder|
      invariant CutSoFar(input, places, outputs, open, builder, i, stopBefore, full)
      invariant Earlier(places, open, i)
      invariant fresh(cursor) && cursor.Valid() && cursor.levels == levels && cursor.level == level
      invariant i < |input| ==> cursor.floor <= input[i].key.user
      invariant currentUserKey == if i == 0 then None else Some(input[i - 1].key.user)
      invariant i > 0 ==> lastSequenceForKey == input[i - 1].key.seqno
      invariant Flatten(outputs) + builder == Survivors(input, i, smallestSnapshot, levels, level)
      invariant forall o <- outputs :: o != []
    {
      if i >= shutdownAt {
        return false, outputs, places;
      }
      var e := input[i];
      UsersInOrder(input, i);
      StopsBefore(input, places, outputs, open, builder, i, stopBefore, full);
      if stopBefore(i) && builder != [] {
        FlattenAppend(outputs, builder);
        outputs, builder := outputs + [builder], [];
        places, open := places + [open], [];
      }
      var drop := false;
      if currentUserKey != Some(e.key.user) {
        currentUserKey := Some(e.key.user);
        lastSequenceForKey := MAX_SEQUENCE;
      }
      if lastSequenceForKey <= smallestSnapshot {
        drop := true;
      } else if e.key.kind.Deletion? && e.key.seqno <= smallestSnapshot {
        drop := cursor.IsBaseLevelForKey(e.key.user);
      }
      lastSequenceForKey := e.key.seqno;
      SurvivorsNext(input, i, smallestSnapshot, levels, level, drop);
      if !drop {
        KeepsEntry(input, places, outputs, open, builder, i, stopBefore, full);
        builder := builder + [e];
        open := open + [i];
        if full(i) {
          FlattenAppend(outputs, builder);
          outputs, builder := outputs + [builder], [];
          places, open := places + [open], [];
        }
      }
    }
    if |input| >= shutdownAt {
      return false, outputs, places;
    }
    AllCut(input, places, outputs, open, builder, stopBefore, full);
    if builder != [] {
      FlattenAppend(outputs, builder);
      outputs := outputs + [builder];
      places := places + [open];
    }
    ok := true;
    KeptExactly(input, outputs, smallestSnapshot, levels, level);
  }

  /** What is kept, without saying how it is decided. */
  lemma KeptExactly(input: seq<Entry>, outputs: seq<seq<Entry>>, smallestSnapshot: nat, levels: seq<seq<File>>,
                    level: nat)
    requires Sorted(input) && Flatten(outputs) == Survivors(input, |input|, smallestSnapshot, levels, level)
    ensures Sorted(Flatten(outputs)) && forall o <- outputs, e <- o :: e in input
    ensures forall e <- input ::
      (forall o <- outputs :: e !in o) <==>
        || (exists d <- input ::
              d.key.user == e.key.user && Compare(d.key, e.key) < 0 && d.key.seqno <= smallestSnapshot)
        || (e.key.kind.Deletion? && e.key.seqno <= smallestSnapshot
            && forall l, f :: level + 2 <= l < |levels| && f in levels[l] ==>
              !(f.smallest.user <= e.key.user <= f.largest.user))
  {
    hide Sorted, Survivors, Flatten, Hidden, Compare;
    SurvivorsSorted(input, |input|, smallestSnapshot, levels, level);
    forall o <- outputs, e <- o
      ensures e in input
    {
      FlattenMembers(outputs, e);
      SurvivorsAre(input, |input|, smallestSnapshot, levels, level, e);
    }
    forall i | 0 <= i < |input|
      ensures (forall o <- outputs :: input[i] !in o) <==>
        || (exists d <- input ::
              d.key.user == input[i].key.user && Compare(d.key, input[i].key) < 0 && d.key.seqno <= smallestSnapshot)
        || Obsolete(input[i], smallestSnapshot, levels, level)
    {
      FlattenMembers(outputs, input[i]);
      SurvivesIff(input, i, smallestSnapshot, levels, level);
      HiddenIff(input, i, smallestSnapshot);
    }
  }

  lemma {:induction false} FlattenMembers(outputs: seq<seq<Entry>>, e: Entry)
    ensures e in Flatten(outputs) <==> exists o <- outputs :: e in o
  {
    if outputs != [] {
      FlattenMembers(outputs[..|outputs| - 1], e);
      assert outputs == outputs[..|outputs| - 1] + [outputs[|outputs| - 1]];
    }
  }

  lemma SurvivesIff(input: seq<Entry>, i: nat, smallestSnapshot: nat, levels: seq<seq<File>>, level: nat)
    requires Sorted(input) && i < |input|
    ensures input[i] in Survivors(input, |input|, smallestSnapshot, levels, level) <==>
      !Hidden(input, i, smallestSnapshot) && !Obsolete(input[i], smallestSnapshot, levels, level)
  {
    hide Hidden, Obsolete;
    SurvivorsAre(input, |input|, smallestSnapshot, levels, level, input[i]);
    forall j | 0 <= j < |input| && input[j] == input[i]
      ensures j == i
    {
      SortedOnce(input, i, j);
    }
  }

  lemma SortedOnce(input: seq<Entry>, i: nat, j: nat)
    requires Sorted(input) && i < |input| && j < |input| && input[i] == input[j]
    ensures i == j
  {
  }

  /** Looking at the entry before is enough to know whether any newer one hides this one. */
  lemma HiddenIff(input: seq<Entry>, i: nat, smallestSnapshot: nat)
    requires Sorted(input) && i < |input|
    ensures Hidden(input, i, smallestSnapshot) <==>
      exists d <- input ::
        d.key.user == input[i].key.user && Compare(d.key, input[i].key) < 0 && d.key.seqno <= smallestSnapshot
  {
    if d :| (d in input && d.key.user == input[i].key.user && Compare(d.key, input[i].key) < 0
             && d.key.seqno <= smallestSnapshot)
    {
      var j :| 0 <= j < |input| && input[j] == d;
      assert j < i;
      assert j == i - 1 || Compare(input[j].key, input[i - 1].key) < 0;
    }
  }

  // ---------------------------------------------------------------- what the merge preserves

  lemma SurvivorsAre(input: seq<Entry>, n: nat, smallestSnapshot: nat, levels: seq<seq<File>>, level: nat, e: Entry)
    requires n <= |input|
    ensures e in Survivors(input, n, smallestSnapshot, levels, level) <==>
      exists i :: 0 <= i < n && input[i] == e && !Hidden(input, i, smallestSnapshot)
        && !Obsolete(e, smallestSnapshot, levels, level)
  {
    if n > 0 { SurvivorsAre(input, n - 1, smallestSnapshot, levels, level, e); }
  }

  lemma SurvivorsSorted(input: seq<Entry>, n: nat, smallestSnapshot: nat, levels: seq<seq<File>>, level: nat)
    requires Sorted(input) && n <= |input|
    ensures Sorted(Survivors(input, n, smallestSnapshot, levels, level))
  {
    if n > 0 {
      SurvivorsSorted(input, n - 1, smallestSnapshot, levels, level);
      var kept := Survivors(input, n - 1, smallestSnapshot, levels, level);
      forall i | 0 <= i < |kept|
        ensures Compare(kept[i].key, input[n - 1].key) < 0
      {
        SurvivorsAre(input, n - 1, smallestSnapshot, levels, level, kept[i]);
      }
    }
  }

  ghost function Before(input: seq<Entry>, rest: set<Entry>): set<Entry> {
    Elements(input) + rest
  }

  ghost function AfterMerge(input: seq<Entry>, rest: set<Entry>, smallestSnapshot: nat, levels: seq<seq<File>>,
                            level: nat): set<Entry> {
    Elements(Survivors(input, |input|, smallestSnapshot, levels, level)) + rest
  }

  /** Every reader at the oldest snapshot or later is told the same by both sets. */
  ghost predicate SameMeaning(before: set<Entry>, after: set<Entry>, smallestSnapshot: nat) {
    forall user, snapshot, r, r' ::
      (snapshot >= smallestSnapshot && Answers(before, user, snapshot, r) && Answers(after, user, snapshot, r'))
      ==> Found(r) == Found(r')
  }

  /** Entry `i` is dropped only because it is an obsolete marker. */
  ghost predicate DroppedMarker(input: seq<Entry>, i: nat, smallestSnapshot: nat, levels: seq<seq<File>>, level: nat)
    requires i < |input|
  {
    !Hidden(input, i, smallestSnapshot) && Obsolete(input[i], smallestSnapshot, levels, level)
  }

  /** Behind no dropped marker does a left-out file hold an older value as its
      newest entry of the key at the oldest snapshot. */
  ghost predicate NothingResurfaces(input: seq<Entry>, rest: set<Entry>, smallestSnapshot: nat, levels: seq<seq<File>>,
                                    level: nat) {
    forall i, q ::
      (0 <= i < |input| && DroppedMarker(input, i, smallestSnapshot, levels, level)
       && Answers(rest, input[i].key.user, smallestSnapshot, Some(q)))
      ==> q.key.seqno > input[i].key.seqno || q.key.kind.Deletion?
  }

  /** The merge preserves meaning exactly when no left-out value resurfaces. */
  lemma MergeKeepsMeaningIff(input: seq<Entry>, rest: set<Entry>, smallestSnapshot: nat, levels: seq<seq<File>>,
                             level: nat)
    requires Sorted(input) && UniqueSeqnos(Before(input, rest))
    ensures SameMeaning(Before(input, rest), AfterMerge(input, rest, smallestSnapshot, levels, level), smallestSnapshot)
      <==> NothingResurfaces(input, rest, smallestSnapshot, levels, level)
  {
    hide Sorted, UniqueSeqnos, IsBase, Survivors, Answers, Obsolete;
    var before, after := Before(input, rest), AfterMerge(input, rest, smallestSnapshot, levels, level);
    if NothingResurfaces(input, rest, smallestSnapshot, levels, level) {
      forall user, snapshot, r, r' | snapshot >= smallestSnapshot
        && Answers(before, user, snapshot, r) && Answers(after, user, snapshot, r')
        ensures Found(r) == Found(r')
      {
        MergeKeepsMeaning(input, rest, smallestSnapshot, levels, level, user, snapshot, r, r');
      }
    } else {
      var i, q :| 0 <= i < |input| && DroppedMarker(input, i, smallestSnapshot, levels, level)
        && Answers(rest, input[i].key.user, smallestSnapshot, Some(q))
        && !(q.key.seqno > input[i].key.seqno || q.key.kind.Deletion?);
      Resurfaces(input, rest, smallestSnapshot, levels, level, i, q);
      MarkerVisible(input, i, smallestSnapshot, levels, level);
      assert Found(Some(input[i])) != Found(Some(q));
    }
  }

  lemma MergeKeepsMeaning(input: seq<Entry>, rest: set<Entry>, smallestSnapshot: nat, levels: seq<seq<File>>,
                          level: nat, user: nat, snapshot: nat, r: Option<Entry>, r': Option<Entry>)
    requires Sorted(input) && UniqueSeqnos(Before(input, rest)) && snapshot >= smallestSnapshot
    requires NothingResurfaces(input, rest, smallestSnapshot, levels, level)
    requires Answers(Before(input, rest), user, snapshot, r)
    requires Answers(AfterMerge(input, rest, smallestSnapshot, levels, level), user, snapshot, r')
    ensures Found(r) == Found(r')
  {
    hide Sorted, IsBase, Survivors, Hidden, Obsolete, UniqueSeqnos;
    var before, after := Before(input, rest), AfterMerge(input, rest, smallestSnapshot, levels, level);
    AfterIsSubset(input, rest, smallestSnapshot, levels, level);
    if r'.Some? { assert Candidate(r'.value, before, user, snapshot); }
    if r.Some? {
      var m := r.value;
      if m in after {
        assert Candidate(m, after, user, snapshot);
        SameSeqno(before, m, r'.value);
      } else {
        var i := OnlyAsMarker(input, rest, smallestSnapshot, levels, level, snapshot, m);
        if r'.Some? {
          SameSeqno(before, m, r'.value);
          KeptIsNewer(input, rest, smallestSnapshot, levels, level, i, r'.value);
          forall y | Candidate(y, rest, user, smallestSnapshot)
            ensures y.key.seqno <= r'.value.key.seqno
          {
            assert Candidate(y, after, user, snapshot);
          }
          assert Answers(rest, user, smallestSnapshot, r') by {
            MarkerVisible(input, i, smallestSnapshot, levels, level);
          }
        }
      }
    }
  }

  lemma AfterIsSubset(input: seq<Entry>, rest: set<Entry>, smallestSnapshot: nat, levels: seq<seq<File>>, level: nat)
    ensures AfterMerge(input, rest, smallestSnapshot, levels, level) <= Before(input, rest)
  {
    forall e | e in AfterMerge(input, rest, smallestSnapshot, levels, level) ensures e in Before(input, rest) {
      SurvivorsAre(input, |input|, smallestSnapshot, levels, level, e);
    }
  }

  lemma SameSeqno(s: set<Entry>, a: Entry, b: Entry)
    requires UniqueSeqnos(s) && a in s && b in s && a.key.user == b.key.user
    ensures a.key.seqno == b.key.seqno ==> a == b
  {
  }

  lemma NewestBeats(m: Entry, s: set<Entry>, user: nat, snapshot: nat, e: Entry)
    requires Newest(m, s, user, snapshot) && e in s && e.key.user == user && e.key.seqno <= snapshot
    ensures e.key.seqno <= m.key.seqno
  {
    assert Candidate(e, s, user, snapshot);
  }

  lemma MarkerVisible(input: seq<Entry>, i: nat, smallestSnapshot: nat, levels: seq<seq<File>>, level: nat)
    requires i < |input| && DroppedMarker(input, i, smallestSnapshot, levels, level)
    ensures input[i].key.seqno <= smallestSnapshot && input[i].key.kind.Deletion?
  {
  }

  /** A dropped entry that is the newest a reader may see was dropped as a marker. */
  lemma OnlyAsMarker(input: seq<Entry>, rest: set<Entry>, smallestSnapshot: nat, levels: seq<seq<File>>, level: nat,
                     snapshot: nat, m: Entry) returns (i: nat)
    requires Sorted(input) && UniqueSeqnos(Before(input, rest)) && snapshot >= smallestSnapshot
    requires Newest(m, Before(input, rest), m.key.user, snapshot)
    requires m !in AfterMerge(input, rest, smallestSnapshot, levels, level)
    ensures i < |input| && input[i] == m && DroppedMarker(input, i, smallestSnapshot, levels, level)
    ensures m.key.seqno <= smallestSnapshot && m.key.kind.Deletion?
  {
    hide Sorted, UniqueSeqnos, IsBase, Survivors;
    SurvivorsAre(input, |input|, smallestSnapshot, levels, level, m);
    i :| 0 <= i < |input| && input[i] == m;
    if Hidden(input, i, smallestSnapshot) {
      PreviousIsNewer(input, rest, i);
      NewestBeats(m, Before(input, rest), m.key.user, snapshot, input[i - 1]);
    }
  }

  /** What the merge keeps of a dropped marker's user key is newer, or was left out. */
  lemma KeptIsNewer(input: seq<Entry>, rest: set<Entry>, smallestSnapshot: nat, levels: seq<seq<File>>, level: nat,
                    i: nat, e: Entry)
    requires Sorted(input) && UniqueSeqnos(Before(input, rest))
    requires i < |input| && DroppedMarker(input, i, smallestSnapshot, levels, level)
    requires e in AfterMerge(input, rest, smallestSnapshot, levels, level) && e.key.user == input[i].key.user
    ensures e in rest || e.key.seqno > input[i].key.seqno
  {
    hide Sorted, UniqueSeqnos, IsBase, Survivors;
    if e !in rest {
      SubsetUnique(Before(input, rest), Elements(input));
      OlderThanMarkerGoes(input, smallestSnapshot, levels, level, i, e);
    }
  }

  /** A left-out value behind a dropped marker is what a reader sees afterwards. */
  lemma Resurfaces(input: seq<Entry>, rest: set<Entry>, smallestSnapshot: nat, levels: seq<seq<File>>, level: nat,
                   i: nat, q: Entry)
    requires Sorted(input) && UniqueSeqnos(Before(input, rest))
    requires i < |input| && DroppedMarker(input, i, smallestSnapshot, levels, level)
    requires Answers(rest, input[i].key.user, smallestSnapshot, Some(q)) && q.key.seqno <= input[i].key.seqno
    ensures Answers(Before(input, rest), input[i].key.user, smallestSnapshot, Some(input[i]))
    ensures Answers(AfterMerge(input, rest, smallestSnapshot, levels, level), input[i].key.user, smallestSnapshot,
                    Some(q))
  {
    hide Sorted, UniqueSeqnos, IsBase, Survivors, Hidden, Obsolete;
    var (d, user) := (input[i], input[i].key.user);
    MarkerVisible(input, i, smallestSnapshot, levels, level);
    AfterIsSubset(input, rest, smallestSnapshot, levels, level);
    forall e | Candidate(e, Before(input, rest), user, smallestSnapshot)
      ensures e.key.seqno <= d.key.seqno
      ensures e in AfterMerge(input, rest, smallestSnapshot, levels, level) ==> e.key.seqno <= q.key.seqno
    {
      if e in rest {
        assert Candidate(e, rest, user, smallestSnapshot);
      } else {
        NoneNewerVisible(input, i, smallestSnapshot, e);
        if e in AfterMerge(input, rest, smallestSnapshot, levels, level) {
          KeptIsNewer(input, rest, smallestSnapshot, levels, level, i, e);
        }
      }
    }
  }

  lemma NoneNewerVisible(input: seq<Entry>, i: nat, smallestSnapshot: nat, e: Entry)
    requires Sorted(input) && i < |input| && !Hidden(input, i, smallestSnapshot)
    requires e in input && e.key.user == input[i].key.user && e.key.seqno <= smallestSnapshot
    ensures e.key.seqno <= input[i].key.seqno
  {
    var j :| 0 <= j < |input| && input[j] == e;
    if j < i { LaterIsHidden(input, j, i, smallestSnapshot); }
  }

  lemma SubsetUnique(s: set<Entry>, t: set<Entry>)
    requires UniqueSeqnos(s) && t <= s
    ensures UniqueSeqnos(t)
  {
  }

  lemma PreviousIsNewer(input: seq<Entry>, rest: set<Entry>, i: nat)
    requires Sorted(input) && UniqueSeqnos(Before(input, rest))
    requires 0 < i < |input| && input[i - 1].key.user == input[i].key.user
    ensures input[i - 1].key.seqno > input[i].key.seqno
  {
    assert input[i - 1] in Before(input, rest) && input[i] in Before(input, rest);
  }

  /** What the merge keeps of a marker's user key comes before the marker. */
  lemma OlderThanMarkerGoes(input: seq<Entry>, smallestSnapshot: nat, levels: seq<seq<File>>, level: nat, i: nat,
                            e: Entry)
    requires Sorted(input) && UniqueSeqnos(Elements(input)) && i < |input|
    requires Obsolete(input[i], smallestSnapshot, levels, level)
    requires e in Survivors(input, |input|, smallestSnapshot, levels, level) && e.key.user == input[i].key.user
    ensures e.key.seqno > input[i].key.seqno
  {
    hide Sorted, UniqueSeqnos, IsBase, Survivors, Hidden;
    SurvivorsAre(input, |input|, smallestSnapshot, levels, level, e);
    var j :| 0 <= j < |input| && input[j] == e && !Hidden(input, j, smallestSnapshot)
      && !Obsolete(e, smallestSnapshot, levels, level);
    if j > i {
      LaterIsHidden(input, i, j, smallestSnapshot);
    } else {
      EarlierIsNewer(input, j, i);
    }
  }

  lemma LaterIsHidden(input: seq<Entry>, i: nat, j: nat, smallestSnapshot: nat)
    requires Sorted(input) && i < j < |input| && input[i].key.user == input[j].key.user
    requires input[i].key.seqno <= smallestSnapshot
    ensures Hidden(input, j, smallestSnapshot)
  {
  }

  lemma EarlierIsNewer(input: seq<Entry>, j: nat, i: nat)
    requires Sorted(input) && UniqueSeqnos(Elements(input)) && j < i < |input| && input[j].key.user == input[i].key.user
    ensures input[j].key.seqno > input[i].key.seqno
  {
    assert input[j] in Elements(input) && input[i] in Elements(input);
  }
}

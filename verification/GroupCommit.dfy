/**
 The writer queue (db/db_impl.cc: Write, BuildBatchGroup): the front writer commits
 for a prefix of the queue while others keep arriving.
 */
module GroupCommit {
  import Coding
  import opened Format
  import opened WriteBatch

  /** A queued writer; no batch asks for a compaction only. */
  datatype Writer = Writer(id: nat, batch: Option<seq<Op>>, byteSize: nat, sync: bool) {
    function Ops(): seq<Op> { if batch.Some? then batch.value else [] }
    function Weight(): nat { if batch.Some? then byteSize else 0 }
  }

  ghost function Combined(ws: seq<Writer>): seq<Op> {
    if ws == [] then [] else Combined(ws[..|ws| - 1]) + ws[|ws| - 1].Ops()
  }

  ghost function Weights(ws: seq<Writer>): nat {
    if ws == [] then 0 else Weights(ws[..|ws| - 1]) + ws[|ws| - 1].Weight()
  }

  const SMALL_WRITE: nat := 0x2_0000
  const MAX_GROUP: nat := 0x10_0000

  /** A group of this weight may have followers: those of a small leader add little, and a
      larger leader keeps the whole group bounded. */
  ghost predicate Allowed(leader: nat, weight: nat) {
    if leader <= SMALL_WRITE then weight - leader <= SMALL_WRITE else weight <= MAX_GROUP
  }

  /** The group of the front writer: as long a prefix as the sync rule and the size limit allow. */
  ghost predicate IsGroup(queue: seq<Writer>, k: nat) {
    && 1 <= k <= |queue|
    && (forall i :: 0 <= i < k && queue[i].sync ==> queue[0].sync)
    && (forall i :: 0 < i < k && queue[i].batch.Some? ==> Allowed(queue[0].Weight(), Weights(queue[..k])))
    && (k < |queue| ==>
          || (queue[k].sync && !queue[0].sync)
          || (queue[k].batch.Some? && !Allowed(queue[0].Weight(), Weights(queue[..k]) + queue[k].byteSize)))
  }

  /** DBImpl::BuildBatchGroup: which writers are in the group, and their operations together. */
  method BuildBatchGroup(queue: seq<Writer>) returns (k: nat, ops: seq<Op>)
    requires queue != [] && queue[0].batch.Some?
    ensures IsGroup(queue, k) && ops == Combined(queue[..k])
    // Followers of a leader of at most 128 KB add at most 128 KB; a larger leader with a
    // follower that has a batch leads at most 1 MB.
    ensures forall i :: 0 < i < k && queue[i].batch.Some? ==>
      if queue[0].byteSize <= 131072 then Weights(queue[..k]) <= queue[0].byteSize + 131072
      else Weights(queue[..k]) <= 1048576
    // The first writer left out asks for a sync that the leader does not do, or would go beyond that.
    ensures k < |queue| && (queue[k].sync ==> queue[0].sync) ==>
      && queue[k].batch.Some?
      && if queue[0].byteSize <= 131072 then Weights(queue[..k + 1]) > queue[0].byteSize + 131072
         else Weights(queue[..k + 1]) > 1048576
  {
    var first := queue[0];
    ops := first.Ops();
    var size := first.Weight();
    var maxSize := MAX_GROUP;
    if size <= SMALL_WRITE {
      maxSize := size + SMALL_WRITE;
    }
    k := 1;
    assert queue[..1][..0] == [] && queue[..1] == [first];
    while k < |queue|
      invariant 1 <= k <= |queue| && ops == Combined(queue[..k]) && size == Weights(queue[..k])
      invariant forall i :: 0 <= i < k && queue[i].sync ==> first.sync
      invariant forall i :: 0 < i < k && queue[i].batch.Some? ==> size <= maxSize
    {
      var w := queue[k];
      assert queue[..k + 1][..k] == queue[..k];
      if w.sync && !first.sync {
        break;
      }
      if w.batch.Some? {
        if size + w.byteSize > maxSize {
          break;
        }
        size := size + w.byteSize;
        ops := ops + w.batch.value;
      }
      k := k + 1;
    }
    assert k < |queue| ==> queue[..k + 1][..k] == queue[..k];
  }

  // ---------------------------------------------------------------- the queue as a state machine

  /** The front writer at work, outside the mutex. */
  datatype Group = Group(k: nat, committing: bool, roomOk: bool)

  /** A writer that has left the queue: how it ended, the first sequence number it was given,
      and how many of its operations reached the memtable. */
  datatype Left = Left(writer: Writer, ok: bool, committed: bool, first: nat, inserted: nat, leaderSync: bool)

  datatype State = State(queue: seq<Writer>, active: Option<Group>, lastSequence: nat, mem: seq<(nat, Op)>,
                         left: seq<Left>)

  datatype Step = Enqueue(writer: Writer) | Lead(roomOk: bool) | Finish(inserted: nat, ok: bool)

  ghost function Numbered(first: nat, ops: seq<Op>): (r: seq<(nat, Op)>)
    ensures |r| == |ops|
  {
    seq(|ops|, i requires 0 <= i < |ops| => (first + i, ops[i]))
  }

  /** How many of `count` operations are among the first `inserted`, if `before` come first. */
  function Share(inserted: nat, before: nat, count: nat): nat {
    if inserted <= before then 0 else if inserted - before <= count then inserted - before else count
  }

  /** What a writer leaves with, behind those of its group. */
  ghost function LeavingOne(ws: seq<Writer>, w: Writer, ok: bool, committed: bool, first: nat, inserted: nat,
                            leaderSync: bool): Left {
    var before := |Combined(ws)|;
    Left(w, ok, committed, first + before, Share(inserted, before, |w.Ops()|), leaderSync)
  }

  /** The records of a group's writers as they leave, when the first `inserted` operations
      of the group reached the memtable. */
  ghost function Leaving(ws: seq<Writer>, ok: bool, committed: bool, first: nat, inserted: nat,
                         leaderSync: bool): (r: seq<Left>)
    ensures |r| == |ws|
  {
    if ws == [] then []
    else
      var n := |ws| - 1;
      Leaving(ws[..n], ok, committed, first, inserted, leaderSync)
      + [LeavingOne(ws[..n], ws[n], ok, committed, first, inserted, leaderSync)]
  }

  ghost predicate Next(s: State, step: Step, s': State) {
    match step
    case Enqueue(w) =>
      // push_back under the mutex; the front writer may be at work meanwhile
      && (forall v <- s.queue :: v.id != w.id) && (forall l <- s.left :: l.writer.id != w.id)
      && s' == s.(queue := s.queue + [w])
    case Lead(roomOk) =>
      // MakeRoomForWrite has returned, then BuildBatchGroup
      && s.active.None? && s.queue != []
      && exists k ::
        && (if roomOk && s.queue[0].batch.Some? then IsGroup(s.queue, k) else k == 1)
        && s' == s.(active := Some(Group(k, roomOk && s.queue[0].batch.Some?, roomOk)))
    case Finish(inserted, ok) =>
      // the log and the memtable, SetLastSequence, then the group leaves the queue; a failure of
      // the log inserts nothing, a corrupt batch the operations before the corruption
      && s.active.Some? && s.active.value.k <= |s.queue| && s.queue != []
      && var g := s.active.value;
         var (members, ended) := (s.queue[..g.k], if g.committing then ok else g.roomOk);
         var ops := if g.committing then Combined(members) else [];
         && inserted <= |ops| && (ok ==> inserted == |ops|)
         && s' == State(s.queue[g.k..], None, s.lastSequence + |ops|,
                        s.mem + Numbered(s.lastSequence + 1, ops[..inserted]),
                        s.left + Leaving(members, ended, g.committing, s.lastSequence + 1, inserted, s.queue[0].sync))
  }

  ghost function First(ops: seq<Op>, n: nat): seq<Op> {
    if n <= |ops| then ops[..n] else ops
  }

  /** What a writer has put in the memtable. */
  ghost function Put(l: Left): seq<(nat, Op)> {
    Numbered(l.first, First(l.writer.Ops(), l.inserted))
  }

  /** What the writers have put in the memtable, in the order in which they left. */
  ghost function Applied(left: seq<Left>): seq<(nat, Op)> {
    if left == [] then [] else Applied(left[..|left| - 1]) + Put(left[|left| - 1])
  }

  /** A writer told that it succeeded has put all its operations in, one that took no part in
      a commit none, and no sync write leaves under a leader that does not sync. */
  ghost predicate Honest(l: Left) {
    && l.inserted <= |l.writer.Ops()|
    && (l.ok ==> l.inserted == |l.writer.Ops()|)
    && (!l.committed ==> l.inserted == 0)
    && (l.writer.sync ==> l.leaderSync)
  }

  /** The sequence numbers a writer was given. */
  ghost function End(l: Left): nat {
    l.first + if l.committed then |l.writer.Ops()| else 0
  }

  ghost predicate RangesAscend(left: seq<Left>, lastSequence: nat) {
    && (forall i, j :: 0 <= i < j < |left| ==> End(left[i]) <= left[j].first)
    && (forall i :: 0 <= i < |left| ==> End(left[i]) <= lastSequence + 1)
  }

  /** All writers, in the order of their arrival. */
  ghost function Arrived(s: State): seq<Writer> {
    seq(|s.left|, i requires 0 <= i < |s.left| => s.left[i].writer) + s.queue
  }

  ghost predicate DistinctIds(ws: seq<Writer>) {
    forall i, j :: 0 <= i < j < |ws| ==> ws[i].id != ws[j].id
  }

  ghost predicate Inv(s: State) {
    && s.mem == Applied(s.left)
    && RangesAscend(s.left, s.lastSequence)
    && DistinctIds(Arrived(s))
    && (forall l <- s.left :: Honest(l))
    && (s.active.Some? ==>
          && 1 <= s.active.value.k <= |s.queue|
          && (forall i :: 0 <= i < s.active.value.k && s.queue[i].sync ==> s.queue[0].sync)
          && (!s.active.value.committing ==>
              s.active.value.k == 1 && (s.active.value.roomOk ==> s.queue[0].batch.None?)))
  }

  // ---------------------------------------------------------------- a group leaves

  lemma {:induction false} LeavingAt(ws: seq<Writer>, ok: bool, committed: bool, first: nat, inserted: nat,
                                     leaderSync: bool, i: nat)
    requires i < |ws|
    ensures Leaving(ws, ok, committed, first, inserted, leaderSync)[i]
      == LeavingOne(ws[..i], ws[i], ok, committed, first, inserted, leaderSync)
  {
    var n := |ws| - 1;
    if i < n {
      LeavingAt(ws[..n], ok, committed, first, inserted, leaderSync, i);
      assert ws[..n][..i] == ws[..i];
    }
  }

  lemma {:induction false} CombinedGrows(ws: seq<Writer>, i: nat)
    requires i < |ws|
    ensures |Combined(ws[..i])| + |ws[i].Ops()| <= |Combined(ws)|
    ensures forall j :: i < j <= |ws| ==> |Combined(ws[..i])| + |ws[i].Ops()| <= |Combined(ws[..j])|
  {
    var n := |ws| - 1;
    if i < n {
      CombinedGrows(ws[..n], i);
      assert ws[..n][..i] == ws[..i];
      assert forall j :: i < j <= n ==> ws[..n][..j] == ws[..j];
      assert ws[..n + 1] == ws;
    } else {
      assert ws[..n + 1] == ws;
    }
  }

  lemma NumberedSplit(first: nat, a: seq<Op>, b: seq<Op>)
    ensures Numbered(first, a + b) == Numbered(first, a) + Numbered(first + |a|, b)
  {
  }

  lemma AppliedOne(left: seq<Left>, l: Left)
    ensures Applied(left + [l]) == Applied(left) + Put(l)
  {
    hide Put;
    assert (left + [l])[..|left|] == left;
  }

  /** The first operations of two lists: those of the one, then those of the other. */
  lemma FirstSplit(first: nat, a: seq<Op>, b: seq<Op>, n: nat)
    ensures Numbered(first, First(a + b, n)) == Numbered(first, First(a, n)) + Numbered(first + |a|,
        First(b, Share(n, |a|, |b|)))
  {
    hide Numbered;
    if n <= |a| {
      assert First(a + b, n) == First(a, n) && First(b, 0) == [];
      NumberedNothing(first + |a|);
      assert Numbered(first, First(a, n)) + [] == Numbered(first, First(a, n));
    } else {
      assert First(a + b, n) == a + First(b, Share(n, |a|, |b|));
      NumberedSplit(first, a, First(b, Share(n, |a|, |b|)));
    }
  }

  lemma PutOfOne(ws: seq<Writer>, w: Writer, ok: bool, committed: bool, first: nat, inserted: nat, leaderSync: bool)
    ensures Put(LeavingOne(ws, w, ok, committed, first, inserted, leaderSync))
      == Numbered(first + |Combined(ws)|, First(w.Ops(), Share(inserted, |Combined(ws)|, |w.Ops()|)))
  {
  }

  lemma AppliedSnoc(left: seq<Left>, init: seq<Left>, l: Left, put: seq<(nat, Op)>)
    requires Applied(left + init) == Applied(left) + put
    ensures Applied(left + (init + [l])) == Applied(left) + (put + Put(l))
  {
    hide *;
    assert left + (init + [l]) == (left + init) + [l];
    AppliedOne(left + init, l);
    Coding.Assoc(Applied(left), put, Put(l));
  }

  lemma LeavingSnoc(ws: seq<Writer>, ok: bool, committed: bool, first: nat, inserted: nat, leaderSync: bool)
    requires ws != []
    ensures var (init, last) := (ws[..|ws| - 1], ws[|ws| - 1]);
      && Leaving(ws, ok, committed, first, inserted, leaderSync)
         == Leaving(init, ok, committed, first, inserted, leaderSync)
            + [LeavingOne(init, last, ok, committed, first, inserted, leaderSync)]
      && Combined(ws) == Combined(init) + last.Ops()
  {
    hide LeavingOne;
  }

  lemma LeavingNone(left: seq<Left>, ok: bool, committed: bool, first: nat, inserted: nat, leaderSync: bool)
    ensures Applied(left + Leaving([], ok, committed, first, inserted, leaderSync))
      == Applied(left) + Numbered(first, First(Combined([]), inserted))
  {
    NumberedNothing(first);
    assert left + [] == left;
    assert Applied(left) + [] == Applied(left);
  }

  /** A group puts the first of its combined operations in the memtable, one writer after the other. */
  lemma {:induction false} AppliedGroup(left: seq<Left>, ws: seq<Writer>, ok: bool, committed: bool, first: nat,
                                        inserted: nat, leaderSync: bool)
    ensures Applied(left + Leaving(ws, ok, committed, first, inserted, leaderSync))
      == Applied(left) + Numbered(first, First(Combined(ws), inserted))
  {
    hide *;
    if ws == [] {
      LeavingNone(left, ok, committed, first, inserted, leaderSync);
    } else {
      var (init, last) := (ws[..|ws| - 1], ws[|ws| - 1]);
      var l := LeavingOne(init, last, ok, committed, first, inserted, leaderSync);
      AppliedGroup(left, init, ok, committed, first, inserted, leaderSync);
      AppliedSnoc(left, Leaving(init, ok, committed, first, inserted, leaderSync), l,
                  Numbered(first, First(Combined(init), inserted)));
      PutOfOne(init, last, ok, committed, first, inserted, leaderSync);
      FirstSplit(first, Combined(init), last.Ops(), inserted);
      LeavingSnoc(ws, ok, committed, first, inserted, leaderSync);
    }
  }

  lemma RangesOfGroup(left: seq<Left>, ws: seq<Writer>, ok: bool, committed: bool, lastSequence: nat, inserted: nat,
                      leaderSync: bool)
    requires RangesAscend(left, lastSequence)
    ensures RangesAscend(left + Leaving(ws, ok, committed, lastSequence + 1, inserted, leaderSync),
                         lastSequence + |Combined(ws)|)
  {
    hide Leaving, Combined, Share;
    var leaving := Leaving(ws, ok, committed, lastSequence + 1, inserted, leaderSync);
    forall i | 0 <= i < |ws|
      ensures leaving[i] == LeavingOne(ws[..i], ws[i], ok, committed, lastSequence + 1, inserted, leaderSync)
      ensures End(leaving[i]) <= lastSequence + |Combined(ws)| + 1
      ensures forall j :: i < j < |ws| ==> End(leaving[i]) <= lastSequence + 1 + |Combined(ws[..j])|
    {
      LeavingAt(ws, ok, committed, lastSequence + 1, inserted, leaderSync, i);
      CombinedGrows(ws, i);
    }
  }

  lemma ArrivalKept(s: State, k: nat, leaving: seq<Left>)
    requires k <= |s.queue| && |leaving| == k && forall i :: 0 <= i < k ==> leaving[i].writer == s.queue[i]
    ensures Arrived(State(s.queue[k..], None, 0, [], s.left + leaving)) == Arrived(s)
  {
  }

  // ---------------------------------------------------------------- every interleaving

  lemma EnqueueKeepsInv(s: State, w: Writer, s': State)
    requires Inv(s) && Next(s, Enqueue(w), s')
    ensures Inv(s')
  {
    hide Applied;
    assert Arrived(s') == Arrived(s) + [w];
    forall i | 0 <= i < |Arrived(s)|
      ensures Arrived(s)[i].id != w.id
    {
      if i < |s.left| { assert s.left[i] in s.left; } else { assert s.queue[i - |s.left|] in s.queue; }
    }
  }

  lemma FinishAppliesAndNumbers(s: State, inserted: nat, ok: bool, s': State)
    requires Inv(s) && Next(s, Finish(inserted, ok), s')
    ensures s'.mem == Applied(s'.left) && RangesAscend(s'.left, s'.lastSequence)
  {
    hide Applied, Leaving, Combined, DistinctIds, Arrived, Numbered, Honest;
    var g := s.active.value;
    var (ws, ended) := (s.queue[..g.k], if g.committing then ok else g.roomOk);
    AppliedGroup(s.left, ws, ended, g.committing, s.lastSequence + 1, inserted, s.queue[0].sync);
    if g.committing {
      RangesOfGroup(s.left, ws, ended, true, s.lastSequence, inserted, s.queue[0].sync);
    } else {
      assert First(Combined(ws), 0) == [] == [][..0];
      assert ws == [s.queue[0]];
      RangesOfOne(s.left, s.queue[0], ended, s.lastSequence, s.queue[0].sync);
    }
  }

  /** Who leaves at the end of a commit, and how. */
  lemma GroupLeaves(s: State, inserted: nat, ok: bool, s': State) returns (leaving: seq<Left>)
    requires Inv(s) && Next(s, Finish(inserted, ok), s')
    ensures var g := s.active.value;
      && |leaving| == g.k && s'.left == s.left + leaving && s'.queue == s.queue[g.k..]
      && forall i :: 0 <= i < g.k ==>
        && leaving[i].writer == s.queue[i] && leaving[i].leaderSync == s.queue[0].sync
        && leaving[i].committed == g.committing && leaving[i].ok == (if g.committing then ok else g.roomOk)
        && leaving[i].inserted == Share(inserted, |Combined(s.queue[..i])|, |s.queue[i].Ops()|)
  {
    hide Applied, Leaving, Combined, DistinctIds, RangesAscend, Numbered, Arrived, Share, Honest;
    var g := s.active.value;
    var (ws, ended) := (s.queue[..g.k], if g.committing then ok else g.roomOk);
    leaving := Leaving(ws, ended, g.committing, s.lastSequence + 1, inserted, s.queue[0].sync);
    forall i | 0 <= i < g.k
      ensures leaving[i]
        == LeavingOne(s.queue[..i], s.queue[i], ended, g.committing, s.lastSequence + 1, inserted, s.queue[0].sync)
    {
      LeavingAt(ws, ended, g.committing, s.lastSequence + 1, inserted, s.queue[0].sync, i);
      assert ws[..i] == s.queue[..i];
    }
  }

  lemma FinishKeepsArrival(s: State, inserted: nat, ok: bool, s': State)
    requires Inv(s) && Next(s, Finish(inserted, ok), s')
    ensures Arrived(s') == Arrived(s)
  {
    var leaving := GroupLeaves(s, inserted, ok, s');
    hide Next, Applied, DistinctIds, RangesAscend, Honest;
    ArrivalKept(s, s.active.value.k, leaving);
  }

  /** What a finished group has inserted, and how it ended. */
  lemma FinishFacts(s: State, inserted: nat, ok: bool, s': State)
    requires Inv(s) && Next(s, Finish(inserted, ok), s')
    ensures s.active.Some? && s.active.value.k <= |s.queue|
    ensures var g := s.active.value;
      && ((if g.committing then ok else g.roomOk) ==> inserted == |Combined(s.queue[..g.k])|)
      && (!g.committing ==> inserted == 0)
      && forall i :: 0 <= i < g.k && s.queue[i].sync ==> s.queue[0].sync
  {
    hide Leaving, Numbered, Applied, RangesAscend, DistinctIds, Arrived, Honest;
    var g := s.active.value;
    if !g.committing {
      assert s.queue[..1][..0] == [] && s.queue[..1][0] == s.queue[0];
    }
  }

  lemma LeaverIsHonest(ws: seq<Writer>, i: nat, inserted: nat, l: Left)
    requires i < |ws| && l.writer == ws[i] && l.inserted == Share(inserted, |Combined(ws[..i])|, |ws[i].Ops()|)
    requires (l.ok ==> inserted == |Combined(ws)|) && (!l.committed ==> inserted == 0)
    requires l.writer.sync ==> l.leaderSync
    ensures Honest(l)
  {
    hide Combined;
    CombinedGrows(ws, i);
  }

  lemma WereHonest(s: State)
    requires Inv(s)
    ensures forall l <- s.left :: Honest(l)
  {
    hide Honest, Applied, RangesAscend, DistinctIds, Arrived;
  }

  lemma FinishKeepsRules(s: State, inserted: nat, ok: bool, s': State)
    requires Inv(s) && Next(s, Finish(inserted, ok), s')
    ensures forall l <- s'.left :: Honest(l)
  {
    hide *;
    var leaving := GroupLeaves(s, inserted, ok, s');
    FinishFacts(s, inserted, ok, s');
    WereHonest(s);
    var before := s.left;
    var ws := s.queue[..s.active.value.k];
    forall l <- s'.left
      ensures Honest(l)
    {
      if l !in before {
        var i :| 0 <= i < |leaving| && leaving[i] == l;
        assert ws[..i] == s.queue[..i];
        LeaverIsHonest(ws, i, inserted, l);
      }
    }
  }

  lemma FinishKeepsInv(s: State, inserted: nat, ok: bool, s': State)
    requires Inv(s) && Next(s, Finish(inserted, ok), s')
    ensures Inv(s')
  {
    FinishAppliesAndNumbers(s, inserted, ok, s');
    FinishKeepsArrival(s, inserted, ok, s');
    FinishKeepsRules(s, inserted, ok, s');
    assert s'.active.None?;
    hide Next, Applied, DistinctIds, RangesAscend, Arrived, Honest;
  }

  lemma NumberedNothing(first: nat)
    ensures Numbered(first, []) == []
  {
  }

  lemma RangesOfOne(left: seq<Left>, w: Writer, ok: bool, lastSequence: nat, leaderSync: bool)
    requires RangesAscend(left, lastSequence)
    ensures RangesAscend(left + Leaving([w], ok, false, lastSequence + 1, 0, leaderSync), lastSequence)
  {
    LeavingAt([w], ok, false, lastSequence + 1, 0, leaderSync, 0);
  }

  lemma LeadKeepsInv(s: State, roomOk: bool, s': State)
    requires Inv(s) && Next(s, Lead(roomOk), s')
    ensures Inv(s')
  {
    hide Applied, Weights;
    assert Arrived(s') == Arrived(s);
  }

  ghost predicate Run(states: seq<State>, steps: seq<Step>) {
    && |states| == |steps| + 1
    && states[0].queue == [] && states[0].active.None? && states[0].mem == [] && states[0].left == []
    && forall i :: 0 <= i < |steps| ==> Next(states[i], steps[i], states[i + 1])
  }

  /** Over every interleaving of arrivals and commits: writers leave in the order of
      their arrival with ascending, disjoint sequence numbers; the memtable holds, in that
      order and once each, all operations of those that succeeded and the first few, or
      none, of those that failed; no sync write leaves under a leader that does not sync. */
  lemma {:induction false} EveryRunKeepsInv(states: seq<State>, steps: seq<Step>, i: nat)
    requires Run(states, steps) && i < |states|
    ensures Inv(states[i])
  {
    hide Inv, Next;
    if i == 0 {
      StartHasInv(states[0]);
    } else {
      EveryRunKeepsInv(states, steps, i - 1);
      var (s, step, s') := (states[i - 1], steps[i - 1], states[i]);
      match step
      case Enqueue(w) => EnqueueKeepsInv(s, w, s');
      case Lead(roomOk) => LeadKeepsInv(s, roomOk, s');
      case Finish(inserted, ok) => FinishKeepsInv(s, inserted, ok, s');
    }
  }

  lemma StartHasInv(s: State)
    requires s.queue == [] && s.active.None? && s.mem == [] && s.left == []
    ensures Inv(s)
  {
  }

  /** Arrival order is kept for good: what has arrived only grows at its end. */
  lemma ArrivedOnlyGrows(s: State, step: Step, s': State)
    requires Inv(s) && Next(s, step, s')
    ensures Arrived(s) <= Arrived(s') && s.left <= s'.left && s.mem <= s'.mem && s.lastSequence <= s'.lastSequence
  {
    hide Applied, Combined, Leaving, Weights;
    if step.Finish? {
      FinishKeepsArrival(s, step.inserted, step.ok, s');
    } else if step.Enqueue? {
      assert Arrived(s') == Arrived(s) + [step.writer];
    } else {
      assert Arrived(s') == Arrived(s);
    }
  }
}

/**
 The MANIFEST file as bytes (db/version_set.cc: Recover): a log of encoded edits,
 read back after a crash that may have cut it anywhere.
 */
module Manifest {
  import opened Format
  import opened Coding
  import opened Log
  import opened VersionEdit
  import Builder
  import opened Runs
  import opened Recovery

  const NEW_EDIT := Fields(None, None, None, None, None, [], {}, [])

  ghost function Encoded(es: seq<Fields>): (r: seq<Bytes>)
    ensures |r| == |es|
  {
    seq(|es|, i requires 0 <= i < |es| => Encode(es[i]))
  }

  predicate Matches(e: Fields, comparator: Bytes) {
    e.comparator.Some? ==> e.comparator.value == comparator
  }

  /** What the loop of Recover applies from `p` on, and its status: it stops at the end of
      the log, at a report, at an edit that does not decode or names another comparator. */
  ghost function Applied(crc: Checksum, file: Bytes, p: nat, comparator: Bytes): (r: (seq<Fields>, Status))
    requires p <= |file|
    decreases |file| - p
  {
    var next := NextRecord(crc, true, file, p, [], false);
    if next.reports != [] then ([], Corruption(next.reports[0].reason))
    else if next.record.None? then ([], OK)
    else
      var (e, status) := Decode(Cleared(NEW_EDIT), next.record.value);
      if status != OK then ([], status)
      else if !Matches(e, comparator) then ([], InvalidArgument("does not match existing comparator"))
      else
        var rest := Applied(crc, file, next.pos, comparator);
        ([e] + rest.0, rest.1)
  }

  /** The loop of VersionSet::Recover over the records. */
  method ReadEdits(crc: Checksum, file: Bytes, comparator: Bytes) returns (edits: seq<Fields>, status: Status)
    ensures (edits, status) == Applied(crc, file, 0, comparator)
  {
    hide NextRecord, Decode, Applied;
    var reader := new Reader(crc, true, file);
    edits, status := [], OK;
    assert [] + Applied(crc, file, 0, comparator).0 == Applied(crc, file, 0, comparator).0;
    while true
      invariant fresh(reader) && reader.Valid() && reader.crc == crc && reader.checksum && reader.file == file
      invariant reader.reports == [] && status == OK
      invariant Applied(crc, file, 0, comparator)
        == (var rest := Applied(crc, file, reader.Pos(), comparator); (edits + rest.0, rest.1))
      decreases |file| - reader.Pos()
    {
      ghost var p := reader.Pos();
      var record, added := reader.ReadRecord();
      assert [] + added == added && edits + [] == edits;
      if reader.reports != [] {
        status := Corruption(reader.reports[0].reason);
        StopsAtReport(crc, file, p, comparator);
        return;
      }
      if record.None? {
        StopsAtEnd(crc, file, p, comparator);
        return;
      }
      var edit := new Edit();
      var s := edit.DecodeFrom(record.value);
      GoesOn(crc, file, p, comparator);
      if s != OK {
        status := s;
        return;
      }
      if !Matches(edit.fields, comparator) {
        status := InvalidArgument("does not match existing comparator");
        return;
      }
      Assoc(edits, [edit.fields], Applied(crc, file, reader.Pos(), comparator).0);
      edits := edits + [edit.fields];
    }
  }

  lemma StopsAtReport(crc: Checksum, file: Bytes, p: nat, comparator: Bytes)
    requires p <= |file|
    ensures var next := NextRecord(crc, true, file, p, [], false);
      next.reports != [] ==> Applied(crc, file, p, comparator) == ([], Corruption(next.reports[0].reason))
  {
    hide NextRecord, Decode;
  }

  lemma StopsAtEnd(crc: Checksum, file: Bytes, p: nat, comparator: Bytes)
    requires p <= |file|
    ensures var next := NextRecord(crc, true, file, p, [], false);
      next.reports == [] && next.record.None? ==> Applied(crc, file, p, comparator) == ([], OK)
  {
    hide NextRecord, Decode;
  }

  lemma GoesOn(crc: Checksum, file: Bytes, p: nat, comparator: Bytes)
    requires p <= |file|
    ensures var next := NextRecord(crc, true, file, p, [], false);
      next.reports == [] && next.record.Some? ==>
        var (e, status) := Decode(Cleared(NEW_EDIT), next.record.value);
        Applied(crc, file, p, comparator) ==
          if status != OK then ([], status)
          else if !Matches(e, comparator) then ([], InvalidArgument("does not match existing comparator"))
          else var rest := Applied(crc, file, next.pos, comparator); ([e] + rest.0, rest.1)
  {
    hide NextRecord, Decode;
  }

  /** Records that read back without a report, and are edits, are all applied. */
  lemma {:induction false} ReadsAsEdits(crc: Checksum, file: Bytes, p: nat, comparator: Bytes, es: seq<Fields>)
    requires p <= |file| && ReadAll(crc, true, file, p) == (Encoded(es), [])
    requires forall e <- es :: e.Valid() && Matches(e, comparator)
    ensures Applied(crc, file, p, comparator) == (es, OK)
    decreases |es|
  {
    hide NextRecord, ReadAll, Decode, Encode, Applied;
    FirstRead(crc, file, p, Encoded(es));
    var next := NextRecord(crc, true, file, p, [], false);
    if es == [] {
      StopsAtEnd(crc, file, p, comparator);
    } else {
      assert es[0] in es && Encoded(es)[1..] == Encoded(es[1..]);
      ReadsAsEdits(crc, file, next.pos, comparator, es[1..]);
      EditRoundTrip(es[0], NEW_EDIT);
      GoesOn(crc, file, p, comparator);
      assert [es[0]] + es[1..] == es;
    }
  }

  lemma FirstRead(crc: Checksum, file: Bytes, p: nat, records: seq<Bytes>)
    requires p <= |file| && ReadAll(crc, true, file, p) == (records, [])
    ensures var next := NextRecord(crc, true, file, p, [], false);
      && next.reports == []
      && if records == [] then next.record.None?
         else next.record == Some(records[0]) && ReadAll(crc, true, file, next.pos) == (records[1..], [])
  {
    hide NextRecord;
  }

  /** A manifest cut anywhere reads back as the edits that are wholly in what is left. */
  lemma ManifestCrash(crc: Checksum, comparator: Bytes, es: seq<Fields>, t: nat, k: nat)
    requires forall e <- es :: e.Valid() && Matches(e, comparator)
    requires t <= |Contents(crc, Encoded(es))| && LeavesWhole(crc, Encoded(es), t, k)
    ensures Applied(crc, Contents(crc, Encoded(es))[..t], 0, comparator) == (es[..k], OK)
  {
    hide Applied, ReadAll, Contents;
    CrashRoundTrip(crc, true, Encoded(es), t, k);
    assert Encoded(es)[..k] == Encoded(es[..k]);
    ReadsAsEdits(crc, Contents(crc, Encoded(es))[..t], 0, comparator, es[..k]);
  }

  // ---------------------------------------------------------------- the tree after a crash

  lemma {:induction false} EditsOfPrefix(steps: seq<Step>, k: nat) returns (i: nat)
    requires k <= |EditsOf(steps)|
    ensures i <= |steps| && EditsOf(steps[..i]) == EditsOf(steps)[..k]
  {
    hide EditOf;
    var n := |steps|;
    if k == |EditsOf(steps)| {
      i := n;
      assert steps[..n] == steps;
    } else {
      AtMostOne(steps[n - 1]);
      i := EditsOfPrefix(steps[..n - 1], k);
      assert steps[..n - 1][..i] == steps[..i];
    }
  }

  lemma AtMostOne(step: Step)
    ensures |EditOf(step)| <= 1
  {
  }

  /** However a crash cuts the manifest of a run, recovery succeeds and gives the tree of
      one of the run's states, after the last edit that is wholly there.  `meaning` turns
      the metadata of an edit into the files it names. */
  method RecoverAfterCrash(crc: Checksum, file: Bytes, comparator: Bytes, meaning: Fields -> Builder.Edit,
                           ghost es: seq<Fields>, ghost t: nat, ghost k: nat, ghost states: seq<State>,
                           ghost steps: seq<Step>)
    returns (v: seq<seq<File>>, status: Status, ghost i: nat)
    requires Run(states, steps) && |es| == |EditsOf(steps)|
    requires forall e <- es :: e.Valid() && Matches(e, comparator)
    requires forall m :: 0 <= m < |es| ==> meaning(es[m]) == EditsOf(steps)[m]
    requires t <= |Contents(crc, Encoded(es))| && file == Contents(crc, Encoded(es))[..t]
    requires LeavesWhole(crc, Encoded(es), t, k)
    ensures status == OK && i < |states| && v == states[i].db.levels
    ensures k <= |es| && EditsOf(steps[..i]) == EditsOf(steps)[..k]
  {
    hide *;
    var edits;
    edits, status := ReadEdits(crc, file, comparator);
    ManifestCrash(crc, comparator, es, t, k);
    WholeInRange(crc, es, t, k);
    i := EditsOfPrefix(steps, k);
    RunLength(states, steps);
    var installed := seq(|edits|, m requires 0 <= m < |edits| => meaning(edits[m]));
    assert installed == EditsOf(steps[..i]);
    v := RecoverRun(installed, states, steps, i);
  }

  lemma WholeInRange(crc: Checksum, es: seq<Fields>, t: nat, k: nat)
    requires LeavesWhole(crc, Encoded(es), t, k)
    ensures k <= |es|
  {
    hide Contents;
  }

  lemma RunLength(states: seq<State>, steps: seq<Step>)
    requires Run(states, steps)
    ensures |states| == |steps| + 1
  {
    hide Next;
  }
}

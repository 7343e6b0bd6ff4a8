/**
 Damage to a log is local (doc/log_format.md): whatever the bytes before a block
 boundary have become, every record that starts behind the boundary is read.
 */
module LogDamage {
  import opened Format
  import opened Coding
  import opened Log
  import opened LogReading

  // ---------------------------------------------------------------- reading on from any state

  /** The records returned from `p` on, with a record perhaps half read. */
  ghost function From(crc: Checksum, checksum: bool, file: Bytes, p: nat, scratch: Bytes, inFragment: bool): seq<Bytes>
    requires p <= |file|
  {
    var r := NextRecord(crc, checksum, file, p, scratch, inFragment);
    if r.record.None? then [] else [r.record.value] + ReadAll(crc, checksum, file, r.pos).0
  }

  lemma FromClean(crc: Checksum, checksum: bool, file: Bytes, p: nat)
    requires p <= |file|
    ensures ReadAll(crc, checksum, file, p).0 == From(crc, checksum, file, p, [], false)
  {
    hide NextRecord;
  }

  lemma FromStep(crc: Checksum, checksum: bool, file: Bytes, p: nat, scratch: Bytes, inFragment: bool)
    requires p <= |file|
    ensures var r := NextPhysical(crc, checksum, file, p);
      var here := From(crc, checksum, file, p, scratch, inFragment);
      if r.kind == EOF then here == []
      else if r.kind == FULL then here == [r.fragment] + From(crc, checksum, file, r.pos, [], false)
      else if r.kind == LAST && inFragment then
        here == [scratch + r.fragment] + From(crc, checksum, file, r.pos, [], false)
      else
        var (report, scratch', inFragment') := Absorb(r, scratch, inFragment);
        here == From(crc, checksum, file, r.pos, scratch', inFragment')
  {
    hide NextPhysical, Absorb;
    var r := NextPhysical(crc, checksum, file, p);
    if r.kind != EOF { FromClean(crc, checksum, file, r.pos); }
  }

  lemma FromSame(crc: Checksum, checksum: bool, file: Bytes, p: nat, q: nat, scratch: Bytes, inFragment: bool)
    requires p <= |file| && q <= |file| && NextPhysical(crc, checksum, file, p) == NextPhysical(crc, checksum, file, q)
    ensures From(crc, checksum, file, p, scratch, inFragment) == From(crc, checksum, file, q, scratch, inFragment)
  {
    FromStep(crc, checksum, file, p, scratch, inFragment);
    FromStep(crc, checksum, file, q, scratch, inFragment);
    hide *;
  }

  /** Where a record starts, what was half read before does not matter. */
  lemma Resets(crc: Checksum, checksum: bool, file: Bytes, p: nat, scratch: Bytes, inFragment: bool)
    requires p <= |file| && NextPhysical(crc, checksum, file, p).kind in {FULL, FIRST}
    ensures From(crc, checksum, file, p, scratch, inFragment) == From(crc, checksum, file, p, [], false)
  {
    FromStep(crc, checksum, file, p, scratch, inFragment);
    FromStep(crc, checksum, file, p, [], false);
    hide NextPhysical, From;
  }

  /** Outside of a record nothing of the scratch is used. */
  lemma {:induction false} ScratchIgnored(crc: Checksum, checksum: bool, file: Bytes, p: nat, scratch: Bytes)
    requires p <= |file|
    ensures From(crc, checksum, file, p, scratch, false) == From(crc, checksum, file, p, [], false)
    decreases |file| - p
  {
    hide NextPhysical, From;
    FromStep(crc, checksum, file, p, scratch, false);
    FromStep(crc, checksum, file, p, [], false);
    var r := NextPhysical(crc, checksum, file, p);
    if r.kind != EOF { ScratchIgnored(crc, checksum, file, r.pos, scratch); }
  }

  // ---------------------------------------------------------------- the reader arrives at every boundary

  /** Reading on from `p`, a good fragment with type byte 5, which the reader takes for the end of
      the file, is met before `b`. */
  ghost predicate MeetsEndMark(crc: Checksum, checksum: bool, file: Bytes, p: nat, b: nat)
    requires p <= |file|
    decreases |file| - p
  {
    Place(p) < b &&
    var r := NextPhysical(crc, checksum, file, p);
    r.kind == 5 || MeetsEndMark(crc, checksum, file, r.pos, b)
  }

  lemma WithinBlock(crc: Checksum, checksum: bool, file: Bytes, p: nat, b: nat)
    requires b % 32768 == 0 && p <= b <= |file|
    ensures Place(p) <= b
    ensures Place(p) < b ==> NextPhysical(crc, checksum, file, p).pos <= b
  {
    hide At, NextPhysical;
    BeforeBoundary(p, b);
    if Place(p) < b {
      PhysicalRead(crc, checksum, file, p);
    }
  }

  lemma BeforeBoundary(p: nat, b: nat)
    requires b % 32768 == 0 && p <= b
    ensures Place(p) <= b
    ensures Place(p) < b ==> Place(p) + 7 <= Place(p) - Place(p) % 32768 + 32768 <= b
  {
  }

  lemma {:induction false} ToBoundary(crc: Checksum, checksum: bool, file: Bytes, p: nat, scratch: Bytes,
                                      inFragment: bool, b: nat)
    returns (pre: seq<Bytes>, scratch': Bytes, inFragment': bool)
    requires b % 32768 == 0 && p <= b <= |file| && !MeetsEndMark(crc, checksum, file, p, b)
    ensures From(crc, checksum, file, p, scratch, inFragment)
      == pre + From(crc, checksum, file, b, scratch', inFragment')
    decreases |file| - p
  {
    hide NextPhysical, From, At, Place, Absorb;
    WithinBlock(crc, checksum, file, p, b);
    if Place(p) == b {
      pre, scratch', inFragment' := [], scratch, inFragment;
      SamePhysical(crc, checksum, file, p);
      FromSame(crc, checksum, file, p, b, scratch, inFragment);
    } else {
      FromStep(crc, checksum, file, p, scratch, inFragment);
      var r := NextPhysical(crc, checksum, file, p);
      if r.kind == FULL || (r.kind == LAST && inFragment) {
        var first := if r.kind == FULL then r.fragment else scratch + r.fragment;
        pre, scratch', inFragment' := ToBoundary(crc, checksum, file, r.pos, [], false, b);
        pre := [first] + pre;
      } else {
        var (report, s, i) := Absorb(r, scratch, inFragment);
        pre, scratch', inFragment' := ToBoundary(crc, checksum, file, r.pos, s, i, b);
      }
    }
  }

  /** A header before a boundary reads the same in every file that agrees up to there. */
  lemma SameBefore(crc: Checksum, checksum: bool, file: Bytes, other: Bytes, p: nat, b: nat)
    requires b % 32768 == 0 && p <= b <= |file| && b <= |other| && file[..b] == other[..b] && Place(p) < b
    ensures NextPhysical(crc, checksum, file, p) == NextPhysical(crc, checksum, other, p)
  {
    BeforeBoundary(p, b);
    PhysicalRead(crc, checksum, file, p);
    PhysicalRead(crc, checksum, other, p);
    SamePrefix(file, other, b);
    hide *;
    SameHeader(crc, checksum, file, other, Place(p), b, NextPhysical(crc, checksum, file, p),
               NextPhysical(crc, checksum, other, p));
  }

  lemma SamePrefix(file: Bytes, other: Bytes, b: nat)
    requires b <= |file| && b <= |other| && file[..b] == other[..b]
    ensures forall i :: 0 <= i < b ==> file[i] == other[i]
  {
    assert forall i :: 0 <= i < b ==> file[i] == file[..b][i] == other[..b][i];
  }

  lemma SamePart(file: Bytes, other: Bytes, i: nat, j: nat, b: nat)
    requires b <= |file| && b <= |other| && i <= j <= b && forall k :: 0 <= k < b ==> file[k] == other[k]
    ensures file[i..j] == other[i..j]
  {
  }

  lemma SameHeader(crc: Checksum, checksum: bool, file: Bytes, other: Bytes, q: nat, b: nat, r: Physical, r': Physical)
    requires b <= |file| && b <= |other| && forall i :: 0 <= i < b ==> file[i] == other[i]
    requires q + 7 <= q - q % 32768 + 32768 <= b
    requires ReadsHeader(crc, checksum, file, q, r) && ReadsHeader(crc, checksum, other, q, r')
    ensures r == r'
  {
    hide At;
    var n := file[q + 4] as nat + 256 * file[q + 5] as nat;
    var end := q - q % 32768 + 32768;
    if q + 7 + n <= end {
      SamePart(file, other, q + 7, q + 7 + n, b);
      SameAt(crc, checksum, file, other, Fragment(q, file[q + 6], file[q + 7..q + 7 + n]), b);
    }
  }

  lemma SameAt(crc: Checksum, checksum: bool, file: Bytes, other: Bytes, f: Fragment, b: nat)
    requires b <= |file| && b <= |other| && f.End() <= b && forall i :: 0 <= i < b ==> file[i] == other[i]
    ensures At(crc, checksum, file, f) <==> At(crc, checksum, other, f)
  {
    hide Unmask, DecodeFixed;
    SamePart(file, other, f.pos + 6, f.End(), b);
    SamePart(file, other, f.pos, f.pos + 4, b);
  }

  /** Behind an end mark nothing is read: what follows the boundary does not matter. */
  lemma {:induction false} NothingBehind(crc: Checksum, checksum: bool, file: Bytes, other: Bytes, p: nat,
                                         scratch: Bytes, inFragment: bool, b: nat)
    requires b % 32768 == 0 && p <= b <= |file| && b <= |other| && file[..b] == other[..b]
    requires MeetsEndMark(crc, checksum, file, p, b)
    ensures From(crc, checksum, file, p, scratch, inFragment) == From(crc, checksum, other, p, scratch, inFragment)
    decreases |file| - p
  {
    hide NextPhysical, From, At, Place, Absorb;
    SameBefore(crc, checksum, file, other, p, b);
    WithinBlock(crc, checksum, file, p, b);
    FromStep(crc, checksum, file, p, scratch, inFragment);
    FromStep(crc, checksum, other, p, scratch, inFragment);
    var r := NextPhysical(crc, checksum, file, p);
    if r.kind == EOF {
    } else if r.kind == FULL || (r.kind == LAST && inFragment) {
      NothingBehind(crc, checksum, file, other, r.pos, [], false, b);
    } else {
      var (report, s, i) := Absorb(r, scratch, inFragment);
      NothingBehind(crc, checksum, file, other, r.pos, s, i, b);
    }
  }

  // ---------------------------------------------------------------- undamaged records

  /** A record that is wholly there is read, in whatever state its start is reached. */
  lemma RecordRead(crc: Checksum, checksum: bool, file: Bytes, p: nat, data: Bytes, scratch: Bytes, inFragment: bool)
    requires Agrees(file, p, Emit(crc, p % BLOCK_SIZE, data, true))
    requires p + |Emit(crc, p % BLOCK_SIZE, data, true)| <= |file|
    ensures From(crc, checksum, file, p, scratch, inFragment)
      == [data] + ReadAll(crc, checksum, file, p + |Emit(crc, p % BLOCK_SIZE, data, true)|).0
  {
    hide NextPhysical, Agrees, PhysicalRecord, Padding, Emit, EmitRest, StartOf, FragmentLength, NextRecord;
    EmittedReadsBack(crc, checksum, file, p, data, true, []);
    EmitUnfolds(crc, p % BLOCK_SIZE, data, true);
    var n := FragmentLength(p % BLOCK_SIZE, data);
    var rest := EmitRest(crc, p % BLOCK_SIZE, data);
    FirstFragmentReads(crc, checksum, file, p, KindOf(true, n == |data|), data[..n], rest);
    AgreesInFile(file, p, Emit(crc, p % BLOCK_SIZE, data, true));
    Resets(crc, checksum, file, p, scratch, inFragment);
    assert [] + data == data;
  }

  /** The rest of a record whose beginning was not seen is passed over. */
  lemma {:induction false} TailPassed(crc: Checksum, checksum: bool, file: Bytes, p: nat, data: Bytes, scratch: Bytes)
    requires Agrees(file, p, Emit(crc, p % BLOCK_SIZE, data, false))
    requires p + |Emit(crc, p % BLOCK_SIZE, data, false)| <= |file|
    ensures From(crc, checksum, file, p, scratch, false)
      == From(crc, checksum, file, p + |Emit(crc, p % BLOCK_SIZE, data, false)|, scratch, false)
    decreases |data|, if p % BLOCK_SIZE == BLOCK_SIZE - HEADER_SIZE then 1 else 0
  {
    hide NextPhysical, Agrees, PhysicalRecord, Padding, Emit, EmitRest, StartOf, FragmentLength, From;
    var offset := p % BLOCK_SIZE;
    var n := FragmentLength(offset, data);
    EmitUnfolds(crc, offset, data, false);
    AgreesInFile(file, p, Emit(crc, offset, data, false));
    FirstFragmentReads(crc, checksum, file, p, KindOf(false, n == |data|), data[..n], EmitRest(crc, offset, data));
    FromStep(crc, checksum, file, p, scratch, false);
    if n < |data| {
      RestAfter(crc, p, data);
      TailPassed(crc, checksum, file, NextPhysical(crc, checksum, file, p).pos, data[n..], scratch);
    }
  }

  lemma TailRead(crc: Checksum, checksum: bool, file: Bytes, p: nat, data: Bytes, begin: bool, scratch: Bytes,
                 inFragment: bool)
    returns (pre: seq<Bytes>)
    requires Agrees(file, p, Emit(crc, p % BLOCK_SIZE, data, begin))
    requires p + |Emit(crc, p % BLOCK_SIZE, data, begin)| <= |file|
    ensures From(crc, checksum, file, p, scratch, inFragment)
      == pre + ReadAll(crc, checksum, file, p + |Emit(crc, p % BLOCK_SIZE, data, begin)|).0
  {
    hide NextPhysical, Agrees, Emit, NextRecord;
    var end := p + |Emit(crc, p % BLOCK_SIZE, data, begin)|;
    AgreesInFile(file, p, Emit(crc, p % BLOCK_SIZE, data, begin));
    if begin {
      RecordRead(crc, checksum, file, p, data, scratch, inFragment);
      pre := [data];
    } else if inFragment {
      EmittedReadsBack(crc, checksum, file, p, data, false, scratch);
      pre := [scratch + data];
    } else {
      TailPassed(crc, checksum, file, p, data, scratch);
      ScratchIgnored(crc, checksum, file, end, scratch);
      FromClean(crc, checksum, file, end);
      pre := [];
    }
  }

  // ---------------------------------------------------------------- records across a boundary

  /** What is written of a record behind a block boundary is again what would be written there. */
  lemma {:induction false} SplitAtBoundary(crc: Checksum, p: nat, data: Bytes, begin: bool, b: nat)
    returns (data': Bytes, begin': bool)
    requires b % BLOCK_SIZE == 0 && p < b < p + |Emit(crc, p % BLOCK_SIZE, data, begin)|
    ensures Emit(crc, p % BLOCK_SIZE, data, begin)[b - p..] == Emit(crc, 0, data', begin')
    decreases |data|, if p % BLOCK_SIZE == BLOCK_SIZE - HEADER_SIZE then 1 else 0
  {
    hide PhysicalRecord, Emit, EmitRest;
    var offset := p % BLOCK_SIZE;
    var n := FragmentLength(offset, data);
    var (pad, rec) := (Padding(offset), PhysicalRecord(crc, KindOf(begin, n == |data|), data[..n]));
    var rest := EmitRest(crc, offset, data);
    EmitUnfolds(crc, offset, data, begin);
    FragmentInBlock(p, n, b);
    assert pad + rec + rest == pad + (rec + rest);
    if b <= p + |pad| {
      data', begin' := data, begin;
      SameBehindPadding(crc, offset, data, begin);
      assert Emit(crc, offset, data, begin)[b - p..] == rec + rest;
    } else {
      var p' := p + |pad| + |rec|;
      RestAfter(crc, p, data);
      assert Emit(crc, offset, data, begin)[b - p..] == rest[b - p'..];
      if b == p' {
        data', begin' := data[n..], false;
      } else {
        data', begin' := SplitAtBoundary(crc, p', data[n..], false, b);
      }
    }
  }

  lemma FragmentInBlock(p: nat, n: nat, b: nat)
    requires b % BLOCK_SIZE == 0 && p < b
    requires StartOf(p % BLOCK_SIZE) + HEADER_SIZE + n <= BLOCK_SIZE
    ensures var pad := |Padding(p % BLOCK_SIZE)|;
      (pad > 0 && b == p + pad) || p + pad + HEADER_SIZE + n <= b
  {
  }

  lemma SameBehindPadding(crc: Checksum, offset: nat, data: Bytes, begin: bool)
    requires offset < BLOCK_SIZE && BLOCK_SIZE - offset < HEADER_SIZE
    ensures var n := FragmentLength(offset, data);
      Emit(crc, 0, data, begin)
      == PhysicalRecord(crc, KindOf(begin, n == |data|), data[..n]) + EmitRest(crc, offset, data)
  {
    hide PhysicalRecord, Emit;
    EmitUnfolds(crc, 0, data, begin);
    assert Padding(0) == [];
  }

  // ---------------------------------------------------------------- a damaged log

  /** From `b` on, the file is what the records were written as. */
  ghost predicate IntactFrom(crc: Checksum, records: seq<Bytes>, file: Bytes, b: nat) {
    && |file| == |Contents(crc, records)|
    && forall x :: b <= x < |file| ==> file[x] == Contents(crc, records)[x]
  }

  lemma IntactRecord(crc: Checksum, records: seq<Bytes>, file: Bytes, b: nat, k: nat)
    requires IntactFrom(crc, records, file, b) && k < |records|
    ensures var (p, e) := (|Contents(crc, records[..k])|,
                           Emit(crc, |Contents(crc, records[..k])| % BLOCK_SIZE, records[k], true));
      && p + |e| == |Contents(crc, records[..k + 1])| <= |file|
      && forall x :: b <= x && p <= x < p + |e| ==> file[x] == e[x - p]
  {
    hide Emit, Contents;
    var (before, all) := (Contents(crc, records[..k]), Contents(crc, records));
    var e := Emit(crc, |before| % BLOCK_SIZE, records[k], true);
    ContentsPrefix(crc, records, k + 1);
    ContentsNext(crc, records, k);
    assert forall j :: |before| <= j < |before| + |e| ==> all[j] == (before + e)[j] == e[j - |before|];
  }

  lemma {:induction false} RecordsRead(crc: Checksum, checksum: bool, records: seq<Bytes>, file: Bytes, b: nat, k: nat)
    requires IntactFrom(crc, records, file, b) && k <= |records| && b <= |Contents(crc, records[..k])|
    ensures |Contents(crc, records[..k])| <= |file|
    ensures ReadAll(crc, checksum, file, |Contents(crc, records[..k])|).0 == records[k..]
    decreases |records| - k
  {
    hide Emit, Contents, ReadAll, From;
    var p := |Contents(crc, records[..k])|;
    if k == |records| {
      assert records[..k] == records;
      AtTheEnd(crc, checksum, file);
    } else {
      IntactRecord(crc, records, file, b, k);
      RecordsRead(crc, checksum, records, file, b, k + 1);
      FromClean(crc, checksum, file, p);
      RecordRead(crc, checksum, file, p, records[k], [], false);
      assert records[k..] == [records[k]] + records[k + 1..];
    }
  }

  lemma {:induction false} StartsIncrease(crc: Checksum, records: seq<Bytes>, i: nat, k: nat)
    requires i < k <= |records|
    ensures |Contents(crc, records[..i])| < |Contents(crc, records[..k])|
  {
    hide Emit, Contents, PhysicalRecord, EmitRest;
    if i < k - 1 { StartsIncrease(crc, records, i, k - 1); }
    ContentsNext(crc, records, k - 1);
    EmitUnfolds(crc, |Contents(crc, records[..k - 1])| % BLOCK_SIZE, records[k - 1], true);
  }

  /** From a boundary on, in whatever state it is reached. */
  lemma FromBoundary(crc: Checksum, checksum: bool, records: seq<Bytes>, file: Bytes, b: nat, k: nat, scratch: Bytes,
                     inFragment: bool)
    returns (pre: seq<Bytes>)
    requires IntactFrom(crc, records, file, b) && b % BLOCK_SIZE == 0 && b <= |file|
    requires LeavesWhole(crc, records, b, k)
    ensures var next := if |Contents(crc, records[..k])| == b then k else k + 1;
      next <= |records| && From(crc, checksum, file, b, scratch, inFragment) == pre + records[next..]
  {
    hide Emit, Contents, ReadAll, From, IntactFrom;
    var p := |Contents(crc, records[..k])|;
    if k == |records| {
      assert records[..k] == records;
      assert p == |file| by { IntactLength(crc, records, file, b); }
      NothingAtEnd(crc, checksum, file, scratch, inFragment);
      pre := [];
    } else {
      IntactRecord(crc, records, file, b, k);
      RecordsRead(crc, checksum, records, file, b, k + 1);
      if p == b {
        RecordRead(crc, checksum, file, p, records[k], scratch, inFragment);
        assert records[k..] == [records[k]] + records[k + 1..];
        pre := [];
      } else {
        var data, begin := SplitAtBoundary(crc, p, records[k], true, b);
        TailAgrees(crc, file, p, Emit(crc, p % BLOCK_SIZE, records[k], true), b, Emit(crc, 0, data, begin));
        pre := TailRead(crc, checksum, file, b, data, begin, scratch, inFragment);
      }
    }
  }

  lemma IntactLength(crc: Checksum, records: seq<Bytes>, file: Bytes, b: nat)
    requires IntactFrom(crc, records, file, b)
    ensures |file| == |Contents(crc, records)|
  {
  }

  lemma NothingAtEnd(crc: Checksum, checksum: bool, file: Bytes, scratch: Bytes, inFragment: bool)
    ensures From(crc, checksum, file, |file|, scratch, inFragment) == []
  {
    FromStep(crc, checksum, file, |file|, scratch, inFragment);
  }

  lemma TailAgrees(crc: Checksum, file: Bytes, p: nat, e: Bytes, b: nat, tail: Bytes)
    requires p < b < p + |e| <= |file| && e[b - p..] == tail
    requires forall x :: b <= x && p <= x < p + |e| ==> file[x] == e[x - p]
    ensures Agrees(file, b, tail) && b + |tail| == p + |e|
  {
    assert forall y :: 0 <= y < |tail| ==> tail[y] == e[b - p + y];
  }

  /** Whatever the bytes before the block boundary `b` have become: unless the reader meets an end
      mark among them, all records that start at or behind `b` are read, in order, as the last ones
      returned; if it does, none is, and the same is returned whatever lies behind `b`. */
  lemma DamageIsLocal(crc: Checksum, checksum: bool, records: seq<Bytes>, file: Bytes, b: nat, i: nat, other: Bytes)
    returns (pre: seq<Bytes>)
    requires b % BLOCK_SIZE == 0 && b <= |file| && IntactFrom(crc, records, file, b)
    requires i <= |records| && b <= |Contents(crc, records[..i])|
    requires b <= |other| && file[..b] == other[..b]
    ensures if MeetsEndMark(crc, checksum, file, 0, b)
      then ReadAll(crc, checksum, file, 0).0 == ReadAll(crc, checksum, other, 0).0
      else ReadAll(crc, checksum, file, 0).0 == pre + records[i..]
  {
    assert b % 32768 == 0;
    hide *;
    FromClean(crc, checksum, file, 0);
    if MeetsEndMark(crc, checksum, file, 0, b) {
      FromClean(crc, checksum, other, 0);
      NothingBehind(crc, checksum, file, other, 0, [], false, b);
      pre := [];
    } else {
      var k := EveryCutLeavesSome(crc, records, b);
      var before, scratch, inFragment := ToBoundary(crc, checksum, file, 0, [], false, b);
      var more := FromBoundary(crc, checksum, records, file, b, k, scratch, inFragment);
      var next := if |Contents(crc, records[..k])| == b then k else k + 1;
      NotBefore(crc, records, b, k, i);
      pre := before + (more + records[next..i]);
      LastOnes(before, more, records, next, i);
    }
  }

  lemma LastOnes(before: seq<Bytes>, more: seq<Bytes>, records: seq<Bytes>, next: nat, i: nat)
    requires next <= i <= |records|
    ensures before + (more + records[next..]) == before + (more + records[next..i]) + records[i..]
  {
    assert records[next..] == records[next..i] + records[i..];
    Coding.Assoc(more, records[next..i], records[i..]);
    Coding.Assoc(before, more + records[next..i], records[i..]);
  }

  lemma NotBefore(crc: Checksum, records: seq<Bytes>, b: nat, k: nat, i: nat)
    requires LeavesWhole(crc, records, b, k) && i <= |records| && b <= |Contents(crc, records[..i])|
    ensures (if |Contents(crc, records[..k])| == b then k else k + 1) <= i
  {
    hide Contents;
    if i < k { StartsIncrease(crc, records, i, k); }
  }
}

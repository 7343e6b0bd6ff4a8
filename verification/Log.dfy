/**
 The write-ahead log (db/log_writer.cc, db/log_reader.cc, db/log_format.h): records
 cut into fragments that fit 32 KB blocks, and a reader that must survive a file
 cut anywhere by a crash.

 The checksum is a parameter: any function of the type byte and the payload.
 */
module Log {
  import opened Format
  import opened Coding

  const BLOCK_SIZE: nat := 32768
  const HEADER_SIZE: nat := 7

  const ZERO: Byte := 0
  const FULL: Byte := 1
  const FIRST: Byte := 2
  const MIDDLE: Byte := 3
  const LAST: Byte := 4
  const EOF: Byte := 5
  const BAD_RECORD: Byte := 6

  type U32 = x: nat | x < TWO_32
  type Checksum = Bytes -> U32

  // ---------------------------------------------------------------- masked checksums

  const MASK_DELTA: nat := 0xa282_ead8

  /** Rotate right by 15 bits and add a constant. */
  function Mask(crc: U32): U32 {
    (crc / 0x8000 + crc % 0x8000 * 0x2_0000 + MASK_DELTA) % TWO_32
  }

  function Unmask(masked: U32): U32 {
    var rot := (masked + TWO_32 - MASK_DELTA) % TWO_32;
    rot / 0x2_0000 + rot % 0x2_0000 * 0x8000
  }

  lemma UnmaskMask(crc: U32)
    ensures Unmask(Mask(crc)) == crc
  {
    var rot := crc / 0x8000 + crc % 0x8000 * 0x2_0000;
    assert rot < TWO_32;
    assert (Mask(crc) + TWO_32 - MASK_DELTA) % TWO_32 == rot;
    assert rot / 0x2_0000 == crc % 0x8000 && rot % 0x2_0000 == crc / 0x8000;
  }

  // ---------------------------------------------------------------- the format

  function Zeros(n: nat): (r: Bytes)
    ensures |r| == n
  {
    seq(n, i => 0)
  }

  /** Checksum, length and type, then the payload. */
  function PhysicalRecord(crc: Checksum, kind: Byte, payload: Bytes): (r: Bytes)
    requires |payload| <= BLOCK_SIZE - HEADER_SIZE
    ensures |r| == HEADER_SIZE + |payload|
  {
    Fixed(Mask(crc([kind] + payload)), 4) + [|payload| % 256, |payload| / 256, kind] + payload
  }

  function KindOf(begin: bool, end: bool): Byte {
    if begin && end then FULL else if begin then FIRST else if end then LAST else MIDDLE
  }

  /** Where the next fragment starts, seen from its block. */
  function StartOf(offset: nat): nat
    requires offset <= BLOCK_SIZE
  {
    if BLOCK_SIZE - offset < HEADER_SIZE then 0 else offset
  }

  function Padding(offset: nat): Bytes
    requires offset <= BLOCK_SIZE
  {
    if BLOCK_SIZE - offset < HEADER_SIZE then Zeros(BLOCK_SIZE - offset) else []
  }

  function FragmentLength(offset: nat, data: Bytes): (n: nat)
    requires offset <= BLOCK_SIZE
    ensures n <= |data| && StartOf(offset) + HEADER_SIZE + n <= BLOCK_SIZE
  {
    var avail := BLOCK_SIZE - StartOf(offset) - HEADER_SIZE;
    if |data| < avail then |data| else avail
  }

  ghost function Emit(crc: Checksum, offset: nat, data: Bytes, begin: bool): Bytes
    requires offset < BLOCK_SIZE
    decreases |data|, if offset == BLOCK_SIZE - HEADER_SIZE then 1 else 0
  {
    var n := FragmentLength(offset, data);
    var end := n == |data|;
    Padding(offset) + PhysicalRecord(crc, KindOf(begin, end), data[..n])
    + if end then [] else Emit(crc, (StartOf(offset) + HEADER_SIZE + n) % BLOCK_SIZE, data[n..], false)
  }

  /** The file that holds the records. */
  ghost function Contents(crc: Checksum, records: seq<Bytes>): Bytes {
    if records == [] then []
    else
      var n := |records| - 1;
      var before := Contents(crc, records[..n]);
      before + Emit(crc, |before| % BLOCK_SIZE, records[n], true)
  }

  // ---------------------------------------------------------------- writer

  class Writer {
    const crc: Checksum
    var dest: Bytes
    var blockOffset: nat

    ghost predicate Valid()
      reads this
    {
      blockOffset <= BLOCK_SIZE && blockOffset % BLOCK_SIZE == |dest| % BLOCK_SIZE
    }

    /** A writer that goes on with an existing file. */
    constructor (crc: Checksum, dest: Bytes)
      ensures Valid() && this.crc == crc && this.dest == dest
    {
      this.crc, this.dest := crc, dest;
      blockOffset := |dest| % BLOCK_SIZE;
    }

    /** Writer::AddRecord: what is appended depends only on the length of the file,
        so a reopened writer goes on as one that was never closed.  If the file stops
        taking bytes at fragment `i` after `accepted(i)` of them, what is there is a
        beginning of what was to be there. */
    method AddRecord(slice: Bytes, accepted: nat -> nat) returns (ok: bool)
      requires Valid()
      modifies this
      ensures var target := old(dest) + Emit(crc, |old(dest)| % BLOCK_SIZE, slice, true);
        if ok then Valid() && dest == target else |old(dest)| <= |dest| && dest <= target
      ensures (forall i: nat :: accepted(i) > BLOCK_SIZE) ==> ok
    {
      hide Emit, PhysicalRecord, Padding, KindOf;
      var left := slice;
      var begin := true;
      ghost var target := dest + Emit(crc, |dest| % BLOCK_SIZE, slice, true);
      var more := true;
      var i := 0;
      while more
        invariant Valid() && |old(dest)| <= |dest|
        invariant if more then dest + Emit(crc, |dest| % BLOCK_SIZE, left, begin) == target
                  else dest == target && left == []
        decreases |left|, more, if |dest| % BLOCK_SIZE == BLOCK_SIZE - HEADER_SIZE then 1 else 0
      {
        EmitStep(crc, dest, left, begin);
        SwitchBlock();
        var avail := BLOCK_SIZE - blockOffset - HEADER_SIZE;
        var fragmentLength := if |left| < avail then |left| else avail;
        var end := |left| == fragmentLength;
        ghost var whole := dest + PhysicalRecord(crc, KindOf(begin, end), left[..fragmentLength]);
        var emitted := EmitPhysicalRecord(KindOf(begin, end), left[..fragmentLength], accepted(i));
        if !emitted {
          assert dest <= whole <= target;
          return false;
        }
        left := left[fragmentLength..];
        begin := false;
        more := |left| > 0;
        i := i + 1;
      }
      ok := true;
    }

    /** The trailer of a block that has no room for a header. */
    method SwitchBlock()
      requires Valid()
      modifies this
      ensures Valid() && blockOffset == StartOf(|old(dest)| % BLOCK_SIZE)
      ensures dest == old(dest) + Padding(|old(dest)| % BLOCK_SIZE)
    {
      hide Zeros;
      var leftover := BLOCK_SIZE - blockOffset;
      if leftover < HEADER_SIZE {
        if leftover > 0 {
          dest := dest + Zeros(leftover);
        }
        blockOffset := 0;
      }
    }

    /** Writer::EmitPhysicalRecord: header, payload and flush, of which the file takes
        `accepted` bytes; the offset moves on in any case. */
    method EmitPhysicalRecord(kind: Byte, payload: Bytes, accepted: nat) returns (ok: bool)
      requires Valid() && blockOffset + HEADER_SIZE + |payload| <= BLOCK_SIZE
      modifies this
      ensures ok <==> accepted > HEADER_SIZE + |payload|
      ensures ok ==> Valid() && dest == old(dest) + PhysicalRecord(crc, kind, payload)
      ensures !ok ==> dest == old(dest) + PhysicalRecord(crc, kind, payload)[..accepted]
      ensures blockOffset == old(blockOffset) + HEADER_SIZE + |payload|
    {
      hide Fixed, Mask;
      OffsetAdvances(blockOffset, |dest|, HEADER_SIZE + |payload|);
      var header := Fixed(Mask(crc([kind] + payload)), 4) + [|payload| % 256, |payload| / 256, kind];
      var record := header + payload;
      ok := accepted > |record|;
      dest := dest + if ok then record else record[..accepted];
      blockOffset := blockOffset + HEADER_SIZE + |payload|;
    }
  }

  method AddAll(w: Writer, records: seq<Bytes>, ghost before: seq<Bytes>)
    requires w.Valid() && w.dest == Contents(w.crc, before)
    modifies w
    ensures w.Valid() && w.dest == Contents(w.crc, before + records)
  {
    hide Emit;
    assert before + records[..0] == before;
    for i := 0 to |records|
      invariant w.Valid() && w.dest == Contents(w.crc, before + records[..i])
    {
      var ok := w.AddRecord(records[i], f => BLOCK_SIZE + 1);
      ghost var longer := before + records[..i + 1];
      assert longer[..|before| + i] == before + records[..i] && longer[|before| + i] == records[i];
    }
    assert records[..|records|] == records;
  }

  /** Closing the log and reopening it at its length leaves the same bytes as one
      continuous writer. */
  method ReopenedLog(crc: Checksum, first: seq<Bytes>, second: seq<Bytes>) returns (file: Bytes)
    ensures file == Contents(crc, first + second)
  {
    var w := new Writer(crc, []);
    AddAll(w, first, []);
    assert [] + first == first;
    var reopened := new Writer(crc, w.dest);
    AddAll(reopened, second, first);
    file := reopened.dest;
  }

  lemma OffsetAdvances(a: nat, b: nat, n: nat)
    requires a % BLOCK_SIZE == b % BLOCK_SIZE
    ensures (a + n) % BLOCK_SIZE == (b + n) % BLOCK_SIZE
  {
  }

  /** One turn of the loop of AddRecord. */
  lemma EmitStep(crc: Checksum, dest: Bytes, data: Bytes, begin: bool)
    ensures var offset := |dest| % BLOCK_SIZE;
      var n := FragmentLength(offset, data);
      var dest' := dest + Padding(offset) + PhysicalRecord(crc, KindOf(begin, n == |data|), data[..n]);
      && |dest'| % BLOCK_SIZE == (StartOf(offset) + HEADER_SIZE + n) % BLOCK_SIZE
      && dest + Emit(crc, offset, data, begin) ==
        dest' + if n == |data| then [] else Emit(crc, |dest'| % BLOCK_SIZE, data[n..], false)
  {
    hide PhysicalRecord, Zeros, FragmentLength, KindOf;
    var offset := |dest| % BLOCK_SIZE;
    var n := FragmentLength(offset, data);
    var (pad, rec) := (Padding(offset), PhysicalRecord(crc, KindOf(begin, n == |data|), data[..n]));
    OffsetAfter(|dest|, n);
    assert |dest + pad + rec| == |dest| + |pad| + HEADER_SIZE + n;
    var tail := if n == |data| then []
                else Emit(crc, (StartOf(offset) + HEADER_SIZE + n) % BLOCK_SIZE, data[n..], false);
    Regroup(dest, pad, rec, tail);
  }

  lemma OffsetAfter(length: nat, n: nat)
    ensures (length + |Padding(length % BLOCK_SIZE)| + HEADER_SIZE + n) % BLOCK_SIZE
      == (StartOf(length % BLOCK_SIZE) + HEADER_SIZE + n) % BLOCK_SIZE
  {
  }

  lemma Regroup(a: Bytes, b: Bytes, c: Bytes, d: Bytes)
    ensures a + (b + c + d) == a + b + c + d
  {
  }

  // ---------------------------------------------------------------- what a reader makes of a file

  datatype Report = Report(bytes: nat, reason: string)

  /** What a physical read returns, where it leaves the reader, and what it reported. */
  datatype Physical = Physical(kind: Byte, fragment: Bytes, pos: nat, reports: seq<Report>)

  /** The next block boundary after `p`. */
  function Boundary(p: nat): (r: nat)
    ensures p < r
  {
    p - p % BLOCK_SIZE + BLOCK_SIZE
  }

  function BlockEnd(file: Bytes, p: nat): (r: nat)
    requires p <= |file|
    ensures p <= r <= |file|
  {
    if |file| < Boundary(p) then |file| else Boundary(p)
  }

  ghost function NextPhysical(crc: Checksum, checksum: bool, file: Bytes, p: nat): (r: Physical)
    requires p <= |file|
    ensures r.pos <= |file| && (r.kind != EOF ==> p < r.pos)
    decreases |file| - p
  {
    var e := BlockEnd(file, p);
    if e - p < HEADER_SIZE then
      if e == |file| then Physical(EOF, [], |file|, []) else NextPhysical(crc, checksum, file, e)
    else
      var (low: nat, high: nat) := (file[p + 4], file[p + 5]);
      var length := low + 256 * high;
      var kind := file[p + 6];
      if HEADER_SIZE + length > e - p then
        if |file| < Boundary(p) then Physical(EOF, [], e, [])
        else Physical(BAD_RECORD, [], e, [Report(e - p, "bad record length")])
      else if kind == ZERO && length == 0 then Physical(BAD_RECORD, [], e, [])
      else if checksum && crc(file[p + 6..p + 7 + length]) != Unmask(DecodeFixed(file[p..p + 4]) % TWO_32) then
        Physical(BAD_RECORD, [], e, [Report(e - p, "checksum mismatch")])
      else Physical(kind, file[p + 7..p + 7 + length], p + 7 + length, [])
  }

  /** What ReadRecord returns, where it leaves the reader, and what it reported. */
  datatype Outcome = Outcome(record: Option<Bytes>, pos: nat, reports: seq<Report>)

  ghost function NextRecord(crc: Checksum, checksum: bool, file: Bytes, p: nat, scratch: Bytes,
                            inFragment: bool): (r: Outcome)
    requires p <= |file|
    ensures r.pos <= |file| && (r.record.Some? ==> p < r.pos)
    decreases |file| - p
  {
    var r := NextPhysical(crc, checksum, file, p);
    var partial := inFragment && scratch != [];
    if r.kind == EOF then Outcome(None, r.pos, r.reports)
    else if r.kind == FULL then
      Outcome(Some(r.fragment), r.pos,
              r.reports + if partial then [Report(|scratch|, "partial record without end(1)")] else [])
    else if r.kind == LAST && inFragment then Outcome(Some(scratch + r.fragment), r.pos, r.reports)
    else
      var (report, scratch', inFragment') := Absorb(r, scratch, inFragment);
      var next := NextRecord(crc, checksum, file, r.pos, scratch', inFragment');
      Outcome(next.record, next.pos, r.reports + report + next.reports)
  }

  /** The cases of ReadRecord that go on: what is reported, and the new partial record. */
  function Absorb(r: Physical, scratch: Bytes, inFragment: bool): (seq<Report>, Bytes, bool) {
    if r.kind == FIRST then
      (if inFragment && scratch != [] then [Report(|scratch|, "partial record without end(2)")] else [], r.fragment,
       true)
    else if r.kind == MIDDLE && inFragment then ([], scratch + r.fragment, true)
    else if r.kind == MIDDLE then ([Report(|r.fragment|, "missing start of fragmented record(1)")], scratch, false)
    else if r.kind == LAST then ([Report(|r.fragment|, "missing start of fragmented record(2)")], scratch, false)
    else if r.kind == BAD_RECORD then
      if inFragment then ([Report(|scratch|, "error in middle of record")], [], false) else ([], scratch, false)
    else ([Report(|r.fragment| + if inFragment then |scratch| else 0, "unknown record type")], [], false)
  }

  /** All that a reader returns and reports from `p` on. */
  ghost function ReadAll(crc: Checksum, checksum: bool, file: Bytes, p: nat): (seq<Bytes>, seq<Report>)
    requires p <= |file|
    decreases |file| - p
  {
    var r := NextRecord(crc, checksum, file, p, [], false);
    if r.record.None? then ([], r.reports)
    else
      var rest := ReadAll(crc, checksum, file, r.pos);
      ([r.record.value] + rest.0, r.reports + rest.1)
  }

  // ---------------------------------------------------------------- reading back, up to a cut

  /** A fragment that is wholly in the file is read back. */
  lemma WholeFragment(crc: Checksum, checksum: bool, file: Bytes, q: nat, kind: Byte, payload: Bytes)
    requires |payload| <= BLOCK_SIZE - HEADER_SIZE && q % BLOCK_SIZE + HEADER_SIZE + |payload| <= BLOCK_SIZE
    requires q + HEADER_SIZE + |payload| <= |file| && kind != ZERO
    requires file[q..q + HEADER_SIZE + |payload|] == PhysicalRecord(crc, kind, payload)
    ensures NextPhysical(crc, checksum, file, q) == Physical(kind, payload, q + HEADER_SIZE + |payload|, [])
  {
    hide Fixed, Mask, Unmask, PhysicalRecord, DecodeFixed;
    HeaderBytes(crc, file, q, kind, payload);
    UnmaskMask(crc([kind] + payload));
    FixedMask(Mask(crc([kind] + payload)));
  }

  lemma FixedMask(x: U32)
    ensures DecodeFixed(Fixed(x, 4)) == x
  {
    assert Pow256(4) == TWO_32 by { assert Pow256(2) == 65536; }
    FixedRoundTrip(x, 4);
  }

  lemma HeaderBytes(crc: Checksum, file: Bytes, q: nat, kind: Byte, payload: Bytes)
    requires |payload| <= BLOCK_SIZE - HEADER_SIZE && q + HEADER_SIZE + |payload| <= |file|
    requires file[q..q + HEADER_SIZE + |payload|] == PhysicalRecord(crc, kind, payload)
    ensures file[q + 4] == |payload| % 256 && file[q + 5] == |payload| / 256 && file[q + 6] == kind
    ensures file[q..q + 4] == Fixed(Mask(crc([kind] + payload)), 4)
    ensures file[q + 6..q + 7 + |payload|] == [kind] + payload
    ensures file[q + 7..q + 7 + |payload|] == payload
  {
    hide Mask, Fixed;
    var rec := PhysicalRecord(crc, kind, payload);
    assert forall i :: 0 <= i < |rec| ==> file[q + i] == rec[i];
    assert file[q..q + 4] == rec[..4];
    assert file[q + 6..q + 7 + |payload|] == rec[6..];
    assert file[q + 7..q + 7 + |payload|] == rec[7..];
    assert file[q + 4] == rec[4] && file[q + 5] == rec[5] && file[q + 6] == rec[6];
  }

  /** A fragment that the end of the file cuts reads as the end, and is not reported. */
  lemma CutFragment(crc: Checksum, checksum: bool, file: Bytes, q: nat, kind: Byte, payload: Bytes)
    requires |payload| <= BLOCK_SIZE - HEADER_SIZE && q % BLOCK_SIZE + HEADER_SIZE + |payload| <= BLOCK_SIZE
    requires q <= |file| < q + HEADER_SIZE + |payload|
    requires file[q..] == PhysicalRecord(crc, kind, payload)[..|file| - q]
    ensures NextPhysical(crc, checksum, file, q).kind == EOF && NextPhysical(crc, checksum, file, q).reports == []
  {
    hide Mask, Fixed;
    var rec := PhysicalRecord(crc, kind, payload);
    if |file| - q >= HEADER_SIZE {
      assert file[q + 4] == file[q..][4] == rec[4] && file[q + 5] == file[q..][5] == rec[5];
    }
  }

  /** The file holds `e` at `p`, as far as it goes. */
  ghost predicate Agrees(file: Bytes, p: nat, e: Bytes) {
    p <= |file| && forall i :: p <= i < |file| && i < p + |e| ==> file[i] == e[i - p]
  }

  lemma AgreesSplit(file: Bytes, p: nat, a: Bytes, b: Bytes)
    requires Agrees(file, p, a + b)
    ensures p + |a| <= |file| ==> Agrees(file, p + |a|, b) && file[p..p + |a|] == a
    ensures p + |a| > |file| ==> file[p..] == a[..|file| - p]
  {
    if p + |a| <= |file| {
      forall i | p + |a| <= i < |file| && i < p + |a| + |b|
        ensures file[i] == b[i - (p + |a|)]
      {
        assert (a + b)[i - p] == b[i - (p + |a|)];
      }
      assert forall i :: p <= i < p + |a| ==> file[i] == (a + b)[i - p] == a[i - p];
    } else {
      assert forall i :: p <= i < |file| ==> file[i] == (a + b)[i - p] == a[i - p];
    }
  }

  /** The trailer of a block is skipped without a look at it. */
  lemma TrailerSkipped(crc: Checksum, checksum: bool, file: Bytes, p: nat)
    requires p <= |file| && BLOCK_SIZE - p % BLOCK_SIZE < HEADER_SIZE
    ensures Boundary(p) == p + |Padding(p % BLOCK_SIZE)|
    ensures Boundary(p) <= |file| ==>
      NextPhysical(crc, checksum, file, p) == NextPhysical(crc, checksum, file, Boundary(p))
    ensures Boundary(p) > |file| ==> NextPhysical(crc, checksum, file, p) == Physical(EOF, [], |file|, [])
  {
  }

  lemma NextRecordAt(crc: Checksum, checksum: bool, file: Bytes, p: nat, r: Physical, scratch: Bytes, inFragment: bool)
    requires p <= |file| && r == NextPhysical(crc, checksum, file, p) && r.reports == []
    ensures var out := NextRecord(crc, checksum, file, p, scratch, inFragment);
      && (r.kind == EOF ==> out == Outcome(None, r.pos, []))
      && (r.kind == FULL && !inFragment ==> out == Outcome(Some(r.fragment), r.pos, []))
      && (r.kind == LAST && inFragment ==> out == Outcome(Some(scratch + r.fragment), r.pos, []))
      && (r.kind == FIRST && !inFragment ==> out == NextRecord(crc, checksum, file, r.pos, r.fragment, true))
      && (r.kind == MIDDLE && inFragment ==> out == NextRecord(crc, checksum, file, r.pos, scratch + r.fragment, true))
  {
    hide NextPhysical;
  }

  /** The first physical record of what AddRecord emits, in a file cut anywhere. */
  lemma FirstFragmentReads(crc: Checksum, checksum: bool, file: Bytes, p: nat, kind: Byte, payload: Bytes, tail: Bytes)
    requires |payload| <= BLOCK_SIZE - HEADER_SIZE
    requires StartOf(p % BLOCK_SIZE) + HEADER_SIZE + |payload| <= BLOCK_SIZE && kind != ZERO
    requires Agrees(file, p, Padding(p % BLOCK_SIZE) + PhysicalRecord(crc, kind, payload) + tail)
    ensures var p' := p + |Padding(p % BLOCK_SIZE)| + HEADER_SIZE + |payload|;
      var r := NextPhysical(crc, checksum, file, p);
      if p' <= |file| then r == Physical(kind, payload, p', []) && Agrees(file, p', tail)
      else r.kind == EOF && r.reports == []
  {
    hide NextPhysical, PhysicalRecord, Agrees;
    var (pad, rec) := (Padding(p % BLOCK_SIZE), PhysicalRecord(crc, kind, payload));
    var q := p + |pad|;
    assert pad + rec + tail == pad + (rec + tail);
    AgreesSplit(file, p, pad, rec + tail);
    assert p <= |file| by { AgreesInFile(file, p, pad + rec + tail); }
    if BLOCK_SIZE - p % BLOCK_SIZE < HEADER_SIZE { TrailerSkipped(crc, checksum, file, p); }
    if q <= |file| {
      AgreesSplit(file, q, rec, tail);
      if q + |rec| <= |file| {
        WholeFragment(crc, checksum, file, q, kind, payload);
      } else {
        CutFragment(crc, checksum, file, q, kind, payload);
      }
    }
  }

  lemma AgreesInFile(file: Bytes, p: nat, e: Bytes)
    requires Agrees(file, p, e)
    ensures p <= |file|
  {
  }

  ghost function EmitRest(crc: Checksum, offset: nat, data: Bytes): Bytes
    requires offset < BLOCK_SIZE
  {
    var n := FragmentLength(offset, data);
    if n == |data| then [] else Emit(crc, (StartOf(offset) + HEADER_SIZE + n) % BLOCK_SIZE, data[n..], false)
  }

  lemma EmitUnfolds(crc: Checksum, offset: nat, data: Bytes, begin: bool)
    requires offset < BLOCK_SIZE
    ensures var n := FragmentLength(offset, data);
      Emit(crc, offset, data, begin) ==
      Padding(offset) + PhysicalRecord(crc, KindOf(begin, n == |data|), data[..n]) + EmitRest(crc, offset, data)
    ensures FragmentLength(offset, data) == |data| ==> EmitRest(crc, offset, data) == []
  {
  }

  lemma RestAfter(crc: Checksum, p: nat, data: Bytes)
    ensures var n := FragmentLength(p % BLOCK_SIZE, data);
      var p' := p + |Padding(p % BLOCK_SIZE)| + HEADER_SIZE + n;
      n < |data| ==>
        && EmitRest(crc, p % BLOCK_SIZE, data) == Emit(crc, p' % BLOCK_SIZE, data[n..], false)
        && (n > 0 || (p % BLOCK_SIZE == BLOCK_SIZE - HEADER_SIZE && p' % BLOCK_SIZE != BLOCK_SIZE - HEADER_SIZE))
  {
    OffsetAfter(p, FragmentLength(p % BLOCK_SIZE, data));
  }

  /** What AddRecord emits is read back as the record it was given, or, if the file
      ends before it does, as nothing, without a report. */
  lemma {:induction false} EmittedReadsBack(crc: Checksum, checksum: bool, file: Bytes, p: nat, data: Bytes,
                                            begin: bool, scratch: Bytes)
    requires Agrees(file, p, Emit(crc, p % BLOCK_SIZE, data, begin)) && (begin ==> scratch == [])
    ensures var p' := p + |Emit(crc, p % BLOCK_SIZE, data, begin)|;
      var r := NextRecord(crc, checksum, file, p, scratch, !begin);
      if p' <= |file| then r == Outcome(Some(scratch + data), p', []) else r.record.None? && r.reports == []
    decreases |data|, if p % BLOCK_SIZE == BLOCK_SIZE - HEADER_SIZE then 1 else 0
  {
    hide NextPhysical, PhysicalRecord, Agrees, NextRecord, Padding, Emit, EmitRest, StartOf, FragmentLength;
    var offset := p % BLOCK_SIZE;
    var n := FragmentLength(offset, data);
    var end := n == |data|;
    var kind := KindOf(begin, end);
    var tail := EmitRest(crc, offset, data);
    EmitUnfolds(crc, offset, data, begin);
    AgreesInFile(file, p, Emit(crc, p % BLOCK_SIZE, data, begin));
    FirstFragmentReads(crc, checksum, file, p, kind, data[..n], tail);
    var r := NextPhysical(crc, checksum, file, p);
    NextRecordAt(crc, checksum, file, p, r, scratch, !begin);
    assert data[..n] + data[n..] == data;
    if r.kind != EOF && !end {
      var scratch' := scratch + data[..n];
      assert begin ==> scratch' == data[..n];
      RestAfter(crc, p, data);
      EmittedReadsBack(crc, checksum, file, r.pos, data[n..], false, scratch');
      assert scratch' + data[n..] == scratch + data;
    } else if end {
      assert data[..n] == data && (begin ==> scratch + data == data);
    }
  }

  lemma {:induction false} ContentsPrefix(crc: Checksum, records: seq<Bytes>, i: nat)
    requires i <= |records|
    ensures Contents(crc, records[..i]) <= Contents(crc, records)
  {
    hide Emit;
    if i == |records| {
      assert records[..i] == records;
    } else {
      var n := |records| - 1;
      ContentsPrefix(crc, records[..n], i);
      assert records[..n][..i] == records[..i];
    }
  }

  lemma ContentsNext(crc: Checksum, records: seq<Bytes>, i: nat)
    requires i < |records|
    ensures var before := Contents(crc, records[..i]);
      Contents(crc, records[..i + 1]) == before + Emit(crc, |before| % BLOCK_SIZE, records[i], true)
  {
    hide Emit;
    assert records[..i + 1][..i] == records[..i];
  }

  /** The cut at `t` leaves exactly the first `k` records whole. */
  ghost predicate LeavesWhole(crc: Checksum, records: seq<Bytes>, t: nat, k: nat) {
    k <= |records| && |Contents(crc, records[..k])| <= t && (k < |records| ==> t < |Contents(crc, records[..k + 1])|)
  }

  lemma {:induction false} EveryCutLeavesSome(crc: Checksum, records: seq<Bytes>, t: nat) returns (k: nat)
    ensures LeavesWhole(crc, records, t, k)
  {
    hide Emit;
    if |Contents(crc, records)| <= t {
      k := |records|;
      assert records[..k] == records;
    } else {
      var n := |records| - 1;
      k := EveryCutLeavesSome(crc, records[..n], t);
      assert records[..n][..k] == records[..k];
      if k < n { assert records[..n][..k + 1] == records[..k + 1]; } else { assert records[..k + 1] == records; }
    }
  }

  lemma CutAgrees(crc: Checksum, records: seq<Bytes>, t: nat, i: nat)
    requires i < |records| && |Contents(crc, records[..i])| <= t <= |Contents(crc, records)|
    ensures var p := |Contents(crc, records[..i])|;
      Agrees(Contents(crc, records)[..t], p, Emit(crc, p % BLOCK_SIZE, records[i], true))
  {
    hide Emit, Contents;
    var (all, before) := (Contents(crc, records), Contents(crc, records[..i]));
    var e := Emit(crc, |before| % BLOCK_SIZE, records[i], true);
    ContentsPrefix(crc, records, i + 1);
    ContentsNext(crc, records, i);
    assert forall j :: |before| <= j < |before| + |e| ==> all[j] == (before + e)[j] == e[j - |before|];
  }

  lemma AtTheEnd(crc: Checksum, checksum: bool, file: Bytes)
    ensures ReadAll(crc, checksum, file, |file|) == ([], [])
  {
  }

  lemma OneMore(crc: Checksum, checksum: bool, file: Bytes, p: nat, p': nat, record: Bytes, rest: seq<Bytes>)
    requires p <= |file| && NextRecord(crc, checksum, file, p, [], false) == Outcome(Some(record), p', [])
    requires p' <= |file| && ReadAll(crc, checksum, file, p') == (rest, [])
    ensures ReadAll(crc, checksum, file, p) == ([record] + rest, [])
  {
    hide NextRecord;
    var tail := ReadAll(crc, checksum, file, p');
    assert ReadAll(crc, checksum, file, p) == ([record] + tail.0, [] + tail.1);
    assert [] + tail.1 == [];
  }

  lemma {:induction false} ReadsFrom(crc: Checksum, checksum: bool, records: seq<Bytes>, t: nat, k: nat, i: nat)
    requires t <= |Contents(crc, records)| && LeavesWhole(crc, records, t, k) && i <= k
    ensures |Contents(crc, records[..i])| <= t
    ensures ReadAll(crc, checksum, Contents(crc, records)[..t], |Contents(crc, records[..i])|) == (records[i..k], [])
    decreases k - i
  {
    hide Emit, Contents, NextRecord;
    var (file, p) := (Contents(crc, records)[..t], |Contents(crc, records[..i])|);
    assert p <= t by {
      ContentsPrefix(crc, records[..k], i);
      assert records[..k][..i] == records[..i];
    }
    if i == |records| {
      assert records[..i] == records;
      AtTheEnd(crc, checksum, file);
    } else {
      ContentsNext(crc, records, i);
      CutAgrees(crc, records, t, i);
      EmittedReadsBack(crc, checksum, file, p, records[i], true, []);
      assert [] + records[i] == records[i];
      if i < k {
        ReadsFrom(crc, checksum, records, t, k, i + 1);
        assert [records[i]] + records[i + 1..k] == records[i..k];
        OneMore(crc, checksum, file, p, |Contents(crc, records[..i + 1])|, records[i], records[i + 1..k]);
      } else {
        assert records[i..k] == [];
      }
    }
  }

  /** A log cut anywhere by a crash reads back as the records that are wholly in
      what is left, and nothing is reported as corrupt. */
  lemma CrashRoundTrip(crc: Checksum, checksum: bool, records: seq<Bytes>, t: nat, k: nat)
    requires t <= |Contents(crc, records)| && LeavesWhole(crc, records, t, k)
    ensures ReadAll(crc, checksum, Contents(crc, records)[..t], 0) == (records[..k], [])
  {
    hide ReadAll;
    ReadsFrom(crc, checksum, records, t, k, 0);
    assert records[..0] == [] && records[0..k] == records[..k];
  }

  /** An uncut log reads back as its records. */
  lemma LogRoundTrip(crc: Checksum, checksum: bool, records: seq<Bytes>)
    ensures ReadAll(crc, checksum, Contents(crc, records), 0) == (records, [])
  {
    hide ReadAll, Contents;
    var all := Contents(crc, records);
    assert records[..|records|] == records && all[..|all|] == all;
    CrashRoundTrip(crc, checksum, records, |all|, |records|);
  }

  /** A record that could not be appended, or not be flushed, may show up or not; those
      before it are read back, and nothing is reported. */
  method TornLog(crc: Checksum, records: seq<Bytes>, slice: Bytes, accepted: nat -> nat) returns (file: Bytes, ok: bool)
    ensures var all := records + [slice];
      var read := ReadAll(crc, true, file, 0);
      if ok then read == (all, []) else read == (records, []) || read == (all, [])
  {
    hide ReadAll, Emit, Contents;
    var w := new Writer(crc, []);
    ContentsOfNone(crc);
    AddAll(w, records, []);
    assert [] + records == records;
    ContentsOneMore(crc, records, slice);
    ok := w.AddRecord(slice, accepted);
    file := w.dest;
    TornRead(crc, records, slice, file);
  }

  lemma ContentsOfNone(crc: Checksum)
    ensures Contents(crc, []) == []
  {
  }

  lemma ContentsOneMore(crc: Checksum, records: seq<Bytes>, slice: Bytes)
    ensures var before := Contents(crc, records);
      Contents(crc, records + [slice]) == before + Emit(crc, |before| % BLOCK_SIZE, slice, true)
  {
    hide Emit;
    assert (records + [slice])[..|records|] == records;
  }

  /** A beginning of a log that holds all records but the last. */
  lemma TornRead(crc: Checksum, records: seq<Bytes>, slice: Bytes, file: Bytes)
    requires |Contents(crc, records)| <= |file| && file <= Contents(crc, records + [slice])
    ensures ReadAll(crc, true, file, 0)
      == (if |file| == |Contents(crc, records + [slice])| then records + [slice] else records, [])
  {
    hide ReadAll, Contents;
    var all := records + [slice];
    assert all[..|records|] == records && all[..|all|] == all;
    assert file == Contents(crc, all)[..|file|];
    CrashRoundTrip(crc, true, all, |file|, if |file| == |Contents(crc, all)| then |all| else |records|);
  }

  // ---------------------------------------------------------------- reader

  class Reader {
    const crc: Checksum
    const checksum: bool
    const file: Bytes
    var buffer: Bytes
    var eof: bool
    var endOfBufferOffset: nat
    var reports: seq<Report>

    /** The next byte to look at. */
    ghost function Pos(): nat
      reads this
      requires |buffer| <= endOfBufferOffset
    {
      endOfBufferOffset - |buffer|
    }

    ghost predicate Valid()
      reads this
    {
      && |buffer| <= endOfBufferOffset <= |file| && buffer == file[Pos()..endOfBufferOffset]
      && (if eof then endOfBufferOffset == |file| && (buffer != [] ==> |file| < Boundary(Pos()))
          else endOfBufferOffset % BLOCK_SIZE == 0)
      && (buffer != [] ==> endOfBufferOffset == BlockEnd(file, Pos()))
    }

    constructor (crc: Checksum, checksum: bool, file: Bytes)
      ensures Valid() && Pos() == 0 && reports == []
      ensures this.crc == crc && this.checksum == checksum && this.file == file
    {
      this.crc, this.checksum, this.file := crc, checksum, file;
      buffer, eof, endOfBufferOffset, reports := [], false, 0, [];
    }

    /** Reads the next block into the empty buffer. */
    method ReadBlock()
      requires Valid() && !eof
      modifies `buffer, `eof, `endOfBufferOffset
      ensures Valid() && Pos() == old(endOfBufferOffset) && endOfBufferOffset == BlockEnd(file, Pos())
      ensures eof <==> |file| < Boundary(Pos())
    {
      var end := if |file| < endOfBufferOffset + BLOCK_SIZE then |file| else endOfBufferOffset + BLOCK_SIZE;
      buffer := file[endOfBufferOffset..end];
      endOfBufferOffset := end;
      eof := |buffer| < BLOCK_SIZE;
    }

    /** The top of the loop of ReadPhysicalRecord: get a header into the buffer. */
    method Refill() returns (ok: bool)
      requires Valid()
      modifies `buffer, `eof, `endOfBufferOffset
      ensures Valid() && NextPhysical(crc, checksum, file, Pos()) == NextPhysical(crc, checksum, file, old(Pos()))
      ensures ok <==> |buffer| >= HEADER_SIZE
      ensures !ok ==> NextPhysical(crc, checksum, file, old(Pos())) == Physical(EOF, [], Pos(), [])
    {
      hide NextPhysical;
      while |buffer| < HEADER_SIZE
        invariant Valid() && NextPhysical(crc, checksum, file, Pos()) == NextPhysical(crc, checksum, file, old(Pos()))
        decreases !eof, |file| - endOfBufferOffset
      {
        ShortRest(crc, checksum, file, Pos(), endOfBufferOffset, eof);
        buffer := [];
        if eof {
          return false;
        }
        ReadBlock();
      }
      ok := true;
    }

    /** Reader::ReadPhysicalRecord. */
    method ReadPhysicalRecord() returns (kind: Byte, fragment: Bytes, ghost added: seq<Report>)
      requires Valid()
      modifies this
      ensures Valid() && Physical(kind, fragment, Pos(), added) == NextPhysical(crc, checksum, file, old(Pos()))
      ensures reports == old(reports) + added
    {
      hide NextPhysical, Boundary;
      var ok := Refill();
      if !ok {
        return EOF, [], [];
      }
      FullBlock(file, Pos());
      var used: nat, dropped: seq<Report>;
      kind, fragment, used, dropped := ParseRecord(crc, checksum, buffer, eof, file, Pos());
      SameBlock(file, Pos(), Pos() + used);
      buffer := buffer[used..];
      reports := reports + dropped;
      added := dropped;
    }

    /** Reader::ReadRecord. */
    method ReadRecord() returns (record: Option<Bytes>, ghost added: seq<Report>)
      requires Valid()
      modifies this
      ensures Valid() && Outcome(record, Pos(), added) == NextRecord(crc, checksum, file, old(Pos()), [], false)
      ensures reports == old(reports) + added
    {
      hide NextPhysical, NextRecord, After, Boundary, BlockEnd, Absorb;
      var scratch: Bytes := [];
      var inFragment := false;
      added := [];
      AfterNothing(NextRecord(crc, checksum, file, Pos(), [], false));
      while true
        invariant Valid() && reports == old(reports) + added
        invariant NextRecord(crc, checksum, file, old(Pos()), [], false) ==
          After(added, NextRecord(crc, checksum, file, Pos(), scratch, inFragment))
        decreases |file| - Pos()
      {
        ghost var p := Pos();
        var kind, fragment, dropped := ReadPhysicalRecord();
        GoesOn(crc, checksum, file, p, scratch, inFragment, added);
        added := added + dropped;
        if kind == EOF {
          return None, added;
        } else if kind == FULL {
          if inFragment && scratch != [] {
            reports := reports + [Report(|scratch|, "partial record without end(1)")];
            added := added + [Report(|scratch|, "partial record without end(1)")];
          }
          return Some(fragment), added;
        } else if kind == LAST && inFragment {
          return Some(scratch + fragment), added;
        }
        var next := Absorb(Physical(kind, fragment, 0, []), scratch, inFragment);
        reports := reports + next.0;
        added := added + next.0;
        scratch, inFragment := next.1, next.2;
      }
    }
  }

  /** An outcome after some reports already made. */
  ghost function After(reports: seq<Report>, r: Outcome): Outcome {
    Outcome(r.record, r.pos, reports + r.reports)
  }

  lemma AfterNothing(r: Outcome)
    ensures After([], r) == r
  {
  }

  lemma GoesOn(crc: Checksum, checksum: bool, file: Bytes, p: nat, scratch: Bytes, inFragment: bool, added: seq<Report>)
    requires p <= |file|
    ensures var r := NextPhysical(crc, checksum, file, p);
      var out := After(added, NextRecord(crc, checksum, file, p, scratch, inFragment));
      var partial := if inFragment && scratch != [] then [Report(|scratch|, "partial record without end(1)")] else [];
      if r.kind == EOF then out == Outcome(None, r.pos, added + r.reports)
      else if r.kind == FULL then out == Outcome(Some(r.fragment), r.pos, added + r.reports + partial)
      else if r.kind == LAST && inFragment then out == Outcome(Some(scratch + r.fragment), r.pos, added + r.reports)
      else
        var (report, scratch', inFragment') := Absorb(Physical(r.kind, r.fragment, 0, []), scratch, inFragment);
        out == After(added + r.reports + report, NextRecord(crc, checksum, file, r.pos, scratch', inFragment'))
  {
    hide NextPhysical;
    var r := NextPhysical(crc, checksum, file, p);
    var out := NextRecord(crc, checksum, file, p, scratch, inFragment);
    assert Absorb(Physical(r.kind, r.fragment, 0, []), scratch, inFragment) == Absorb(r, scratch, inFragment);
    if r.kind == EOF || (r.kind == LAST && inFragment) {
    } else if r.kind == FULL {
      var partial := if inFragment && scratch != [] then [Report(|scratch|, "partial record without end(1)")] else [];
      assert added + (r.reports + partial) == added + r.reports + partial;
    } else {
      var (report, scratch', inFragment') := Absorb(r, scratch, inFragment);
      var next := NextRecord(crc, checksum, file, r.pos, scratch', inFragment');
      assert added + (r.reports + report + next.reports) == added + r.reports + report + next.reports;
    }
  }

  /** The rest of ReadPhysicalRecord: what the buffer starts with, how much of it to
      drop, and what to report. */
  method ParseRecord(crc: Checksum, checksum: bool, buffer: Bytes, eof: bool, ghost file: Bytes, ghost p: nat)
    returns (kind: Byte, fragment: Bytes, used: nat, dropped: seq<Report>)
    requires p <= |file| && BlockEnd(file, p) - p >= HEADER_SIZE && buffer == file[p..BlockEnd(file, p)]
    requires eof <==> |file| < Boundary(p)
    ensures used <= |buffer| && Physical(kind, fragment, p + used, dropped) == NextPhysical(crc, checksum, file, p)
  {
    hide NextPhysical, Unmask, DecodeFixed, Boundary;
    var low: nat, high: nat := buffer[4], buffer[5];
    var length := low + 256 * high;
    LongRest(crc, checksum, file, p, buffer);
    if HEADER_SIZE + length > |buffer| {
      if !eof {
        return BAD_RECORD, [], |buffer|, [Report(|buffer|, "bad record length")];
      }
      return EOF, [], |buffer|, [];
    }
    if buffer[6] == ZERO && length == 0 {
      return BAD_RECORD, [], |buffer|, [];
    }
    if checksum {
      var expectedCrc := Unmask(DecodeFixed(buffer[..4]) % TWO_32);
      var actualCrc := crc(buffer[6..7 + length]);
      if actualCrc != expectedCrc {
        return BAD_RECORD, [], |buffer|, [Report(|buffer|, "checksum mismatch")];
      }
    }
    return buffer[6], buffer[7..7 + length], HEADER_SIZE + length, [];
  }

  lemma FullBlock(file: Bytes, p: nat)
    requires p <= |file|
    ensures p < BlockEnd(file, p) && BlockEnd(file, p) % BLOCK_SIZE == 0 ==> Boundary(p) <= |file|
  {
  }

  lemma SameBlock(file: Bytes, p: nat, q: nat)
    requires p <= |file| && p <= q <= BlockEnd(file, p)
    ensures q < BlockEnd(file, p) ==> Boundary(q) == Boundary(p) && BlockEnd(file, q) == BlockEnd(file, p)
  {
  }

  /** Too few bytes left in the buffer: go to the next block, if there is one. */
  lemma ShortRest(crc: Checksum, checksum: bool, file: Bytes, p: nat, end: nat, eof: bool)
    requires p <= end <= |file| && end - p < HEADER_SIZE && (p < end ==> end == BlockEnd(file, p))
    requires if eof then end == |file| && (p < end ==> |file| < Boundary(p)) else end % BLOCK_SIZE == 0
    ensures NextPhysical(crc, checksum, file, p) == NextPhysical(crc, checksum, file, end)
    ensures eof ==> NextPhysical(crc, checksum, file, p) == Physical(EOF, [], end, [])
  {
  }

  /** A header within the block. */
  lemma LongRest(crc: Checksum, checksum: bool, file: Bytes, p: nat, buffer: Bytes)
    requires p <= |file| && BlockEnd(file, p) - p >= HEADER_SIZE && buffer == file[p..BlockEnd(file, p)]
    ensures var (low: nat, high: nat) := (buffer[4], buffer[5]);
      var (length, end) := (low + 256 * high, BlockEnd(file, p));
      var r := NextPhysical(crc, checksum, file, p);
      if HEADER_SIZE + length > |buffer| then
        if |file| < Boundary(p) then r == Physical(EOF, [], end, [])
        else r == Physical(BAD_RECORD, [], end, [Report(|buffer|, "bad record length")])
      else if buffer[6] == ZERO && length == 0 then r == Physical(BAD_RECORD, [], end, [])
      else if checksum && crc(buffer[6..7 + length]) != Unmask(DecodeFixed(buffer[..4]) % TWO_32) then
        r == Physical(BAD_RECORD, [], end, [Report(|buffer|, "checksum mismatch")])
      else r == Physical(buffer[6], buffer[7..7 + length], p + 7 + length, [])
  {
    hide Unmask, DecodeFixed;
    assert buffer[4] == file[p + 4] && buffer[5] == file[p + 5] && buffer[6] == file[p + 6];
    assert buffer[..4] == file[p..p + 4];
    var (low: nat, high: nat) := (buffer[4], buffer[5]);
    var length := low + 256 * high;
    if HEADER_SIZE + length <= |buffer| {
      assert buffer[6..7 + length] == file[p + 6..p + 7 + length];
      assert buffer[7..7 + length] == file[p + 7..p + 7 + length];
    }
  }
}

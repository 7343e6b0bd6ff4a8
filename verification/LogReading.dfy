/**
 What the log reader (db/log_reader.cc) makes of any file at all, damaged or not:
 which bytes a returned record comes from, that whatever is not returned is
 reported, and that damage does not reach past the block it is in.
 */
module LogReading {
  import opened Format
  import opened Coding
  import opened Log

  // ---------------------------------------------------------------- fragments in a file

  /** A physical record: where it starts, its type byte and its payload. */
  datatype Fragment = Fragment(pos: nat, kind: Byte, payload: Bytes) {
    function End(): nat { pos + 7 + |payload| }
  }

  /** The bytes of the file at `f.pos` are the fragment, it stays inside one 32 KB block,
      and its checksum is right if checksums are looked at. */
  ghost predicate At(crc: Checksum, checksum: bool, file: Bytes, f: Fragment) {
    && f.pos % 32768 + 7 + |f.payload| <= 32768 && f.End() <= |file|
    && |f.payload| == file[f.pos + 4] as nat + 256 * file[f.pos + 5] as nat
    && file[f.pos + 6..f.End()] == [f.kind] + f.payload
    && (checksum ==> crc([f.kind] + f.payload) == Unmask(DecodeFixed(file[f.pos..f.pos + 4]) % TWO_32))
  }

  /** Where the next header is looked for: block tails of less than seven bytes are skipped. */
  function Place(p: nat): (q: nat)
    ensures p <= q
  {
    if p % 32768 + 7 > 32768 then p - p % 32768 + 32768 else p
  }

  /** Each fragment is the next one in the file. */
  ghost predicate Adjacent(frags: seq<Fragment>) {
    forall i :: 0 <= i < |frags| - 1 ==> frags[i + 1].pos == Place(frags[i].End())
  }

  /** The beginning of a record: FIRST, then MIDDLE. */
  ghost predicate Open(frags: seq<Fragment>) {
    frags != [] && forall i :: 0 <= i < |frags| ==> frags[i].kind == if i == 0 then FIRST else MIDDLE
  }

  /** One FULL, or FIRST, any number of MIDDLE, and LAST. */
  ghost predicate Whole(frags: seq<Fragment>) {
    || (|frags| == 1 && frags[0].kind == FULL)
    || (|frags| >= 2 && Open(frags[..|frags| - 1]) && frags[|frags| - 1].kind == LAST)
  }

  ghost function Payloads(frags: seq<Fragment>): Bytes {
    if frags == [] then [] else Payloads(frags[..|frags| - 1]) + frags[|frags| - 1].payload
  }

  ghost predicate AllAt(crc: Checksum, checksum: bool, file: Bytes, frags: seq<Fragment>) {
    forall f <- frags :: At(crc, checksum, file, f)
  }

  // ---------------------------------------------------------------- one physical record

  /** What is read at a place `q` where the file has room for a header. */
  ghost predicate ReadsHeader(crc: Checksum, checksum: bool, file: Bytes, q: nat, r: Physical)
    requires q + 7 <= |file|
  {
    var n := file[q + 4] as nat + 256 * file[q + 5] as nat;
    var end := q - q % 32768 + 32768;
    var rest := if |file| < end then |file| else end;
    if q + 7 + n > rest then
      // a wrong length: the writer died here, or the block is damaged
      r == if |file| < end then Physical(EOF, [], |file|, [])
           else Physical(BAD_RECORD, [], end, [Report(end - q, "bad record length")])
    else
      var f := Fragment(q, file[q + 6], file[q + 7..q + 7 + n]);
      if f.kind == ZERO && f.payload == [] then r == Physical(BAD_RECORD, [], rest, [])
      else if At(crc, checksum, file, f) then r == Physical(f.kind, f.payload, f.End(), [])
      else r == Physical(BAD_RECORD, [], rest, [Report(rest - q, "checksum mismatch")])
  }

  /** A fragment is returned exactly if there is a good one at the next place; otherwise the
      rest of the block is dropped, and reported unless it starts with zeros, or the file has ended. */
  lemma PhysicalRead(crc: Checksum, checksum: bool, file: Bytes, p: nat)
    requires p <= |file|
    ensures var (r, q) := (NextPhysical(crc, checksum, file, p), Place(p));
      if |file| < q + 7 then r == Physical(EOF, [], |file|, []) else ReadsHeader(crc, checksum, file, q, r)
  {
    SamePhysical(crc, checksum, file, p);
    PlaceFits(p);
    hide *;
    if |file| >= Place(p) + 7 {
      HeaderRead(crc, checksum, file, Place(p));
    }
  }

  lemma PlaceFits(p: nat)
    ensures Place(p) % 32768 + 7 <= 32768
  {
  }

  lemma AtIff(crc: Checksum, checksum: bool, file: Bytes, q: nat, n: nat)
    requires q + 7 + n <= |file| && q % 32768 + 7 + n <= 32768
    requires n == file[q + 4] as nat + 256 * file[q + 5] as nat
    ensures At(crc, checksum, file, Fragment(q, file[q + 6], file[q + 7..q + 7 + n])) <==>
      (checksum ==> crc(file[q + 6..q + 7 + n]) == Unmask(DecodeFixed(file[q..q + 4]) % TWO_32))
  {
    hide Unmask, DecodeFixed;
    assert file[q + 6..q + 7 + n] == [file[q + 6]] + file[q + 7..q + 7 + n];
  }

  lemma BlockOf(file: Bytes, q: nat)
    requires q <= |file|
    ensures Boundary(q) == q - q % 32768 + 32768
    ensures BlockEnd(file, q) == if |file| < Boundary(q) then |file| else Boundary(q)
  {
  }

  lemma HeaderRead(crc: Checksum, checksum: bool, file: Bytes, q: nat)
    requires q % 32768 + 7 <= 32768 && q + 7 <= |file|
    ensures ReadsHeader(crc, checksum, file, q, NextPhysical(crc, checksum, file, q))
  {
    hide Unmask, DecodeFixed, At, NextPhysical, Boundary, BlockEnd;
    BlockOf(file, q);
    var e := BlockEnd(file, q);
    var buffer := file[q..e];
    LongRest(crc, checksum, file, q, buffer);
    var n := file[q + 4] as nat + 256 * file[q + 5] as nat;
    assert buffer[4] == file[q + 4] && buffer[5] == file[q + 5] && buffer[6] == file[q + 6];
    if q + 7 + n <= e {
      AtIff(crc, checksum, file, q, n);
      SliceOfSlice(file, q, e, 6, 7 + n);
      SliceOfSlice(file, q, e, 7, 7 + n);
      SliceOfSlice(file, q, e, 0, 4);
    }
  }

  lemma SliceOfSlice(s: Bytes, a: nat, b: nat, i: nat, j: nat)
    requires a <= b <= |s| && i <= j <= b - a
    ensures s[a..b][i..j] == s[a + i..a + j]
  {
    assert forall k :: 0 <= k < j - i ==> s[a..b][i..j][k] == s[a + i..a + j][k];
  }

  lemma SamePhysical(crc: Checksum, checksum: bool, file: Bytes, p: nat)
    requires p <= |file|
    ensures Place(p) <= |file| ==> NextPhysical(crc, checksum, file, p) == NextPhysical(crc, checksum, file, Place(p))
    ensures |file| < Place(p) + 7 ==> NextPhysical(crc, checksum, file, p) == Physical(EOF, [], |file|, [])
  {
  }

  /** What the four known types say about the file. */
  lemma KnownKind(crc: Checksum, checksum: bool, file: Bytes, p: nat)
    requires p <= |file|
    ensures var r := NextPhysical(crc, checksum, file, p);
      r.kind in {FULL, FIRST, MIDDLE, LAST} ==>
        var f := Fragment(Place(p), r.kind, r.fragment);
        At(crc, checksum, file, f) && r.pos == f.End() && r.reports == []
  {
    PhysicalRead(crc, checksum, file, p);
    hide NextPhysical, At, Place;
  }

  // ---------------------------------------------------------------- where a record comes from

  /** The fragments are next to each other, make up one record, and end at `end`. */
  ghost predicate Returned(crc: Checksum, checksum: bool, file: Bytes, frags: seq<Fragment>, record: Bytes, end: nat) {
    && Whole(frags) && AllAt(crc, checksum, file, frags) && Adjacent(frags)
    && record == Payloads(frags) && frags[|frags| - 1].End() == end
  }

  /** The fragments read of a record that has not ended. */
  ghost predicate Begun(crc: Checksum, checksum: bool, file: Bytes, frags: seq<Fragment>, scratch: Bytes, end: nat) {
    && Open(frags) && AllAt(crc, checksum, file, frags) && Adjacent(frags)
    && scratch == Payloads(frags) && frags[|frags| - 1].End() == end
  }

  lemma ReturnedAlone(crc: Checksum, checksum: bool, file: Bytes, f: Fragment)
    requires At(crc, checksum, file, f)
    ensures f.kind == FULL ==> Returned(crc, checksum, file, [f], f.payload, f.End())
    ensures f.kind == FIRST ==> Begun(crc, checksum, file, [f], f.payload, f.End())
  {
    hide At;
    assert Payloads([f]) == Payloads([]) + f.payload == f.payload by { assert [f][..0] == []; }
  }

  lemma ReturnedLast(crc: Checksum, checksum: bool, file: Bytes, frags: seq<Fragment>, scratch: Bytes, p: nat,
                     f: Fragment)
    requires Begun(crc, checksum, file, frags, scratch, p)
    requires At(crc, checksum, file, f) && f.pos == Place(p)
    ensures f.kind == LAST ==> Returned(crc, checksum, file, frags + [f], scratch + f.payload, f.End())
    ensures f.kind == MIDDLE ==> Begun(crc, checksum, file, frags + [f], scratch + f.payload, f.End())
  {
    hide At, Place;
    assert (frags + [f])[..|frags|] == frags;
  }

  /** A record that is returned consists of good fragments that lie next to each other in the file. */
  lemma {:induction false} RecordFrom(crc: Checksum, checksum: bool, file: Bytes, p: nat, scratch: Bytes,
                                      inFragment: bool, open: seq<Fragment>, start: nat)
    returns (frags: seq<Fragment>)
    requires p <= |file| && NextRecord(crc, checksum, file, p, scratch, inFragment).record.Some?
    requires inFragment ==> Begun(crc, checksum, file, open, scratch, p) && start <= open[0].pos
    requires start <= p
    ensures var out := NextRecord(crc, checksum, file, p, scratch, inFragment);
      Returned(crc, checksum, file, frags, out.record.value, out.pos) && start <= frags[0].pos
    decreases |file| - p
  {
    hide NextPhysical, At, Place, Open, Payloads, Whole, Adjacent, AllAt;
    KnownKind(crc, checksum, file, p);
    var r := NextPhysical(crc, checksum, file, p);
    var f := Fragment(Place(p), r.kind, r.fragment);
    if r.kind == FULL {
      ReturnedAlone(crc, checksum, file, f);
      frags := [f];
    } else if r.kind == LAST && inFragment {
      ReturnedLast(crc, checksum, file, open, scratch, p, f);
      frags := open + [f];
    } else {
      AbsorbBegins(crc, checksum, file, p, scratch, inFragment, open);
      var (report, scratch', inFragment') := Absorb(r, scratch, inFragment);
      var open' := if r.kind == FIRST then [f] else open + [f];
      frags := RecordFrom(crc, checksum, file, r.pos, scratch', inFragment', open', start);
    }
  }

  /** For every file and every position in it: what ReadRecord returns is the payload of one
      FULL fragment, or of FIRST, MIDDLE and LAST fragments that follow each other without
      anything in between, all inside their blocks and with the right checksum. */
  lemma RecordIsWhole(crc: Checksum, checksum: bool, file: Bytes, p: nat) returns (frags: seq<Fragment>)
    requires p <= |file| && NextRecord(crc, checksum, file, p, [], false).record.Some?
    ensures var out := NextRecord(crc, checksum, file, p, [], false);
      Returned(crc, checksum, file, frags, out.record.value, out.pos) && p <= frags[0].pos
  {
    hide *;
    frags := RecordFrom(crc, checksum, file, p, [], false, [], p);
  }

  // ---------------------------------------------------------------- nothing is lost in silence

  ghost function Sum(reports: seq<Report>): nat {
    if reports == [] then 0 else reports[0].bytes + Sum(reports[1..])
  }

  lemma {:induction false} SumJoins(a: seq<Report>, b: seq<Report>)
    ensures Sum(a + b) == Sum(a) + Sum(b)
  {
    if a == [] {
      assert a + b == b;
    } else {
      SumJoins(a[1..], b);
      assert (a + b)[1..] == a[1..] + b;
    }
  }

  /** The bytes of the physical records from `p` up to `q`: payloads, and what was dropped of
      bad ones.  A bad one has no payload, unless its type byte is that of the reader's own mark. */
  ghost function Taken(crc: Checksum, checksum: bool, file: Bytes, p: nat, q: nat): nat
    requires p <= |file|
    decreases |file| - p
  {
    var r := NextPhysical(crc, checksum, file, p);
    if r.kind == EOF || r.pos > q then 0
    else (if r.kind == BAD_RECORD then 0 else |r.fragment|) + Sum(r.reports) + Taken(crc, checksum, file, r.pos, q)
  }

  lemma TakenNone(crc: Checksum, checksum: bool, file: Bytes, p: nat)
    requires p <= |file|
    ensures Taken(crc, checksum, file, p, p) == 0
  {
    hide NextPhysical;
  }

  lemma TakenStep(crc: Checksum, checksum: bool, file: Bytes, p: nat)
    requires p <= |file|
    ensures var r := NextPhysical(crc, checksum, file, p);
      forall q :: Taken(crc, checksum, file, p, q) ==
        if r.kind == EOF || r.pos > q then 0
        else (if r.kind == BAD_RECORD then 0 else |r.fragment|) + Sum(r.reports) + Taken(crc, checksum, file, r.pos, q)
  {
    hide NextPhysical, Sum;
  }

  lemma AbsorbBegins(crc: Checksum, checksum: bool, file: Bytes, p: nat, scratch: Bytes, inFragment: bool,
                     open: seq<Fragment>)
    requires p <= |file| && (inFragment ==> Begun(crc, checksum, file, open, scratch, p))
    ensures var r := NextPhysical(crc, checksum, file, p);
      var f := Fragment(Place(p), r.kind, r.fragment);
      var (report, scratch', inFragment') := Absorb(r, scratch, inFragment);
      inFragment' ==>
        Begun(crc, checksum, file, if r.kind == FIRST then [f] else open + [f], scratch', r.pos)
  {
    hide NextPhysical, At, Place, Begun;
    KnownKind(crc, checksum, file, p);
    var r := NextPhysical(crc, checksum, file, p);
    var f := Fragment(Place(p), r.kind, r.fragment);
    if r.kind == FIRST { ReturnedAlone(crc, checksum, file, f); }
    if inFragment && r.kind == MIDDLE { ReturnedLast(crc, checksum, file, open, scratch, p, f); }
  }

  lemma AbsorbKeeps(r: Physical, scratch: Bytes, inFragment: bool)
    requires r.kind != EOF && r.kind != FULL && !(r.kind == LAST && inFragment)
    ensures var (report, scratch', inFragment') := Absorb(r, scratch, inFragment);
      (if inFragment then |scratch| else 0) + (if r.kind == BAD_RECORD then 0 else |r.fragment|)
      == Sum(report) + if inFragment' then |scratch'| else 0
  {
    assert forall x: Report :: [x][1..] == [];
  }

  lemma {:induction false} Accounted(crc: Checksum, checksum: bool, file: Bytes, p: nat, scratch: Bytes,
                                     inFragment: bool, open: seq<Fragment>)
    returns (cut: seq<Fragment>)
    requires p <= |file| && (inFragment ==> Begun(crc, checksum, file, open, scratch, p))
    ensures var out := NextRecord(crc, checksum, file, p, scratch, inFragment);
      var held := if inFragment then |scratch| else 0;
      if out.record.Some?
      then p <= out.pos && held + Taken(crc, checksum, file, p, out.pos) == Sum(out.reports) + |out.record.value|
      else
        && held + Taken(crc, checksum, file, p, |file|) == Sum(out.reports) + |Payloads(cut)|
        && (cut != [] ==> exists end :: Begun(crc, checksum, file, cut, Payloads(cut), end))
    decreases |file| - p
  {
    hide NextPhysical, At, Place, Begun, Payloads, Sum, Taken, Absorb;
    TakenStep(crc, checksum, file, p);
    KnownKind(crc, checksum, file, p);
    var r := NextPhysical(crc, checksum, file, p);
    var out := NextRecord(crc, checksum, file, p, scratch, inFragment);
    var f := Fragment(Place(p), r.kind, r.fragment);
    cut := [];
    if r.kind == EOF {
      NoPayload();
      EndSum(crc, checksum, file, p);
      if inFragment {
        BegunPayload(crc, checksum, file, open, scratch, p);
        cut := open;
      }
    } else if r.kind == FULL {
      TakenNone(crc, checksum, file, r.pos);
      PartialSum(r.reports, scratch, inFragment);
    } else if r.kind == LAST && inFragment {
      TakenNone(crc, checksum, file, r.pos);
    } else {
      AbsorbBegins(crc, checksum, file, p, scratch, inFragment, open);
      var (report, scratch', inFragment') := Absorb(r, scratch, inFragment);
      AbsorbKeeps(r, scratch, inFragment);
      cut := Accounted(crc, checksum, file, r.pos, scratch', inFragment', if r.kind == FIRST then [f] else open + [f]);
      var next := NextRecord(crc, checksum, file, r.pos, scratch', inFragment');
      SumJoins(r.reports + report, next.reports);
      SumJoins(r.reports, report);
    }
  }

  lemma BegunPayload(crc: Checksum, checksum: bool, file: Bytes, open: seq<Fragment>, scratch: Bytes, p: nat)
    requires Begun(crc, checksum, file, open, scratch, p)
    ensures scratch == Payloads(open)
  {
  }

  lemma NoPayload()
    ensures Payloads([]) == []
  {
  }

  lemma EndSum(crc: Checksum, checksum: bool, file: Bytes, p: nat)
    requires p <= |file| && NextPhysical(crc, checksum, file, p).kind == EOF
    ensures Sum(NextPhysical(crc, checksum, file, p).reports) == 0
  {
    PhysicalRead(crc, checksum, file, p);
    hide NextPhysical, At, Place;
  }

  lemma PartialSum(reports: seq<Report>, scratch: Bytes, inFragment: bool)
    ensures Sum(reports + if inFragment && scratch != [] then [Report(|scratch|, "partial record without end(1)")]
                          else [])
      == Sum(reports) + if inFragment then |scratch| else 0
  {
    SumJoins(reports, if inFragment && scratch != [] then [Report(|scratch|, "partial record without end(1)")] else []);
    assert forall x: Report :: [x][1..] == [];
  }

  /** For every file: each payload byte that is read, and each byte dropped with a bad record, is
      returned or reported, or belongs to a record that the end of the file cuts off. */
  lemma NothingLost(crc: Checksum, checksum: bool, file: Bytes, p: nat) returns (cut: seq<Fragment>)
    requires p <= |file|
    ensures var out := NextRecord(crc, checksum, file, p, [], false);
      if out.record.Some?
      then p <= out.pos && Taken(crc, checksum, file, p, out.pos) == Sum(out.reports) + |out.record.value|
      else
        && Taken(crc, checksum, file, p, |file|) == Sum(out.reports) + |Payloads(cut)|
        && (cut != [] ==> exists end :: Begun(crc, checksum, file, cut, Payloads(cut), end))
  {
    hide *;
    cut := Accounted(crc, checksum, file, p, [], false, []);
  }

  // ---------------------------------------------------------------- types that no writer writes

  /** A good fragment of unknown type is reported, unless its type byte is one of the two numbers
      that the reader uses itself: 5 ends the reading there, 6 is passed over, both in silence. */
  lemma UnknownKind(crc: Checksum, checksum: bool, file: Bytes, p: nat, f: Fragment)
    requires p <= |file| && f.pos == Place(p) && At(crc, checksum, file, f)
    requires f.kind !in {FULL, FIRST, MIDDLE, LAST} && (f.kind == ZERO ==> f.payload != [])
    ensures var here := NextRecord(crc, checksum, file, p, [], false);
      var next := NextRecord(crc, checksum, file, f.End(), [], false);
      if f.kind == 5 then here == Outcome(None, f.End(), [])
      else if f.kind == 6 then here == next
      else here == Outcome(next.record, next.pos, [Report(|f.payload|, "unknown record type")] + next.reports)
  {
    PhysicalRead(crc, checksum, file, p);
    FragmentRead(crc, checksum, file, f, NextPhysical(crc, checksum, file, p));
    hide NextPhysical, At, Place;
    var next := NextRecord(crc, checksum, file, f.End(), [], false);
    assert [] + [] + next.reports == next.reports;
    assert [] + [Report(|f.payload|, "unknown record type")] == [Report(|f.payload|, "unknown record type")];
  }

  lemma FragmentRead(crc: Checksum, checksum: bool, file: Bytes, f: Fragment, r: Physical)
    requires At(crc, checksum, file, f) && ReadsHeader(crc, checksum, file, f.pos, r)
    requires f.kind == ZERO ==> f.payload != []
    ensures r == Physical(f.kind, f.payload, f.End(), [])
  {
    hide Unmask, DecodeFixed;
    var n := |f.payload|;
    assert file[f.pos + 6] == file[f.pos + 6..f.End()][0] == f.kind;
    assert file[f.pos + 7..f.pos + 7 + n] == file[f.pos + 6..f.End()][1..] == f.payload;
  }
}

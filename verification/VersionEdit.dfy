/**
 The records of the MANIFEST (db/version_edit.cc): a version edit as bytes.
 */
module VersionEdit {
  import opened Format
  import opened Coding

  datatype FileMetaData = FileMetaData(number: nat, fileSize: nat, smallest: Bytes, largest: Bytes)

  datatype Fields = Fields(
    comparator: Option<Bytes>, logNumber: Option<nat>, prevLogNumber: Option<nat>, nextFileNumber: Option<nat>,
    lastSequence: Option<nat>, compactPointers: seq<(nat, Bytes)>, deletedFiles: set<(nat, nat)>,
    newFiles: seq<(nat, FileMetaData)>)
  {
    /** Values fit their C++ types, and levels exist. */
    ghost predicate Valid() {
      && (comparator.Some? ==> |comparator.value| < TWO_32)
      && Fits(logNumber) && Fits(prevLogNumber) && Fits(nextFileNumber) && Fits(lastSequence)
      && (forall p <- compactPointers :: p.0 < NUM_LEVELS && |p.1| < TWO_32)
      && (forall d <- deletedFiles :: d.0 < NUM_LEVELS && d.1 < TWO_64)
      && (forall f <- newFiles :: f.0 < NUM_LEVELS && ValidFile(f.1))
    }
  }

  ghost predicate Fits(o: Option<nat>) {
    o.Some? ==> o.value < TWO_64
  }

  ghost predicate ValidFile(f: FileMetaData) {
    f.number < TWO_64 && f.fileSize < TWO_64 && |f.smallest| < TWO_32 && |f.largest| < TWO_32
  }

  const COMPARATOR: nat := 1
  const LOG_NUMBER: nat := 2
  const NEXT_FILE_NUMBER: nat := 3
  const LAST_SEQUENCE: nat := 4
  const COMPACT_POINTER: nat := 5
  const DELETED_FILE: nat := 6
  const NEW_FILE: nat := 7
  const PREV_LOG_NUMBER: nat := 9

  // ---------------------------------------------------------------- encoding

  ghost function EncodeNumber(tag: nat, o: Option<nat>): Bytes {
    if o.None? then [] else Varint(tag) + Varint(o.value)
  }

  ghost function EncodeComparator(o: Option<Bytes>): Bytes {
    if o.None? then [] else Varint(COMPARATOR) + Prefixed(o.value)
  }

  ghost function OnePointer(p: (nat, Bytes)): Bytes {
    Varint(COMPACT_POINTER) + (Varint(p.0) + Prefixed(p.1))
  }

  ghost function EncodePointers(s: seq<(nat, Bytes)>): Bytes {
    if s == [] then [] else OnePointer(s[0]) + EncodePointers(s[1..])
  }

  ghost function OneDeleted(d: (nat, nat)): Bytes {
    Varint(DELETED_FILE) + (Varint(d.0) + Varint(d.1))
  }

  ghost function EncodeDeleted(s: seq<(nat, nat)>): Bytes {
    if s == [] then [] else OneDeleted(s[0]) + EncodeDeleted(s[1..])
  }

  ghost function OneFile(level: nat, f: FileMetaData): Bytes {
    var range := Prefixed(f.smallest) + Prefixed(f.largest);
    Varint(NEW_FILE) + (Varint(level) + (Varint(f.number) + (Varint(f.fileSize) + range)))
  }

  ghost function EncodeFiles(s: seq<(nat, FileMetaData)>): Bytes {
    if s == [] then [] else OneFile(s[0].0, s[0].1) + EncodeFiles(s[1..])
  }

  predicate PairLess(a: (nat, nat), b: (nat, nat)) {
    a.0 < b.0 || (a.0 == b.0 && a.1 < b.1)
  }

  lemma LeastExists(s: set<(nat, nat)>) returns (m: (nat, nat))
    requires s != {}
    ensures m in s && forall x <- s :: !PairLess(x, m)
  {
    m :| m in s;
    if s != {m} {
      var n := LeastExists(s - {m});
      assert forall x <- s :: x == m || x in s - {m};
      if PairLess(n, m) { m := n; }
    }
  }

  ghost function Least(s: set<(nat, nat)>): (m: (nat, nat))
    requires s != {}
    ensures m in s && forall x <- s :: !PairLess(x, m)
  {
    assert exists m :: m in s && forall x <- s :: !PairLess(x, m) by { var m := LeastExists(s); }
    var m :| m in s && forall x <- s :: !PairLess(x, m);
    m
  }

  /** A set of pairs in the order in which std::set goes through it. */
  ghost function Ascending(s: set<(nat, nat)>): (r: seq<(nat, nat)>)
    ensures forall x :: x in r <==> x in s
  {
    if s == {} then [] else [Least(s)] + Ascending(s - {Least(s)})
  }

  /** By level, then by number, each pair once. */
  lemma {:induction false} AscendingOrder(s: set<(nat, nat)>)
    ensures |Ascending(s)| == |s|
    ensures var r := Ascending(s);
      forall i, j :: 0 <= i < j < |r| ==> r[i].0 < r[j].0 || (r[i].0 == r[j].0 && r[i].1 < r[j].1)
  {
    if s != {} {
      var m := Least(s);
      var rest := Ascending(s - {m});
      AscendingOrder(s - {m});
      assert Ascending(s) == [m] + rest;
      hide Ascending, Least, PairLess;
      forall j | 0 <= j < |rest|
        ensures m.0 < rest[j].0 || (m.0 == rest[j].0 && m.1 < rest[j].1)
      {
        assert rest[j] in rest && rest[j] in s - {m};
        NotLess(m, rest[j]);
      }
    }
  }

  lemma NotLess(m: (nat, nat), x: (nat, nat))
    requires !PairLess(x, m) && x != m
    ensures m.0 < x.0 || (m.0 == x.0 && m.1 < x.1)
  {
  }

  ghost function Encode(e: Fields): Bytes {
    EncodeComparator(e.comparator)
    + (EncodeNumber(LOG_NUMBER, e.logNumber)
    + (EncodeNumber(PREV_LOG_NUMBER, e.prevLogNumber)
    + (EncodeNumber(NEXT_FILE_NUMBER, e.nextFileNumber)
    + (EncodeNumber(LAST_SEQUENCE, e.lastSequence)
    + (EncodePointers(e.compactPointers)
    + (EncodeDeleted(Ascending(e.deletedFiles))
    + (EncodeFiles(e.newFiles) + [])))))))
  }

  // ---------------------------------------------------------------- decoding

  ghost function ParseLevel(input: Bytes): (r: Option<(nat, Bytes)>)
    ensures r.Some? ==> |r.value.1| < |input|
  {
    var l := Parse32(input);
    if l.Some? && l.value.0 < NUM_LEVELS then l else None
  }

  ghost function ParsePointer(input: Bytes): (r: Option<((nat, Bytes), Bytes)>)
    ensures r.Some? ==> |r.value.1| < |input|
  {
    var level := ParseLevel(input);
    if level.None? then None else
    var key := ParsePrefixed(level.value.1);
    if key.None? then None else Some(((level.value.0, key.value.0), key.value.1))
  }

  ghost function ParseDeleted(input: Bytes): (r: Option<((nat, nat), Bytes)>)
    ensures r.Some? ==> |r.value.1| < |input|
  {
    var level := ParseLevel(input);
    if level.None? then None else
    var number := Parse64(level.value.1);
    if number.None? then None else Some(((level.value.0, number.value.0), number.value.1))
  }

  ghost function ParseFile(input: Bytes): (r: Option<((nat, FileMetaData), Bytes)>)
    ensures r.Some? ==> |r.value.1| < |input|
  {
    var level := ParseLevel(input);
    if level.None? then None else
    var number := Parse64(level.value.1);
    if number.None? then None else
    var size := Parse64(number.value.1);
    if size.None? then None else
    var smallest := ParsePrefixed(size.value.1);
    if smallest.None? then None else
    var largest := ParsePrefixed(smallest.value.1);
    if largest.None? then None else
    var f := FileMetaData(number.value.0, size.value.0, smallest.value.0, largest.value.0);
    Some(((level.value.0, f), largest.value.1))
  }

  /** One tagged field. */
  ghost function Step(e: Fields, tag: nat, input: Bytes): (r: Option<(Fields, Bytes)>)
    ensures r.Some? ==> |r.value.1| < |input|
  {
    if tag == COMPARATOR then
      var r := ParsePrefixed(input);
      if r.None? then None else Some((e.(comparator := Some(r.value.0)), r.value.1))
    else if tag == LOG_NUMBER then
      var r := Parse64(input);
      if r.None? then None else Some((e.(logNumber := Some(r.value.0)), r.value.1))
    else if tag == PREV_LOG_NUMBER then
      var r := Parse64(input);
      if r.None? then None else Some((e.(prevLogNumber := Some(r.value.0)), r.value.1))
    else if tag == NEXT_FILE_NUMBER then
      var r := Parse64(input);
      if r.None? then None else Some((e.(nextFileNumber := Some(r.value.0)), r.value.1))
    else if tag == LAST_SEQUENCE then
      var r := Parse64(input);
      if r.None? then None else Some((e.(lastSequence := Some(r.value.0)), r.value.1))
    else if tag == COMPACT_POINTER then
      var r := ParsePointer(input);
      if r.None? then None else Some((e.(compactPointers := e.compactPointers + [r.value.0]), r.value.1))
    else if tag == DELETED_FILE then
      var r := ParseDeleted(input);
      if r.None? then None else Some((e.(deletedFiles := e.deletedFiles + {r.value.0}), r.value.1))
    else if tag == NEW_FILE then
      var r := ParseFile(input);
      if r.None? then None else Some((e.(newFiles := e.newFiles + [r.value.0]), r.value.1))
    else None
  }

  function Message(tag: nat): string {
    if tag == COMPARATOR then "comparator name"
    else if tag == LOG_NUMBER then "log number"
    else if tag == PREV_LOG_NUMBER then "previous log number"
    else if tag == NEXT_FILE_NUMBER then "next file number"
    else if tag == LAST_SEQUENCE then "last sequence number"
    else if tag == COMPACT_POINTER then "compaction pointer"
    else if tag == DELETED_FILE then "deleted file"
    else if tag == NEW_FILE then "new-file entry"
    else "unknown tag"
  }

  /** The fields read, and whether the whole input was. */
  ghost function Decode(e: Fields, input: Bytes): (Fields, Status)
    decreases |input|
  {
    var t := Parse32(input);
    if t.None? then (e, if input == [] then OK else Corruption("invalid tag"))
    else
      var r := Step(e, t.value.0, t.value.1);
      if r.None? then (e, Corruption(Message(t.value.0))) else Decode(r.value.0, r.value.1)
  }

  /** What a field that does not parse is reported as, by the number of its tag. */
  lemma BadField(e: Fields, tag: nat, body: Bytes)
    requires tag < TWO_32 && Step(e, tag, body).None?
    ensures Decode(e, Varint(tag) + body) == (e, Corruption(
      if tag == 1 then "comparator name"
      else if tag == 2 then "log number"
      else if tag == 3 then "next file number"
      else if tag == 4 then "last sequence number"
      else if tag == 5 then "compaction pointer"
      else if tag == 6 then "deleted file"
      else if tag == 7 then "new-file entry"
      else if tag == 9 then "previous log number"
      else "unknown tag"))
  {
    hide Step, Parse32, Varint;
    Parse32RoundTrip(tag, body);
  }

  /** VersionEdit::Clear, which leaves the compaction pointers. */
  function Cleared(e: Fields): Fields {
    Fields(None, None, None, None, None, e.compactPointers, {}, [])
  }

  // ---------------------------------------------------------------- round trip

  lemma DecodeTagged(e: Fields, tag: nat, body: Bytes)
    requires tag < TWO_32 && Step(e, tag, body).Some?
    ensures Decode(e, Varint(tag) + body) == Decode(Step(e, tag, body).value.0, Step(e, tag, body).value.1)
  {
    hide Step, Parse32, Varint;
    Parse32RoundTrip(tag, body);
  }

  lemma DecodeNumber(e: Fields, tag: nat, o: Option<nat>, rest: Bytes)
    requires Fits(o) && tag in {LOG_NUMBER, PREV_LOG_NUMBER, NEXT_FILE_NUMBER, LAST_SEQUENCE}
    ensures Decode(e, EncodeNumber(tag, o) + rest) ==
      Decode(
        if o.None? then e
        else if tag == LOG_NUMBER then e.(logNumber := o)
        else if tag == PREV_LOG_NUMBER then e.(prevLogNumber := o)
        else if tag == NEXT_FILE_NUMBER then e.(nextFileNumber := o)
        else e.(lastSequence := o), rest)
  {
    hide Decode, Parse64, Varint;
    if o.None? {
      assert [] + rest == rest;
    } else {
      assert EncodeNumber(tag, o) + rest == Varint(tag) + (Varint(o.value) + rest);
      Parse64RoundTrip(o.value, rest);
      DecodeTagged(e, tag, Varint(o.value) + rest);
    }
  }

  lemma DecodeComparator(e: Fields, o: Option<Bytes>, rest: Bytes)
    requires o.Some? ==> |o.value| < TWO_32
    ensures Decode(e, EncodeComparator(o) + rest) == Decode(if o.None? then e else e.(comparator := o), rest)
  {
    hide Decode, ParsePrefixed, Varint, Prefixed;
    if o.None? {
      assert [] + rest == rest;
    } else {
      assert EncodeComparator(o) + rest == Varint(COMPARATOR) + (Prefixed(o.value) + rest);
      PrefixedRoundTrip(o.value, rest);
      DecodeTagged(e, COMPARATOR, Prefixed(o.value) + rest);
    }
  }

  lemma PointerParses(p: (nat, Bytes), tail: Bytes)
    requires p.0 < NUM_LEVELS && |p.1| < TWO_32
    ensures var body := Varint(p.0) + (Prefixed(p.1) + tail);
      OnePointer(p) + tail == Varint(COMPACT_POINTER) + body && ParsePointer(body) == Some((p, tail))
  {
    hide Parse32, ParsePrefixed, Varint, Prefixed;
    Assoc(Varint(COMPACT_POINTER), Varint(p.0) + Prefixed(p.1), tail);
    Assoc(Varint(p.0), Prefixed(p.1), tail);
    PrefixedRoundTrip(p.1, tail);
    Parse32RoundTrip(p.0, Prefixed(p.1) + tail);
  }

  lemma {:induction false} DecodePointers(e: Fields, s: seq<(nat, Bytes)>, rest: Bytes)
    requires forall p <- s :: p.0 < NUM_LEVELS && |p.1| < TWO_32
    ensures Decode(e, EncodePointers(s) + rest) == Decode(e.(compactPointers := e.compactPointers + s), rest)
    decreases |s|
  {
    hide Decode, ParsePointer, OnePointer, Varint, Prefixed;
    if s == [] {
      assert [] + rest == rest;
      assert e.compactPointers + [] == e.compactPointers;
    } else {
      var (p, tail) := (s[0], EncodePointers(s[1..]) + rest);
      assert p in s;
      Assoc(OnePointer(p), EncodePointers(s[1..]), rest);
      PointerParses(p, tail);
      DecodeTagged(e, COMPACT_POINTER, Varint(p.0) + (Prefixed(p.1) + tail));
      var e' := e.(compactPointers := e.compactPointers + [p]);
      DecodePointers(e', s[1..], rest);
      assert e'.compactPointers + s[1..] == e.compactPointers + s;
    }
  }

  lemma DeletedParses(d: (nat, nat), tail: Bytes)
    requires d.0 < NUM_LEVELS && d.1 < TWO_64
    ensures var body := Varint(d.0) + (Varint(d.1) + tail);
      OneDeleted(d) + tail == Varint(DELETED_FILE) + body && ParseDeleted(body) == Some((d, tail))
  {
    hide Parse32, Parse64, Varint;
    Assoc(Varint(DELETED_FILE), Varint(d.0) + Varint(d.1), tail);
    Assoc(Varint(d.0), Varint(d.1), tail);
    Parse64RoundTrip(d.1, tail);
    Parse32RoundTrip(d.0, Varint(d.1) + tail);
  }

  lemma {:induction false} DecodeDeleted(e: Fields, s: seq<(nat, nat)>, rest: Bytes)
    requires forall d <- s :: d.0 < NUM_LEVELS && d.1 < TWO_64
    ensures Decode(e, EncodeDeleted(s) + rest) == Decode(e.(deletedFiles := e.deletedFiles + set d | d in s), rest)
    decreases |s|
  {
    hide Decode, ParseDeleted, OneDeleted, Varint;
    if s == [] {
      assert [] + rest == rest;
      assert e.deletedFiles + (set d | d in s) == e.deletedFiles;
    } else {
      var (d, tail) := (s[0], EncodeDeleted(s[1..]) + rest);
      assert d in s;
      Assoc(OneDeleted(d), EncodeDeleted(s[1..]), rest);
      DeletedParses(d, tail);
      DecodeTagged(e, DELETED_FILE, Varint(d.0) + (Varint(d.1) + tail));
      var e' := e.(deletedFiles := e.deletedFiles + {d});
      DecodeDeleted(e', s[1..], rest);
      assert s == [d] + s[1..];
      assert e'.deletedFiles + (set x | x in s[1..]) == e.deletedFiles + set x | x in s;
    }
  }

  /** The part of a file record after its tag, followed by `tail`. */
  ghost function FileBody(level: nat, f: FileMetaData, tail: Bytes): Bytes {
    Varint(level) + (Varint(f.number) + (Varint(f.fileSize) + (Prefixed(f.smallest) + (Prefixed(f.largest) + tail))))
  }

  lemma FileSplits(level: nat, f: FileMetaData, tail: Bytes)
    ensures OneFile(level, f) + tail == Varint(NEW_FILE) + FileBody(level, f, tail)
  {
    hide Varint, Prefixed;
    var b4 := Prefixed(f.smallest) + Prefixed(f.largest);
    var b3 := Varint(f.fileSize) + b4;
    var b2 := Varint(f.number) + b3;
    Assoc(Varint(NEW_FILE), Varint(level) + b2, tail);
    Assoc(Varint(level), b2, tail);
    Assoc(Varint(f.number), b3, tail);
    Assoc(Varint(f.fileSize), b4, tail);
    Assoc(Prefixed(f.smallest), Prefixed(f.largest), tail);
  }

  lemma FileParses(level: nat, f: FileMetaData, tail: Bytes)
    requires level < NUM_LEVELS && ValidFile(f)
    ensures ParseFile(FileBody(level, f, tail)) == Some(((level, f), tail))
  {
    hide Parse32, Parse64, ParsePrefixed, Varint, Prefixed;
    var largest := Prefixed(f.largest) + tail;
    var smallest := Prefixed(f.smallest) + largest;
    var size := Varint(f.fileSize) + smallest;
    PrefixedRoundTrip(f.largest, tail);
    PrefixedRoundTrip(f.smallest, largest);
    Parse64RoundTrip(f.fileSize, smallest);
    Parse64RoundTrip(f.number, size);
    Parse32RoundTrip(level, Varint(f.number) + size);
  }

  lemma {:induction false} DecodeFiles(e: Fields, s: seq<(nat, FileMetaData)>, rest: Bytes)
    requires forall f <- s :: f.0 < NUM_LEVELS && ValidFile(f.1)
    ensures Decode(e, EncodeFiles(s) + rest) == Decode(e.(newFiles := e.newFiles + s), rest)
    decreases |s|
  {
    hide Decode, ParseFile, OneFile, FileBody, Varint;
    if s == [] {
      assert [] + rest == rest;
      assert e.newFiles + [] == e.newFiles;
    } else {
      var (level, f) := s[0];
      var tail := EncodeFiles(s[1..]) + rest;
      assert s[0] in s;
      Assoc(OneFile(level, f), EncodeFiles(s[1..]), rest);
      FileSplits(level, f, tail);
      FileParses(level, f, tail);
      DecodeTagged(e, NEW_FILE, FileBody(level, f, tail));
      var e' := e.(newFiles := e.newFiles + [s[0]]);
      DecodeFiles(e', s[1..], rest);
      assert e'.newFiles + s[1..] == e.newFiles + s;
    }
  }

  lemma DecodeNothing(e: Fields)
    ensures Decode(e, []) == (e, OK)
  {
  }

  /** Encoded edits decode to themselves, but for compaction pointers already in
      the object that decodes. */
  lemma EditRoundTrip(e: Fields, reader: Fields)
    requires e.Valid()
    ensures Decode(Cleared(reader), Encode(e))
      == (e.(compactPointers := reader.compactPointers + e.compactPointers), OK)
    ensures Decode(Cleared(reader), Encode(e)) == (e, OK) <==> reader.compactPointers == []
  {
    hide Decode, EncodeNumber, EncodeComparator, EncodePointers, EncodeDeleted, EncodeFiles, Ascending;
    var e0 := Cleared(reader);
    var r7 := EncodeFiles(e.newFiles) + [];
    var r6 := EncodeDeleted(Ascending(e.deletedFiles)) + r7;
    var r5 := EncodePointers(e.compactPointers) + r6;
    var r4 := EncodeNumber(LAST_SEQUENCE, e.lastSequence) + r5;
    var r3 := EncodeNumber(NEXT_FILE_NUMBER, e.nextFileNumber) + r4;
    var r2 := EncodeNumber(PREV_LOG_NUMBER, e.prevLogNumber) + r3;
    var r1 := EncodeNumber(LOG_NUMBER, e.logNumber) + r2;
    assert Encode(e) == EncodeComparator(e.comparator) + r1;
    DecodeComparator(e0, e.comparator, r1);
    var e1 := e0.(comparator := e.comparator);
    DecodeNumber(e1, LOG_NUMBER, e.logNumber, r2);
    var e2 := e1.(logNumber := e.logNumber);
    DecodeNumber(e2, PREV_LOG_NUMBER, e.prevLogNumber, r3);
    var e3 := e2.(prevLogNumber := e.prevLogNumber);
    DecodeNumber(e3, NEXT_FILE_NUMBER, e.nextFileNumber, r4);
    var e4 := e3.(nextFileNumber := e.nextFileNumber);
    DecodeNumber(e4, LAST_SEQUENCE, e.lastSequence, r5);
    var e5 := e4.(lastSequence := e.lastSequence);
    DecodePointers(e5, e.compactPointers, r6);
    var e6 := e5.(compactPointers := e5.compactPointers + e.compactPointers);
    DecodeDeleted(e6, Ascending(e.deletedFiles), r7);
    assert e6.deletedFiles + (set d | d in Ascending(e.deletedFiles)) == e.deletedFiles;
    var e7 := e6.(deletedFiles := e.deletedFiles);
    DecodeFiles(e7, e.newFiles, []);
    assert e7.newFiles + e.newFiles == e.newFiles;
    DecodeNothing(e7.(newFiles := e.newFiles));
    assert |reader.compactPointers + e.compactPointers| == |reader.compactPointers| + |e.compactPointers|;
    assert [] + e.compactPointers == e.compactPointers;
  }

  // ---------------------------------------------------------------- the class

  method PutComparator(dst: Bytes, o: Option<Bytes>) returns (r: Bytes)
    requires o.Some? ==> |o.value| < TWO_32
    ensures r == dst + EncodeComparator(o)
  {
    r := dst;
    if o.Some? {
      EncodeVarint32IsVarint(COMPARATOR);
      r := PutLengthPrefixedSlice(r + EncodeVarint32(COMPARATOR), o.value);
    }
  }

  method PutNumber(dst: Bytes, tag: nat, o: Option<nat>) returns (r: Bytes)
    requires tag < TWO_32
    ensures r == dst + EncodeNumber(tag, o)
  {
    r := dst;
    if o.Some? {
      EncodeVarint32IsVarint(tag);
      var number := EncodeVarint64(o.value);
      r := r + EncodeVarint32(tag) + number;
    }
  }

  method PutPointers(dst: Bytes, s: seq<(nat, Bytes)>) returns (r: Bytes)
    requires forall p <- s :: p.0 < NUM_LEVELS && |p.1| < TWO_32
    ensures r == dst + EncodePointers(s)
  {
    hide Varint, Prefixed, EncodeVarint32;
    r := dst;
    assert s[0..] == s;
    for i := 0 to |s|
      invariant r + EncodePointers(s[i..]) == dst + EncodePointers(s)
    {
      assert s[i] in s && s[i..][1..] == s[i + 1..];
      EncodeVarint32IsVarint(COMPACT_POINTER);
      EncodeVarint32IsVarint(s[i].0);
      ghost var before := r;
      r := r + EncodeVarint32(COMPACT_POINTER) + EncodeVarint32(s[i].0);
      r := PutLengthPrefixedSlice(r, s[i].1);
      assert r == before + OnePointer(s[i]);
      Assoc(before, OnePointer(s[i]), EncodePointers(s[i + 1..]));
    }
  }

  lemma LeastIs(s: set<(nat, nat)>, d: (nat, nat))
    requires d in s && forall x <- s :: !PairLess(x, d)
    ensures Ascending(s) == [d] + Ascending(s - {d})
  {
    assert !PairLess(Least(s), d) && !PairLess(d, Least(s));
  }

  lemma DeletedCons(d: (nat, nat), s: seq<(nat, nat)>)
    ensures EncodeDeleted([d] + s) == OneDeleted(d) + EncodeDeleted(s)
  {
    assert ([d] + s)[1..] == s;
  }

  method PutDeleted(dst: Bytes, s: set<(nat, nat)>) returns (r: Bytes)
    requires forall d <- s :: d.0 < NUM_LEVELS && d.1 < TWO_64
    ensures r == dst + EncodeDeleted(Ascending(s))
  {
    hide Varint, EncodeVarint32, Ascending, EncodeDeleted, PairLess;
    r := dst;
    var left := s;
    while left != {}
      invariant left <= s
      invariant r + EncodeDeleted(Ascending(left)) == dst + EncodeDeleted(Ascending(s))
      decreases |left|
    {
      ghost var m := LeastExists(left);
      var d :| d in left && forall x <- left :: !PairLess(x, d);
      LeastIs(left, d);
      DeletedCons(d, Ascending(left - {d}));
      EncodeVarint32IsVarint(DELETED_FILE);
      EncodeVarint32IsVarint(d.0);
      var number := EncodeVarint64(d.1);
      Assoc(r, OneDeleted(d), EncodeDeleted(Ascending(left - {d})));
      r := r + (EncodeVarint32(DELETED_FILE) + (EncodeVarint32(d.0) + number));
      left := left - {d};
    }
    EmptySet();
  }

  lemma EmptySet()
    ensures EncodeDeleted(Ascending({})) == []
  {
  }

  method PutFile(dst: Bytes, level: nat, f: FileMetaData) returns (r: Bytes)
    requires level < NUM_LEVELS && ValidFile(f)
    ensures r == dst + OneFile(level, f)
  {
    hide Varint, Prefixed, EncodeVarint32;
    EncodeVarint32IsVarint(NEW_FILE);
    EncodeVarint32IsVarint(level);
    var number := EncodeVarint64(f.number);
    var size := EncodeVarint64(f.fileSize);
    var smallest := PutLengthPrefixedSlice([], f.smallest);
    var largest := PutLengthPrefixedSlice([], f.largest);
    r := dst + (EncodeVarint32(NEW_FILE) + (EncodeVarint32(level) + (number + (size + (smallest + largest)))));
  }

  method PutFiles(dst: Bytes, s: seq<(nat, FileMetaData)>) returns (r: Bytes)
    requires forall f <- s :: f.0 < NUM_LEVELS && ValidFile(f.1)
    ensures r == dst + EncodeFiles(s)
  {
    hide OneFile;
    r := dst;
    assert s[0..] == s;
    for i := 0 to |s|
      invariant r + EncodeFiles(s[i..]) == dst + EncodeFiles(s)
    {
      assert s[i] in s && s[i..][1..] == s[i + 1..];
      Assoc(r, OneFile(s[i].0, s[i].1), EncodeFiles(s[i + 1..]));
      r := PutFile(r, s[i].0, s[i].1);
    }
  }

  lemma Regroup(dst: Bytes, a: Bytes, b: Bytes, c: Bytes, d: Bytes, e: Bytes, f: Bytes, g: Bytes, h: Bytes)
    ensures dst + a + b + c + d + e + f + g + h == dst + (a + (b + (c + (d + (e + (f + (g + (h + []))))))))
  {
    assert h + [] == h;
    Assoc(dst + a + b + c + d + e + f, g, h);
    Assoc(dst + a + b + c + d + e, f, g + h);
    Assoc(dst + a + b + c + d, e, f + (g + h));
    Assoc(dst + a + b + c, d, e + (f + (g + h)));
    Assoc(dst + a + b, c, d + (e + (f + (g + h))));
    Assoc(dst + a, b, c + (d + (e + (f + (g + h)))));
    Assoc(dst, a, b + (c + (d + (e + (f + (g + h))))));
  }

  class Edit {
    var fields: Fields

    constructor ()
      ensures fields == Fields(None, None, None, None, None, [], {}, [])
    {
      fields := Fields(None, None, None, None, None, [], {}, []);
    }

    /** VersionEdit::EncodeTo. */
    method EncodeTo(dst: Bytes) returns (r: Bytes)
      requires fields.Valid()
      ensures r == dst + Encode(fields)
    {
      hide EncodeComparator, EncodeNumber, EncodePointers, EncodeDeleted, EncodeFiles, Ascending;
      Regroup(dst, EncodeComparator(fields.comparator), EncodeNumber(LOG_NUMBER, fields.logNumber),
              EncodeNumber(PREV_LOG_NUMBER, fields.prevLogNumber),
              EncodeNumber(NEXT_FILE_NUMBER, fields.nextFileNumber),
              EncodeNumber(LAST_SEQUENCE, fields.lastSequence), EncodePointers(fields.compactPointers),
              EncodeDeleted(Ascending(fields.deletedFiles)), EncodeFiles(fields.newFiles));
      r := PutComparator(dst, fields.comparator);
      r := PutNumber(r, LOG_NUMBER, fields.logNumber);
      r := PutNumber(r, PREV_LOG_NUMBER, fields.prevLogNumber);
      r := PutNumber(r, NEXT_FILE_NUMBER, fields.nextFileNumber);
      r := PutNumber(r, LAST_SEQUENCE, fields.lastSequence);
      r := PutPointers(r, fields.compactPointers);
      r := PutDeleted(r, fields.deletedFiles);
      r := PutFiles(r, fields.newFiles);
    }

    /** VersionEdit::DecodeFrom: what was read stays in the object, even when the record is corrupt. */
    method DecodeFrom(src: Bytes) returns (status: Status)
      modifies this
      ensures (fields, status) == Decode(Cleared(old(fields)), src)
    {
      hide Step, ParseVarint;
      fields := Cleared(fields);
      var input := src;
      var t := GetVarint(input, 5, TWO_32);
      while t.Some?
        invariant t == Parse32(input)
        invariant Decode(fields, input) == Decode(Cleared(old(fields)), src)
        decreases |input|
      {
        var (tag, rest) := t.value;
        var r := GetField(fields, tag, rest);
        if r.None? {
          return Corruption(Message(tag));
        }
        fields, input := r.value.0, r.value.1;
        t := GetVarint(input, 5, TWO_32);
      }
      status := if input == [] then OK else Corruption("invalid tag");
    }
  }

  method GetLevel(input: Bytes) returns (r: Option<(nat, Bytes)>)
    ensures r == ParseLevel(input)
  {
    r := GetVarint(input, 5, TWO_32);
    if r.Some? && r.value.0 >= NUM_LEVELS {
      r := None;
    }
  }

  /** The switch of DecodeFrom. */
  method GetField(e: Fields, tag: nat, input: Bytes) returns (r: Option<(Fields, Bytes)>)
    ensures r == Step(e, tag, input)
  {
    hide ParseVarint, ParsePrefixed, ParseLevel;
    if tag == COMPARATOR {
      var s := GetLengthPrefixedSlice(input);
      return if s.None? then None else Some((e.(comparator := Some(s.value.0)), s.value.1));
    } else if tag == LOG_NUMBER || tag == PREV_LOG_NUMBER || tag == NEXT_FILE_NUMBER || tag == LAST_SEQUENCE {
      var n := GetVarint(input, 10, TWO_64);
      if n.None? {
        return None;
      }
      var number: Option<nat> := Some(n.value.0);
      return Some((
        if tag == LOG_NUMBER then e.(logNumber := number)
        else if tag == PREV_LOG_NUMBER then e.(prevLogNumber := number)
        else if tag == NEXT_FILE_NUMBER then e.(nextFileNumber := number)
        else e.(lastSequence := number), n.value.1));
    } else if tag == COMPACT_POINTER || tag == DELETED_FILE || tag == NEW_FILE {
      var level := GetLevel(input);
      if level.None? {
        return None;
      }
      if tag == COMPACT_POINTER {
        var key := GetLengthPrefixedSlice(level.value.1);
        return if key.None? then None
               else Some((e.(compactPointers := e.compactPointers + [(level.value.0, key.value.0)]), key.value.1));
      }
      var number := GetVarint(level.value.1, 10, TWO_64);
      if number.None? {
        return None;
      }
      if tag == DELETED_FILE {
        return Some((e.(deletedFiles := e.deletedFiles + {(level.value.0, number.value.0)}), number.value.1));
      }
      var size := GetVarint(number.value.1, 10, TWO_64);
      if size.None? {
        return None;
      }
      var smallest := GetLengthPrefixedSlice(size.value.1);
      if smallest.None? {
        return None;
      }
      var largest := GetLengthPrefixedSlice(smallest.value.1);
      if largest.None? {
        return None;
      }
      var f := FileMetaData(number.value.0, size.value.0, smallest.value.0, largest.value.0);
      return Some((e.(newFiles := e.newFiles + [(level.value.0, f)]), largest.value.1));
    }
    r := None;
  }
}

/**
 Write batches (db/write_batch.cc): operations in one byte string, the unit that
 is logged and inserted into the memtable.
 */
module WriteBatch {
  import opened Format
  import opened Coding
  import opened Log

  datatype Op = Put(key: Bytes, value: Bytes) | Delete(key: Bytes)

  const HEADER: nat := 12

  ghost predicate Storable(op: Op) {
    |op.key| < TWO_32 && (op.Put? ==> |op.value| < TWO_32)
  }

  ghost predicate AllStorable(ops: seq<Op>) {
    forall i :: 0 <= i < |ops| ==> Storable(ops[i])
  }

  ghost function Record(op: Op): (r: Bytes)
    ensures r != []
  {
    match op
    case Put(key, value) => [1] + (Prefixed(key) + Prefixed(value))
    case Delete(key) => [0] + Prefixed(key)
  }

  ghost function Records(ops: seq<Op>): Bytes {
    if ops == [] then [] else Record(ops[0]) + Records(ops[1..])
  }

  lemma {:induction false} RecordsAppend(a: seq<Op>, b: seq<Op>)
    ensures Records(a + b) == Records(a) + Records(b)
  {
    hide Record;
    if a == [] {
      assert [] + b == b;
    } else {
      RecordsAppend(a[1..], b);
      assert (a + b)[1..] == a[1..] + b;
      Assoc(Record(a[0]), Records(a[1..]), Records(b));
    }
  }

  /** The contents of a batch. */
  ghost function Rep(sequence: nat, ops: seq<Op>): Bytes {
    Fixed(sequence, 8) + Fixed(|ops|, 4) + Records(ops)
  }

  // ---------------------------------------------------------------- reading a batch

  /** What one record holds and what follows it, or why it is corrupt. */
  datatype Parsed = Parsed(op: Op, rest: Bytes) | Bad(message: string)

  ghost function ParseRecord(input: Bytes): (r: Parsed)
    requires input != []
    ensures r.Parsed? ==> |r.rest| < |input|
  {
    if input[0] == 1 then
      var key := ParsePrefixed(input[1..]);
      if key.None? then Bad("bad WriteBatch Put") else
      var value := ParsePrefixed(key.value.1);
      if value.None? then Bad("bad WriteBatch Put") else Parsed(Put(key.value.0, value.value.0), value.value.1)
    else if input[0] == 0 then
      var key := ParsePrefixed(input[1..]);
      if key.None? then Bad("bad WriteBatch Delete") else Parsed(Delete(key.value.0), key.value.1)
    else Bad("unknown WriteBatch tag")
  }

  /** The operations handed to the handler, and the first corruption, if any. */
  ghost function ParseRecords(input: Bytes): (seq<Op>, Status)
    decreases |input|
  {
    if input == [] then ([], OK)
    else
      var r := ParseRecord(input);
      if r.Bad? then ([], Corruption(r.message))
      else
        var rest := ParseRecords(r.rest);
        ([r.op] + rest.0, rest.1)
  }

  ghost function Parse(rep: Bytes): (seq<Op>, Status) {
    if |rep| < HEADER then ([], Corruption("malformed WriteBatch (too small)"))
    else
      var r := ParseRecords(rep[HEADER..]);
      if r.1 != OK then r
      else if |r.0| != DecodeFixed(rep[8..12]) then (r.0, Corruption("WriteBatch has wrong count"))
      else r
  }

  lemma RecordParses(op: Op, tail: Bytes)
    requires Storable(op)
    ensures ParseRecord(Record(op) + tail) == Parsed(op, tail)
  {
    hide ParsePrefixed, Prefixed;
    match op
    case Put(key, value) =>
      assert (Record(op) + tail)[1..] == Prefixed(key) + (Prefixed(value) + tail);
      PrefixedRoundTrip(value, tail);
      PrefixedRoundTrip(key, Prefixed(value) + tail);
    case Delete(key) =>
      assert (Record(op) + tail)[1..] == Prefixed(key) + tail;
      PrefixedRoundTrip(key, tail);
  }

  lemma {:induction false} RecordsParse(ops: seq<Op>)
    requires AllStorable(ops)
    ensures ParseRecords(Records(ops)) == (ops, OK)
  {
    hide Record, ParseRecord;
    if ops != [] {
      RecordParses(ops[0], Records(ops[1..]));
      RecordsParse(ops[1..]);
      assert [ops[0]] + ops[1..] == ops;
    }
  }

  /** A batch reads back as its operations. */
  lemma BatchRoundTrip(sequence: nat, ops: seq<Op>)
    requires AllStorable(ops) && |ops| < TWO_32 && sequence < TWO_64
    ensures Parse(Rep(sequence, ops)) == (ops, OK)
    ensures DecodeFixed(Rep(sequence, ops)[..8]) == sequence
  {
    hide Fixed, DecodeFixed, Records, ParseRecords;
    var rep := Rep(sequence, ops);
    assert rep[8..12] == Fixed(|ops|, 4) && rep[HEADER..] == Records(ops) && rep[..8] == Fixed(sequence, 8);
    FixedMask(|ops|);
    Fixed64(sequence);
    RecordsParse(ops);
  }

  lemma Fixed64(x: nat)
    requires x < TWO_64
    ensures DecodeFixed(Fixed(x, 8)) == x
  {
    assert Pow256(8) == TWO_64 by {
      assert Pow256(4) == TWO_32 by { assert Pow256(2) == 65536; }
      assert Pow256(6) == 0x1_0000_0000_0000;
    }
    FixedRoundTrip(x, 8);
  }

  // ---------------------------------------------------------------- the class

  class Batch {
    var rep: Bytes
    ghost var sequence: nat
    ghost var ops: seq<Op>

    ghost predicate Valid()
      reads this
    {
      rep == Rep(sequence, ops) && |ops| < TWO_32 && sequence < TWO_64
    }

    constructor ()
      ensures Valid() && ops == [] && sequence == 0
    {
      rep := Fixed(0, 8) + Fixed(0, 4);
      sequence, ops := 0, [];
    }

    method Count() returns (n: nat)
      requires Valid()
      ensures n == |ops|
    {
      hide Fixed, DecodeFixed, Records;
      assert rep[8..12] == Fixed(|ops|, 4);
      FixedMask(|ops|);
      n := DecodeFixed(rep[8..12]);
    }

    /** WriteBatch::Put and WriteBatch::Delete. */
    method Add(op: Op)
      requires Valid() && |ops| + 1 < TWO_32 && Storable(op)
      modifies this
      ensures Valid() && ops == old(ops) + [op] && sequence == old(sequence)
    {
      hide Fixed, Record, Records;
      var n := Count();
      rep := rep[..8] + Fixed(n + 1, 4) + rep[HEADER..];
      assert rep == Fixed(sequence, 8) + Fixed(n + 1, 4) + Records(ops);
      rep := PutRecord(rep, op);
      RecordsAppend(ops, [op]);
      SingleRecord(op);
      ops := ops + [op];
    }

    /** WriteBatchInternal::SetSequence. */
    method SetSequence(s: nat)
      requires Valid() && s < TWO_64
      modifies this
      ensures Valid() && sequence == s && ops == old(ops)
    {
      hide Fixed, Records;
      rep := Fixed(s, 8) + rep[8..];
      sequence := s;
    }

    /** WriteBatchInternal::Append; a batch may be appended to itself. */
    method Append(source: Batch)
      requires Valid() && source.Valid() && |ops| + |source.ops| < TWO_32
      modifies this
      ensures Valid() && ops == old(ops) + old(source.ops) && sequence == old(sequence)
    {
      hide Fixed, Records;
      var m := Count();
      var n := source.Count();
      rep := rep[..8] + Fixed(m + n, 4) + rep[HEADER..];
      assert rep == Fixed(sequence, 8) + Fixed(m + n, 4) + Records(ops);
      assert source.rep[HEADER..] == Records(source.ops);
      rep := rep + source.rep[HEADER..];
      RecordsAppend(ops, source.ops);
      ops := ops + source.ops;
    }
  }

  lemma SingleRecord(op: Op)
    ensures Records([op]) == Record(op)
  {
    assert Record(op) + [] == Record(op);
  }

  method PutRecord(rep: Bytes, op: Op) returns (r: Bytes)
    requires Storable(op)
    ensures r == rep + Record(op)
  {
    match op
    case Put(key, value) =>
      r := PutLengthPrefixedSlice(rep + [1], key);
      r := PutLengthPrefixedSlice(r, value);
    case Delete(key) =>
      r := PutLengthPrefixedSlice(rep + [0], key);
  }

  /** WriteBatch::Iterate with MemTableInserter: each operation gets the next sequence number. */
  method InsertInto(rep: Bytes) returns (inserted: seq<(nat, Op)>, status: Status)
    ensures status == Parse(rep).1
    ensures |inserted| == |Parse(rep).0|
    ensures forall i :: 0 <= i < |inserted| ==> inserted[i] == (DecodeFixed(rep[..8]) + i, Parse(rep).0[i])
  {
    hide ParseRecord, DecodeFixed;
    inserted := [];
    if |rep| < HEADER {
      return [], Corruption("malformed WriteBatch (too small)");
    }
    var sequence := DecodeFixed(rep[..8]);
    var input := rep[HEADER..];
    ghost var seen: seq<Op> := [];
    assert seen + ParseRecords(input).0 == ParseRecords(input).0;
    while input != []
      invariant |inserted| == |seen| && forall i :: 0 <= i < |seen| ==> inserted[i] == (sequence + i, seen[i])
      invariant ParseRecords(rep[HEADER..]) == (seen + ParseRecords(input).0, ParseRecords(input).1)
      decreases |input|
    {
      var r := GetRecord(input);
      if r.Bad? {
        return inserted, Corruption(r.message);
      }
      ghost var tail := ParseRecords(r.rest).0;
      assert seen + ([r.op] + tail) == (seen + [r.op]) + tail;
      inserted := inserted + [(sequence + |inserted|, r.op)];
      seen := seen + [r.op];
      input := r.rest;
    }
    assert seen + [] == seen;
    if |inserted| != DecodeFixed(rep[8..12]) {
      return inserted, Corruption("WriteBatch has wrong count");
    }
    status := OK;
  }

  method GetRecord(input: Bytes) returns (r: Parsed)
    requires input != []
    ensures r == ParseRecord(input)
  {
    hide ParsePrefixed;
    if input[0] == 1 {
      var key := GetLengthPrefixedSlice(input[1..]);
      if key.None? {
        return Bad("bad WriteBatch Put");
      }
      var value := GetLengthPrefixedSlice(key.value.1);
      if value.None? {
        return Bad("bad WriteBatch Put");
      }
      r := Parsed(Put(key.value.0, value.value.0), value.value.1);
    } else if input[0] == 0 {
      var key := GetLengthPrefixedSlice(input[1..]);
      if key.None? {
        return Bad("bad WriteBatch Delete");
      }
      r := Parsed(Delete(key.value.0), key.value.1);
    } else {
      r := Bad("unknown WriteBatch tag");
    }
  }
}

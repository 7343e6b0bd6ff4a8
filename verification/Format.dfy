/**
 Internal keys, entries and files (db/dbformat.h, db/dbformat.cc), and what a
 set of entries means to a reader.

 User keys are numbers: the values of the fixed-width decimal key strings, whose
 numeric order is their byte order (module Keys).
 */
module Format {

  datatype Option<+T> = None | Some(value: T)

  const NUM_LEVELS: nat := 7
  const MAX_SEQUENCE: nat := 0xff_ffff_ffff_ffff

  datatype ValueType = Deletion | Value {
    function Code(): nat { if Deletion? then 0 else 1 }
  }

  datatype InternalKey = InternalKey(user: nat, seqno: nat, kind: ValueType) {
    /** PackSequenceAndType: the sequence number above an 8-bit type. */
    function Packed(): nat { 256 * seqno + kind.Code() }
  }

  /** The key a lookup seeks: the newest entry of `user` visible at `snapshot` or later in order. */
  function LookupKey(user: nat, snapshot: nat): InternalKey {
    InternalKey(user, snapshot, Value)
  }

  /** InternalKeyComparator::Compare: user key ascending, then newest first. */
  function Compare(a: InternalKey, b: InternalKey): int {
    if a.user < b.user then -1
    else if a.user > b.user then 1
    else if a.Packed() > b.Packed() then -1
    else if a.Packed() < b.Packed() then 1
    else 0
  }

  datatype Entry = Entry(key: InternalKey, value: string)

  /** A table file: its metadata and the entries it holds. */
  datatype File = File(number: nat, size: nat, smallest: InternalKey, largest: InternalKey, entries: seq<Entry>) {
    ghost predicate Valid() {
      && entries != [] && Sorted(entries)
      && smallest == entries[0].key && largest == entries[|entries| - 1].key
    }
  }

  ghost predicate Sorted(entries: seq<Entry>) {
    forall i, j :: 0 <= i < j < |entries| ==> Compare(entries[i].key, entries[j].key) < 0
  }

  ghost function Elements(entries: seq<Entry>): set<Entry> {
    set e | e in entries
  }

  ghost function EntriesOf(files: seq<File>): set<Entry> {
    set f, e | f in files && e in f.entries :: e
  }

  // ---------------------------------------------------------------- what a reader sees

  /** `e` is an entry of `user` that a reader at `snapshot` may see. */
  ghost predicate Candidate(e: Entry, s: set<Entry>, user: nat, snapshot: nat) {
    e in s && e.key.user == user && e.key.seqno <= snapshot
  }

  ghost predicate Newest(e: Entry, s: set<Entry>, user: nat, snapshot: nat) {
    && Candidate(e, s, user, snapshot)
    && forall d :: Candidate(d, s, user, snapshot) ==> d.key.seqno <= e.key.seqno
  }

  /** `r` is the newest entry of `user` visible at `snapshot`, or there is none. */
  ghost predicate Answers(s: set<Entry>, user: nat, snapshot: nat, r: Option<Entry>) {
    match r
    case None => forall e :: !Candidate(e, s, user, snapshot)
    case Some(e) => Newest(e, s, user, snapshot)
  }

  /** What the user is told: a deletion marker reads as "not found". */
  function Found(r: Option<Entry>): Option<string> {
    if r.Some? && r.value.key.kind.Value? then Some(r.value.value) else None
  }

  /** At most one entry per user key and sequence number. */
  ghost predicate UniqueSeqnos(s: set<Entry>) {
    forall a, b :: a in s && b in s && a.key.user == b.key.user && a.key.seqno == b.key.seqno ==> a == b
  }

  /** Every entry of `a` is newer than every entry of `b` of the same user key. */
  ghost predicate Above(a: set<Entry>, b: set<Entry>) {
    forall d, e :: d in a && e in b && d.key.user == e.key.user ==> d.key.seqno > e.key.seqno
  }

  lemma AnswersUnique(s: set<Entry>, user: nat, snapshot: nat, r: Option<Entry>, r': Option<Entry>)
    requires UniqueSeqnos(s)
    requires Answers(s, user, snapshot, r) && Answers(s, user, snapshot, r')
    ensures r == r'
  {
  }

  lemma AnswerExists(s: set<Entry>, user: nat, snapshot: nat) returns (r: Option<Entry>)
    ensures Answers(s, user, snapshot, r)
  {
    if forall e :: !Candidate(e, s, user, snapshot) {
      r := None;
    } else {
      var e :| Candidate(e, s, user, snapshot);
      var rest := AnswerExists(s - {e}, user, snapshot);
      assert forall d :: Candidate(d, s, user, snapshot) ==> d == e || Candidate(d, s - {e}, user, snapshot);
      r := if rest.Some? && rest.value.key.seqno > e.key.seqno then rest else Some(e);
    }
  }

  /** Why stopping at the first set that answers is right. */
  lemma FirstHitWins(a: set<Entry>, b: set<Entry>, user: nat, snapshot: nat, r: Option<Entry>, q: Option<Entry>)
    requires r.Some? ==> Above(a, b)
    requires Answers(a, user, snapshot, r) && Answers(b, user, snapshot, q)
    ensures Answers(a + b, user, snapshot, if r.Some? then r else q)
  {
    assert forall e :: Candidate(e, a + b, user, snapshot) <==>
      Candidate(e, a, user, snapshot) || Candidate(e, b, user, snapshot);
  }
}

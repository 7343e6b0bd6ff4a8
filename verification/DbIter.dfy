/**
 The user's iterator (db/db_iter.cc): one live entry per user key out of a sorted
 stream of versions, deletion markers and entries too new to see, in both
 directions.
 */
module DbIter {
  import opened Format
  import opened Version

  ghost predicate UserSorted(entries: seq<Entry>) {
    forall i, j :: 0 <= i < j < |entries| ==> entries[i].key.user <= entries[j].key.user
  }

  predicate Visible(entries: seq<Entry>, sequence: nat, i: nat)
    requires i < |entries|
  {
    entries[i].key.seqno <= sequence
  }

  /** Entry `i` is what a reader at `sequence` sees of its user key, and it is a value. */
  ghost predicate Live(entries: seq<Entry>, sequence: nat, i: nat)
    requires i < |entries|
  {
    && Visible(entries, sequence, i) && entries[i].key.kind.Value?
    && forall j :: 0 <= j < i && Visible(entries, sequence, j) ==> entries[j].key.user != entries[i].key.user
  }

  /** `i` is the first live entry with a user key of at least `low`. */
  ghost predicate FirstLive(entries: seq<Entry>, sequence: nat, low: nat, i: nat) {
    && i < |entries| && Live(entries, sequence, i) && low <= entries[i].key.user
    && forall j :: 0 <= j < i && low <= entries[j].key.user ==> !Live(entries, sequence, j)
  }

  ghost predicate NoneLive(entries: seq<Entry>, sequence: nat, low: nat) {
    forall j :: 0 <= j < |entries| && low <= entries[j].key.user ==> !Live(entries, sequence, j)
  }

  /** `i` is the last live entry with a user key below `high`. */
  ghost predicate LastLive(entries: seq<Entry>, sequence: nat, high: Option<nat>, i: nat) {
    && i < |entries| && Live(entries, sequence, i) && Below(entries[i], high)
    && forall j :: i < j < |entries| && Below(entries[j], high) ==> !Live(entries, sequence, j)
  }

  ghost predicate NoneLiveBelow(entries: seq<Entry>, sequence: nat, high: Option<nat>) {
    forall j :: 0 <= j < |entries| && Below(entries[j], high) ==> !Live(entries, sequence, j)
  }

  predicate Below(e: Entry, high: Option<nat>) {
    high.Some? ==> e.key.user < high.value
  }

  class DBIter {
    const entries: seq<Entry>
    const sequence: nat

    /** The inner iterator: an index, or |entries| when it is not valid. */
    var pos: nat

    var reverse: bool
    var valid: bool
    var savedKey: nat
    var savedValue: string

    /** The live entry the iterator stands on. */
    ghost var current: nat

    ghost predicate Valid()
      reads this
    {
      && UserSorted(entries) && pos <= |entries|
      && (valid ==>
          && current < |entries| && Live(entries, sequence, current)
          && if !reverse then pos == current else
            && savedKey == entries[current].key.user && savedValue == entries[current].value
            && (pos < |entries| ==> pos < current && entries[pos].key.user < savedKey)
            && forall j :: 0 <= j < current && (pos < |entries| ==> pos < j) ==> !Visible(entries, sequence, j))
    }

    constructor (entries: seq<Entry>, sequence: nat)
      requires UserSorted(entries)
      ensures Valid() && !valid && this.entries == entries && this.sequence == sequence
    {
      this.entries, this.sequence := entries, sequence;
      pos, reverse, valid, savedKey, savedValue, current := |entries|, false, false, 0, "", 0;
    }

    method Key() returns (k: nat)
      requires Valid() && valid
      ensures k == entries[current].key.user
    {
      k := if !reverse then entries[pos].key.user else savedKey;
    }

    method Value() returns (v: string)
      requires Valid() && valid
      ensures v == entries[current].value
    {
      v := if !reverse then entries[pos].value else savedValue;
    }

    /** DBIter::Seek: the inner iterator lands on the first entry at or after the lookup key. */
    method Seek(target: nat)
      requires Valid()
      modifies this
      ensures Valid()
      ensures if valid then FirstLive(entries, sequence, target, current) else NoneLive(entries, sequence, target)
    {
      hide Live;
      reverse, savedValue, savedKey := false, "", 0;
      pos := SeekIndex(entries, LookupKey(target, sequence));
      SeekLands(entries, sequence, target, pos);
      if pos < |entries| {
        FindNextUserEntry(None);
      } else {
        valid := false;
      }
    }

    method SeekToFirst()
      requires Valid()
      modifies this
      ensures Valid() && if valid then FirstLive(entries, sequence, 0, current) else NoneLive(entries, sequence, 0)
    {
      hide Live;
      reverse, savedValue := false, "";
      pos := 0;
      if pos < |entries| {
        FindNextUserEntry(None);
        FromFirst(entries, sequence, entries[0].key.user);
      } else {
        valid := false;
      }
    }

    method Next()
      requires Valid() && valid
      modifies this
      ensures Valid()
      ensures var low := entries[old(current)].key.user + 1;
        if valid then FirstLive(entries, sequence, low, current) else NoneLive(entries, sequence, low)
    {
      hide Live;
      if reverse {
        reverse := false;
        pos := if pos == |entries| then 0 else pos + 1;
      } else {
        savedKey := entries[pos].key.user;
      }
      FindNextUserEntry(Some(savedKey));
    }

    method SeekToLast()
      requires Valid()
      modifies this
      ensures Valid()
      ensures if valid then LastLive(entries, sequence, None, current) else NoneLiveBelow(entries, sequence, None)
    {
      hide Live;
      reverse, savedValue := true, "";
      pos := if |entries| == 0 then 0 else |entries| - 1;
      FindPrevUserEntry(None);
    }

    method Prev()
      requires Valid() && valid
      modifies this
      ensures Valid()
      ensures var high := Some(entries[old(current)].key.user);
        if valid then LastLive(entries, sequence, high, current) else NoneLiveBelow(entries, sequence, high)
    {
      hide Live;
      ghost var high := entries[current].key.user;
      if !reverse {
        savedKey := entries[pos].key.user;
        while true
          invariant pos <= current < |entries| && savedKey == high == entries[current].key.user
          invariant forall j :: pos <= j <= current ==> entries[j].key.user == savedKey
          decreases pos
        {
          if pos == 0 {
            pos, valid, savedKey, savedValue := |entries|, false, 0, "";
            return;
          }
          pos := pos - 1;
          if entries[pos].key.user < savedKey {
            break;
          }
        }
        reverse := true;
      }
      FindPrevUserEntry(Some(high));
    }

    /** DBIter::FindPrevUserEntry. */
    method FindPrevUserEntry(ghost high: Option<nat>)
      requires UserSorted(entries) && pos <= |entries| && reverse && Behind(entries, sequence, pos, high)
      modifies this
      ensures Valid()
      ensures if valid then LastLive(entries, sequence, high, current) else NoneLiveBelow(entries, sequence, high)
    {
      hide Live, Scanned;
      var valueType := Deletion;
      ghost var last: nat, v: nat := pos, |entries|;
      if pos < |entries| {
        ScanBackStarts(entries, sequence, last);
        while true
          invariant reverse && pos <= last < |entries| && Scanned(entries, sequence, pos + 1, last, v, valueType)
          invariant valueType.Value? ==>
            v < |entries| && savedKey == entries[v].key.user && savedValue == entries[v].value
          decreases pos
        {
          var e := entries[pos];
          ScanBack(entries, sequence, pos, last, v, valueType);
          if Visible(entries, sequence, pos) {
            if valueType.Value? && e.key.user < savedKey {
              break;
            }
            valueType, v := e.key.kind, pos;
            if valueType.Deletion? {
              savedKey, savedValue := 0, "";
            } else {
              savedKey, savedValue := e.key.user, e.value;
            }
          }
          if pos == 0 {
            pos := |entries|;
            break;
          }
          pos := pos - 1;
        }
        ScanDone(entries, sequence, pos, last, v, valueType, high);
      } else {
        NothingBehind(entries, sequence, high);
      }
      if valueType.Deletion? {
        valid, savedKey, savedValue, reverse := false, 0, "", false;
      } else {
        valid, current := true, v;
      }
    }

    /** DBIter::FindNextUserEntry. */
    method FindNextUserEntry(skip: Option<nat>)
      requires UserSorted(entries) && pos < |entries| && !reverse && Passed(entries, sequence, pos, skip)
      requires skip.Some? ==> Separates(entries, sequence, pos, skip.value)
      modifies this
      ensures Valid() && !reverse
      ensures var low := if skip.Some? then skip.value + 1 else entries[old(pos)].key.user;
        if valid then FirstLive(entries, sequence, low, current) else NoneLive(entries, sequence, low)
    {
      hide Live, Passed, SkipJustified, Visible;
      ghost var low := if skip.Some? then skip.value + 1 else entries[pos].key.user;
      var skipping: Option<nat> := skip;
      ScanStarts(entries, sequence, pos, skip, low);
      while pos < |entries|
        invariant old(pos) <= pos <= |entries| && !reverse
        invariant Passed(entries, sequence, pos, skipping) && SkipJustified(entries, sequence, pos, skipping, low)
        invariant forall j :: 0 <= j < pos && low <= entries[j].key.user ==> !Live(entries, sequence, j)
      {
        var e := entries[pos];
        ScanStep(entries, sequence, pos, skipping, low);
        if Visible(entries, sequence, pos) {
          if e.key.kind.Deletion? {
            skipping := Some(e.key.user);
          } else if skipping.Some? && e.key.user <= skipping.value {
            // entry hidden
          } else {
            valid, savedKey, current := true, 0, pos;
            return;
          }
        }
        pos := pos + 1;
      }
      valid, savedKey := false, 0;
    }
  }

  /** Visible user keys before `p` are at most `k`, those from `p` on at least `k`. */
  ghost predicate Separates(entries: seq<Entry>, sequence: nat, p: nat, k: nat)
    requires p <= |entries|
  {
    && (forall j :: 0 <= j < p && Visible(entries, sequence, j) ==> entries[j].key.user <= k)
    && (forall j :: p <= j < |entries| && Visible(entries, sequence, j) ==> k <= entries[j].key.user)
  }

  /** Every visible entry before `p` is of a user key that is to be skipped, or is done with. */
  ghost predicate Passed(entries: seq<Entry>, sequence: nat, p: nat, skip: Option<nat>)
    requires p <= |entries|
  {
    forall j :: 0 <= j < p && Visible(entries, sequence, j) ==>
      (skip.Some? && entries[j].key.user <= skip.value) || (p < |entries| ==> entries[j].key.user < entries[p].key.user)
  }

  /** The key to skip is below the range asked for, or one of its visible entries was passed. */
  ghost predicate SkipJustified(entries: seq<Entry>, sequence: nat, p: nat, skip: Option<nat>, low: nat)
    requires p <= |entries|
  {
    if skip.None? then p < |entries| ==> low <= entries[p].key.user
    else
      && low <= skip.value + 1
      && ((skip.value < low && forall j :: p <= j < |entries| && Visible(entries, sequence, j) ==>
            skip.value <= entries[j].key.user)
          || exists d :: 0 <= d < p && Visible(entries, sequence, d) && entries[d].key.user == skip.value)
  }

  lemma ScanStarts(entries: seq<Entry>, sequence: nat, p: nat, skip: Option<nat>, low: nat)
    requires UserSorted(entries) && p < |entries| && Passed(entries, sequence, p, skip)
    requires low == if skip.Some? then skip.value + 1 else entries[p].key.user
    requires skip.Some? ==> Separates(entries, sequence, p, skip.value)
    ensures SkipJustified(entries, sequence, p, skip, low)
    ensures forall j :: 0 <= j < p && low <= entries[j].key.user ==> !Live(entries, sequence, j)
  {
  }

  lemma ScanStep(entries: seq<Entry>, sequence: nat, p: nat, skip: Option<nat>, low: nat)
    requires UserSorted(entries) && p < |entries| && Passed(entries, sequence, p, skip)
    requires SkipJustified(entries, sequence, p, skip, low)
    ensures !Visible(entries, sequence, p) ==>
      !Live(entries, sequence, p) && Passed(entries, sequence, p + 1, skip)
        && SkipJustified(entries, sequence, p + 1, skip, low)
    ensures Visible(entries, sequence, p) ==>
      var (u, kind) := (entries[p].key.user, entries[p].key.kind);
      if kind.Deletion? then
        && !Live(entries, sequence, p)
        && Passed(entries, sequence, p + 1, Some(u)) && SkipJustified(entries, sequence, p + 1, Some(u), low)
      else if skip.Some? && u <= skip.value then
        && (low <= u ==> !Live(entries, sequence, p))
        && Passed(entries, sequence, p + 1, skip) && SkipJustified(entries, sequence, p + 1, skip, low)
      else Live(entries, sequence, p) && low <= u
  {
  }

  lemma SeekLands(entries: seq<Entry>, sequence: nat, target: nat, index: nat)
    requires UserSorted(entries) && index <= |entries|
    requires forall j :: 0 <= j < index ==> Compare(entries[j].key, LookupKey(target, sequence)) < 0
    requires index < |entries| ==> Compare(entries[index].key, LookupKey(target, sequence)) >= 0
    ensures Passed(entries, sequence, index, None)
    ensures forall j :: 0 <= j < index && target <= entries[j].key.user ==> !Live(entries, sequence, j)
    ensures index < |entries| ==> target <= entries[index].key.user
  {
  }

  lemma FromFirst(entries: seq<Entry>, sequence: nat, low: nat)
    requires UserSorted(entries) && entries != [] && low == entries[0].key.user
    ensures forall i :: FirstLive(entries, sequence, low, i) ==> FirstLive(entries, sequence, 0, i)
    ensures NoneLive(entries, sequence, low) ==> NoneLive(entries, sequence, 0)
  {
    hide Live;
  }

  /** All visible entries below `high` are at or before `p`, and all entries there are below it. */
  ghost predicate Behind(entries: seq<Entry>, sequence: nat, p: nat, high: Option<nat>)
    requires p <= |entries|
  {
    && (p < |entries| ==> Below(entries[p], high))
    && (forall j :: 0 <= j < |entries| && (p < |entries| ==> p < j) && Below(entries[j], high) ==>
        !Visible(entries, sequence, j))
  }

  /** Going back from `last` to `q`: `v` is the earliest visible entry met, `kind` its
      type, and no live entry of a later user key was met. */
  ghost predicate Scanned(entries: seq<Entry>, sequence: nat, q: nat, last: nat, v: nat, kind: ValueType)
    requires q <= last + 1 <= |entries|
  {
    && (forall j :: q <= j <= last && j < v ==> !Visible(entries, sequence, j))
    && (if v == |entries| then kind.Deletion?
        else q <= v <= last && Visible(entries, sequence, v) && kind == entries[v].key.kind)
    && (forall j :: q <= j <= last && v < |entries| && entries[v].key.user < entries[j].key.user ==>
        !Live(entries, sequence, j))
  }

  lemma NothingBehind(entries: seq<Entry>, sequence: nat, high: Option<nat>)
    requires Behind(entries, sequence, |entries|, high)
    ensures NoneLiveBelow(entries, sequence, high)
  {
  }

  lemma ScanBackStarts(entries: seq<Entry>, sequence: nat, last: nat)
    requires last < |entries|
    ensures Scanned(entries, sequence, last + 1, last, |entries|, Deletion)
  {
  }

  lemma ScanBack(entries: seq<Entry>, sequence: nat, p: nat, last: nat, v: nat, kind: ValueType)
    requires UserSorted(entries) && p <= last < |entries| && Scanned(entries, sequence, p + 1, last, v, kind)
    ensures !Visible(entries, sequence, p) ==> Scanned(entries, sequence, p, last, v, kind)
    ensures (Visible(entries, sequence, p)
             && !(kind.Value? && v < |entries| && entries[p].key.user < entries[v].key.user)) ==>
      Scanned(entries, sequence, p, last, p, entries[p].key.kind)
  {
  }

  lemma ScanDone(entries: seq<Entry>, sequence: nat, p: nat, last: nat, v: nat, kind: ValueType, high: Option<nat>)
    requires UserSorted(entries) && last < |entries| && Behind(entries, sequence, last, high) && p <= |entries|
    requires if p == |entries| then Scanned(entries, sequence, 0, last, v, kind) else
      && p <= last && Scanned(entries, sequence, p + 1, last, v, kind) && kind.Value?
      && Visible(entries, sequence, p) && v < |entries| && entries[p].key.user < entries[v].key.user
    ensures kind.Value? ==> v < |entries| && LastLive(entries, sequence, high, v)
    ensures kind.Value? ==> forall j :: 0 <= j < v && (p < |entries| ==> p < j) ==> !Visible(entries, sequence, j)
    ensures kind.Deletion? ==> NoneLiveBelow(entries, sequence, high)
    ensures p < |entries| ==> p < v
  {
  }

  // ---------------------------------------------------------------- what is live

  lemma LiveAnswers(entries: seq<Entry>, sequence: nat, i: nat)
    requires Sorted(entries) && i < |entries| && Live(entries, sequence, i)
    ensures Answers(Elements(entries), entries[i].key.user, sequence, Some(entries[i]))
  {
    forall d | Candidate(d, Elements(entries), entries[i].key.user, sequence)
      ensures d.key.seqno <= entries[i].key.seqno
    {
      var j :| 0 <= j < |entries| && entries[j] == d;
      assert Visible(entries, sequence, j);
    }
  }

  /** The live entries are exactly what lookups at the same sequence number find. */
  lemma LiveIffFound(entries: seq<Entry>, sequence: nat, user: nat, r: Option<Entry>)
    requires Sorted(entries) && UniqueSeqnos(Elements(entries)) && Answers(Elements(entries), user, sequence, r)
    ensures Found(r).Some? <==>
      exists i :: 0 <= i < |entries| && entries[i].key.user == user && Live(entries, sequence, i)
    ensures forall i :: 0 <= i < |entries| && entries[i].key.user == user && Live(entries, sequence, i) ==>
      Found(r) == Some(entries[i].value)
  {
    hide Answers, UniqueSeqnos, Sorted, Live;
    forall i | 0 <= i < |entries| && entries[i].key.user == user && Live(entries, sequence, i)
      ensures r == Some(entries[i]) && entries[i].key.kind.Value?
    {
      LiveAnswers(entries, sequence, i);
      AnswersUnique(Elements(entries), user, sequence, r, Some(entries[i]));
      LiveIsValue(entries, sequence, i);
    }
    if Found(r).Some? {
      var i := AnswerIsLive(entries, sequence, user, r.value);
    }
  }

  lemma LiveIsValue(entries: seq<Entry>, sequence: nat, i: nat)
    requires i < |entries| && Live(entries, sequence, i)
    ensures entries[i].key.kind.Value?
  {
  }

  lemma AnswerIsLive(entries: seq<Entry>, sequence: nat, user: nat, e: Entry) returns (i: nat)
    requires Sorted(entries) && UniqueSeqnos(Elements(entries))
    requires Answers(Elements(entries), user, sequence, Some(e)) && e.key.kind.Value?
    ensures i < |entries| && entries[i] == e && e.key.user == user && Live(entries, sequence, i)
  {
    i :| 0 <= i < |entries| && entries[i] == e;
    forall j | 0 <= j < i && Visible(entries, sequence, j)
      ensures entries[j].key.user != user
    {
      if entries[j].key.user == user {
        assert Candidate(entries[j], Elements(entries), user, sequence);
      }
    }
  }
}

/**
 The cache (util/cache.cc): handles counted by their references, two lists, and a
 chained hash table that grows.
 */
module Lru {
  import opened Coding
  import opened Format

  /** A cache entry at an address.  Its links are the sequences that hold it; its
      reference count and in-cache mark are kept by the cache, which alone changes them. */
  datatype LRUHandle = LRUHandle(address: nat, key: Bytes, hash: nat, charge: nat)

  predicate Matches(h: LRUHandle, key: Bytes, hash: nat) {
    h.hash == hash && h.key == key
  }

  // ---------------------------------------------------------------- the hash table

  ghost function Total(list: seq<seq<LRUHandle>>): nat {
    if list == [] then 0 else Total(list[..|list| - 1]) + |list[|list| - 1]|
  }

  ghost predicate InTable(list: seq<seq<LRUHandle>>, h: LRUHandle) {
    exists b :: 0 <= b < |list| && h in list[b]
  }

  /** Each handle is in the bucket of its hash, and no two of a bucket match. */
  ghost predicate Chained(list: seq<seq<LRUHandle>>) {
    && list != []
    && (forall b, i :: 0 <= b < |list| && 0 <= i < |list[b]| ==> list[b][i].hash % |list| == b)
    && (forall b, i, j :: 0 <= b < |list| && 0 <= i < j < |list[b]| ==>
        !Matches(list[b][i], list[b][j].key, list[b][j].hash))
  }

  /** FindPointer: the slot that points to the matching entry, or the trailing slot. */
  method FindPointer(bucket: seq<LRUHandle>, key: Bytes, hash: nat) returns (i: nat)
    ensures i <= |bucket| && (i < |bucket| ==> Matches(bucket[i], key, hash))
    ensures forall j :: 0 <= j < i ==> !Matches(bucket[j], key, hash)
  {
    i := 0;
    while i < |bucket| && !Matches(bucket[i], key, hash)
      invariant i <= |bucket|
      invariant forall j :: 0 <= j < i ==> !Matches(bucket[j], key, hash)
    {
      i := i + 1;
    }
  }

  lemma {:induction false} TotalUpdate(list: seq<seq<LRUHandle>>, b: nat, bucket: seq<LRUHandle>)
    requires b < |list|
    ensures Total(list[b := bucket]) + |list[b]| == Total(list) + |bucket|
  {
    var n := |list| - 1;
    if b < n {
      TotalUpdate(list[..n], b, bucket);
      assert list[b := bucket][..n] == list[..n][b := bucket];
    } else {
      assert list[b := bucket][..n] == list[..n];
    }
  }

  class HandleTable {
    var length: nat
    var elems: nat
    var list: seq<seq<LRUHandle>>

    ghost predicate Loaded()
      reads this
    {
      length == |list| && Chained(list) && elems == Total(list)
    }

    /** Chains have at most one entry on average. */
    ghost predicate Valid()
      reads this
    {
      Loaded() && elems <= length
    }

    constructor ()
      ensures Valid() && forall h :: !InTable(list, h)
    {
      length, elems, list := 4, 0, seq(4, i => []);
      new;
      EmptyList(list);
    }

    method Lookup(key: Bytes, hash: nat) returns (r: Option<LRUHandle>)
      requires Valid()
      ensures r.Some? ==> InTable(list, r.value) && Matches(r.value, key, hash)
      ensures forall h :: InTable(list, h) && Matches(h, key, hash) ==> r == Some(h)
    {
      var b := hash % length;
      var i := FindPointer(list[b], key, hash);
      OnlyMatch(list, key, hash, i);
      r := if i == |list[b]| then None else Some(list[b][i]);
    }

    /** HandleTable::Insert: replaces the matching entry in its chain, or goes to its end. */
    method Insert(h: LRUHandle) returns (previous: Option<LRUHandle>)
      requires Valid() && !InTable(list, h)
      modifies this
      ensures Valid()
      ensures previous.Some? ==> InTable(old(list), previous.value) && Matches(previous.value, h.key, h.hash)
      ensures forall x :: InTable(old(list), x) && Matches(x, h.key, h.hash) ==> previous == Some(x)
      ensures forall x :: InTable(list, x) <==> x == h || (InTable(old(list), x) && previous != Some(x))
      ensures elems == old(elems) + if previous.None? then 1 else 0
      ensures elems <= old(length) ==> length == old(length)
    {
      hide Total;
      var b := h.hash % length;
      var i := FindPointer(list[b], h.key, h.hash);
      OnlyMatch(list, h.key, h.hash, i);
      previous := if i == |list[b]| then None else Some(list[b][i]);
      var chain := if i == |list[b]| then list[b] + [h] else list[b][i := h];
      ReplaceInChain(list, b, i, h, chain);
      TotalUpdate(list, b, chain);
      list := list[b := chain];
      if previous.None? {
        elems := elems + 1;
        if elems > length {
          Resize();
        }
      }
    }

    method Remove(key: Bytes, hash: nat) returns (r: Option<LRUHandle>)
      requires Valid()
      modifies this
      ensures Valid()
      ensures r.Some? ==> InTable(old(list), r.value) && Matches(r.value, key, hash)
      ensures forall x :: InTable(old(list), x) && Matches(x, key, hash) ==> r == Some(x)
      ensures forall x :: InTable(list, x) <==> InTable(old(list), x) && r != Some(x)
    {
      hide Total;
      var b := hash % length;
      var i := FindPointer(list[b], key, hash);
      OnlyMatch(list, key, hash, i);
      if i == |list[b]| {
        return None;
      }
      r := Some(list[b][i]);
      var chain := list[b][..i] + list[b][i + 1..];
      RemoveFromChain(list, b, i, chain);
      TotalUpdate(list, b, chain);
      list := list[b := chain];
      elems := elems - 1;
    }

    /** HandleTable::Resize: rehashes every entry and keeps the mapping. */
    method Resize()
      requires Loaded()
      modifies this
      ensures Valid() && elems == old(elems)
      ensures length == 4 || length < 2 * elems
      ensures forall x :: InTable(list, x) <==> InTable(old(list), x)
    {
      hide Total, Chained;
      var newLength := 4;
      while newLength < elems
        invariant newLength > 0 && (newLength == 4 || newLength < 2 * elems)
        decreases elems - newLength
      {
        newLength := newLength * 2;
      }
      var newList: seq<seq<LRUHandle>> := seq(newLength, i => []);
      EmptyList(newList);
      NoneMoved(list, newList);
      for i := 0 to length
        invariant |list| == length && list == old(list) && |newList| == newLength && Chained(newList)
        invariant elems == old(elems)
        invariant Moved(list, i, 0, newList) && Total(newList) == Total(list[..i])
      {
        for j := 0 to |list[i]|
          invariant |list| == length && list == old(list) && |newList| == newLength && Chained(newList)
          invariant elems == old(elems)
          invariant Moved(list, i, j, newList) && Total(newList) == Total(list[..i]) + j
        {
          var h := list[i][j];
          var b := h.hash % newLength;
          MoveOne(list, i, j, newList);
          TotalUpdate(newList, b, [h] + newList[b]);
          newList := newList[b := [h] + newList[b]];
        }
        NextBucket(list, i, newList);
      }
      AllMoved(list, newList);
      assert list[..length] == list;
      list, length := newList, newLength;
    }
  }

  ghost predicate AllEmpty(list: seq<seq<LRUHandle>>) {
    forall b :: 0 <= b < |list| ==> list[b] == []
  }

  lemma {:induction false} EmptyList(list: seq<seq<LRUHandle>>)
    requires AllEmpty(list)
    ensures (list != [] ==> Chained(list)) && Total(list) == 0
    ensures forall h :: !InTable(list, h)
  {
    if list != [] {
      EmptyList(list[..|list| - 1]);
    }
  }

  lemma ReplaceInChain(list: seq<seq<LRUHandle>>, b: nat, i: nat, h: LRUHandle, chain: seq<LRUHandle>)
    requires Chained(list) && b == h.hash % |list| && i <= |list[b]| && !InTable(list, h)
    requires i < |list[b]| ==> Matches(list[b][i], h.key, h.hash)
    requires forall x :: InTable(list, x) && Matches(x, h.key, h.hash) ==> i < |list[b]| && x == list[b][i]
    requires chain == if i == |list[b]| then list[b] + [h] else list[b][i := h]
    ensures Chained(list[b := chain])
    ensures forall x :: InTable(list[b := chain], x) <==>
      x == h || (InTable(list, x) && (i < |list[b]| ==> x != list[b][i]))
  {
    var list' := list[b := chain];
    assert forall j :: 0 <= j < |list[b]| ==> list[b][j] in list[b];
    forall j | 0 <= j < |list[b]| && j != i
      ensures !Matches(list[b][j], h.key, h.hash) && !Matches(h, list[b][j].key, list[b][j].hash)
    {
      assert InTable(list, list[b][j]);
    }
    forall x
      ensures InTable(list', x) <==> x == h || (InTable(list, x) && (i < |list[b]| ==> x != list[b][i]))
    {
      if InTable(list, x) && x != h && (i < |list[b]| ==> x != list[b][i]) {
        var c :| 0 <= c < |list| && x in list[c];
        var j :| 0 <= j < |list[c]| && list[c][j] == x;
        assert list'[c][j] == x;
      }
      if x == h { assert chain[i] == h && h in list'[b]; }
      if InTable(list', x) && x != h {
        var c :| 0 <= c < |list'| && x in list'[c];
        var j :| 0 <= j < |list'[c]| && list'[c][j] == x;
        assert list[c][j] == x;
      }
    }
  }

  lemma RemoveFromChain(list: seq<seq<LRUHandle>>, b: nat, i: nat, chain: seq<LRUHandle>)
    requires Chained(list) && b < |list| && i < |list[b]| && chain == list[b][..i] + list[b][i + 1..]
    ensures Chained(list[b := chain])
    ensures forall x :: InTable(list[b := chain], x) <==> InTable(list, x) && x != list[b][i]
  {
    var list' := list[b := chain];
    forall j | 0 <= j < |chain|
      ensures chain[j] == list[b][if j < i then j else j + 1]
    {
    }
    forall x
      ensures InTable(list', x) <==> InTable(list, x) && x != list[b][i]
    {
      ChainWithout(list, b, i, chain, x);
    }
  }

  /** No handle is at two places of the table. */
  lemma OnePlace(list: seq<seq<LRUHandle>>, b: nat, i: nat, c: nat, j: nat)
    requires Chained(list) && b < |list| && i < |list[b]| && c < |list| && j < |list[c]| && list[b][i] == list[c][j]
    ensures b == c && i == j
  {
  }

  lemma ChainWithout(list: seq<seq<LRUHandle>>, b: nat, i: nat, chain: seq<LRUHandle>, x: LRUHandle)
    requires Chained(list) && b < |list| && i < |list[b]| && chain == list[b][..i] + list[b][i + 1..]
    ensures InTable(list[b := chain], x) <==> InTable(list, x) && x != list[b][i]
  {
    hide Chained;
    var list' := list[b := chain];
    if InTable(list, x) && x != list[b][i] {
      var c :| 0 <= c < |list| && x in list[c];
      if c == b {
        var j :| 0 <= j < |list[b]| && list[b][j] == x;
        assert chain[if j < i then j else j - 1] == x;
      }
      assert x in list'[c];
    }
    if InTable(list', x) {
      var c :| 0 <= c < |list'| && x in list'[c];
      var j :| 0 <= j < |list'[c]| && list'[c][j] == x;
      var m := if c == b && j >= i then j + 1 else j;
      assert list[c][m] == x;
      if x == list[b][i] { OnePlace(list, b, i, c, m); }
      assert x in list[c];
    }
  }

  /** The new table holds the first `i` buckets and `j` entries of the next. */
  ghost predicate Moved(list: seq<seq<LRUHandle>>, i: nat, j: nat, newList: seq<seq<LRUHandle>>)
    requires i <= |list| && (i < |list| ==> j <= |list[i]|)
  {
    && Chained(list)
    && (forall x :: InTable(newList, x) ==> Before(list, i, j, x))
    && (forall x :: Before(list, i, j, x) ==> InTable(newList, x))
  }

  ghost predicate Before(list: seq<seq<LRUHandle>>, i: nat, j: nat, x: LRUHandle)
    requires i <= |list| && (i < |list| ==> j <= |list[i]|)
  {
    exists b, m :: 0 <= b < |list| && 0 <= m < |list[b]| && list[b][m] == x && (b < i || (b == i && m < j))
  }

  lemma NoneMoved(list: seq<seq<LRUHandle>>, newList: seq<seq<LRUHandle>>)
    requires Chained(list) && forall x :: !InTable(newList, x)
    ensures Moved(list, 0, 0, newList) && Total(list[..0]) == 0
  {
  }

  lemma NextBucket(list: seq<seq<LRUHandle>>, i: nat, newList: seq<seq<LRUHandle>>)
    requires i < |list| && Moved(list, i, |list[i]|, newList)
    ensures Moved(list, i + 1, 0, newList) && Total(list[..i + 1]) == Total(list[..i]) + |list[i]|
  {
    assert list[..i + 1][..i] == list[..i];
    assert forall x :: Before(list, i + 1, 0, x) <==> Before(list, i, |list[i]|, x);
  }

  lemma AllMoved(list: seq<seq<LRUHandle>>, newList: seq<seq<LRUHandle>>)
    requires Moved(list, |list|, 0, newList)
    ensures forall x :: InTable(newList, x) <==> InTable(list, x)
  {
    forall x
      ensures Before(list, |list|, 0, x) <==> InTable(list, x)
    {
      if InTable(list, x) {
        var b :| 0 <= b < |list| && x in list[b];
        var m :| 0 <= m < |list[b]| && list[b][m] == x;
      }
    }
  }

  lemma MoveOne(list: seq<seq<LRUHandle>>, i: nat, j: nat, newList: seq<seq<LRUHandle>>)
    requires i < |list| && j < |list[i]| && Moved(list, i, j, newList) && Chained(newList)
    ensures var h := list[i][j];
      var b := h.hash % |newList|;
      Chained(newList[b := [h] + newList[b]]) && Moved(list, i, j + 1, newList[b := [h] + newList[b]])
  {
    var h := list[i][j];
    var b := h.hash % |newList|;
    var newer := newList[b := [h] + newList[b]];
    forall x | InTable(newList, x)
      ensures !Matches(x, h.key, h.hash) && !Matches(h, x.key, x.hash)
    {
      var c, m :| 0 <= c < |list| && 0 <= m < |list[c]| && list[c][m] == x && (c < i || (c == i && m < j));
    }
    PrependToChain(newList, b, h);
    MovedOne(list, i, j, newList, newer);
  }

  lemma MovedOne(list: seq<seq<LRUHandle>>, i: nat, j: nat, newList: seq<seq<LRUHandle>>, newer: seq<seq<LRUHandle>>)
    requires i < |list| && j < |list[i]| && Moved(list, i, j, newList)
    requires forall x :: InTable(newer, x) <==> InTable(newList, x) || x == list[i][j]
    ensures Moved(list, i, j + 1, newer)
  {
    hide InTable, Before, Chained;
    forall x
      ensures Before(list, i, j + 1, x) <==> Before(list, i, j, x) || x == list[i][j]
    {
      OneFurther(list, i, j, x);
    }
  }

  lemma OneFurther(list: seq<seq<LRUHandle>>, i: nat, j: nat, x: LRUHandle)
    requires i < |list| && j < |list[i]|
    ensures Before(list, i, j + 1, x) <==> Before(list, i, j, x) || x == list[i][j]
  {
  }

  lemma PrependToChain(list: seq<seq<LRUHandle>>, b: nat, h: LRUHandle)
    requires Chained(list) && b == h.hash % |list|
    requires forall x :: InTable(list, x) ==> !Matches(x, h.key, h.hash) && !Matches(h, x.key, x.hash)
    ensures Chained(list[b := [h] + list[b]])
    ensures forall x :: InTable(list[b := [h] + list[b]], x) <==> InTable(list, x) || x == h
  {
    var list' := list[b := [h] + list[b]];
    assert forall j :: 0 <= j < |list[b]| ==> list[b][j] in list[b] && InTable(list, list[b][j]);
    assert forall j :: 0 < j < |list'[b]| ==> list'[b][j] == list[b][j - 1];
    forall x
      ensures InTable(list', x) <==> InTable(list, x) || x == h
    {
      if InTable(list, x) {
        var c :| 0 <= c < |list| && x in list[c];
        assert x in list'[c];
      }
      if x == h { assert h in list'[b]; }
    }
  }

  lemma OnlyMatch(list: seq<seq<LRUHandle>>, key: Bytes, hash: nat, i: nat)
    requires Chained(list)
    requires i <= |list[hash % |list|]| && (i < |list[hash % |list|]| ==> Matches(list[hash % |list|][i], key, hash))
    requires forall j :: 0 <= j < i ==> !Matches(list[hash % |list|][j], key, hash)
    ensures i < |list[hash % |list|]| ==> InTable(list, list[hash % |list|][i])
    ensures forall h :: InTable(list, h) && Matches(h, key, hash) ==>
      i < |list[hash % |list|]| && h == list[hash % |list|][i]
  {
    var n := hash % |list|;
    if i < |list[n]| { assert list[n][i] in list[n]; }
    forall h | InTable(list, h) && Matches(h, key, hash)
      ensures i < |list[n]| && h == list[n][i]
    {
      var b :| 0 <= b < |list| && h in list[b];
      var j :| 0 <= j < |list[b]| && list[b][j] == h;
      assert b == n;
    }
  }

  // ---------------------------------------------------------------- lists of handles

  ghost function Charges(s: seq<LRUHandle>): nat {
    if s == [] then 0 else s[0].charge + Charges(s[1..])
  }

  ghost predicate NoRepeats(s: seq<LRUHandle>) {
    forall i, j :: 0 <= i < j < |s| ==> s[i] != s[j]
  }

  /** LRU_Remove: unlinks an entry from the list it is in. */
  function Without(s: seq<LRUHandle>, e: LRUHandle): seq<LRUHandle> {
    if s == [] then [] else if s[0] == e then s[1..] else [s[0]] + Without(s[1..], e)
  }

  lemma {:induction false} WithoutFacts(s: seq<LRUHandle>, e: LRUHandle)
    requires NoRepeats(s)
    ensures NoRepeats(Without(s, e))
    ensures forall h :: h in Without(s, e) <==> h in s && h != e
    ensures Charges(s) == Charges(Without(s, e)) + if e in s then e.charge else 0
    ensures e !in s ==> Without(s, e) == s
  {
    if s != [] {
      WithoutFacts(s[1..], e);
      assert s == [s[0]] + s[1..];
      assert s[0] !in s[1..];
    }
  }

  lemma {:induction false} ChargesAppend(s: seq<LRUHandle>, e: LRUHandle)
    ensures Charges(s + [e]) == Charges(s) + e.charge
  {
    if s == [] {
      assert s + [e] == [e];
    } else {
      ChargesAppend(s[1..], e);
      assert (s + [e])[1..] == s[1..] + [e];
    }
  }

  // ---------------------------------------------------------------- the cache

  /** The counts of all handles not freed (LRUHandle::refs), and the cached handles. */
  datatype Counts = Counts(refs: map<LRUHandle, nat>, inCache: set<LRUHandle>)

  ghost function Owed(debt: Option<LRUHandle>, h: LRUHandle): nat {
    if debt == Some(h) then 1 else 0
  }

  ghost predicate Apart(lru: seq<LRUHandle>, inUse: seq<LRUHandle>) {
    NoRepeats(lru) && NoRepeats(inUse) && forall h :: h in lru ==> h !in inUse
  }

  /** An entry is in the lru list iff the cache alone refers to it, in the in-use list iff
      clients do too, and in no list once erased.  One reference of `debt` is about to
      be dropped. */
  ghost predicate CountedAt(lru: seq<LRUHandle>, inUse: seq<LRUHandle>, c: Counts, held: multiset<LRUHandle>,
                            debt: Option<LRUHandle>, h: LRUHandle)
  {
    && (h in c.inCache <==> h in lru || h in inUse)
    && (h in c.refs <==> h in lru || h in inUse || h in held || debt == Some(h))
    && (h in c.refs ==> c.refs[h] == held[h] + Owed(debt, h) + if h in c.inCache then 1 else 0)
    && (h in lru ==> held[h] == 0 && debt != Some(h))
    && (h in inUse ==> held[h] > 0 || debt == Some(h))
  }

  ghost predicate Counted(lru: seq<LRUHandle>, inUse: seq<LRUHandle>, c: Counts, held: multiset<LRUHandle>,
                          debt: Option<LRUHandle>) {
    Apart(lru, inUse) && forall h :: CountedAt(lru, inUse, c, held, debt, h)
  }

  /** The table holds exactly the cached entries, but for `gone`. */
  ghost predicate Tabled(lru: seq<LRUHandle>, inUse: seq<LRUHandle>, list: seq<seq<LRUHandle>>, hashOf: Bytes -> nat,
                         gone: Option<LRUHandle>) {
    && (forall h :: InTable(list, h) <==> (h in lru || h in inUse) && gone != Some(h))
    && (forall h :: h in lru || h in inUse ==> h.hash == hashOf(h.key))
  }

  lemma AtHandle(lru: seq<LRUHandle>, inUse: seq<LRUHandle>, c: Counts, held: multiset<LRUHandle>,
                 debt: Option<LRUHandle>, h: LRUHandle)
    requires Counted(lru, inUse, c, held, debt)
    ensures CountedAt(lru, inUse, c, held, debt, h)
  {
    hide CountedAt;
  }

  /** An entry moves between the lists, or out of them. */
  lemma Relink(lru: seq<LRUHandle>, inUse: seq<LRUHandle>, e: LRUHandle)
    requires Apart(lru, inUse)
    ensures Apart(Without(lru, e), Without(inUse, e))
    ensures Apart(Without(lru, e) + [e], Without(inUse, e)) && Apart(Without(lru, e), Without(inUse, e) + [e])
    ensures forall h ::
      (h in Without(lru, e) <==> h in lru && h != e) && (h in Without(inUse, e) <==> h in inUse && h != e)
    ensures (e !in lru ==> Without(lru, e) == lru) && (e !in inUse ==> Without(inUse, e) == inUse)
  {
    WithoutFacts(lru, e);
    WithoutFacts(inUse, e);
    hide Without;
  }

  /** Drop the owed reference of `e`: freed if it was the last. */
  lemma DropLast(lru: seq<LRUHandle>, inUse: seq<LRUHandle>, c: Counts, held: multiset<LRUHandle>, e: LRUHandle)
    requires Counted(lru, inUse, c, held, Some(e)) && e in c.refs && c.refs[e] == 1
    ensures e !in held && e !in c.inCache
    ensures Counted(lru, inUse, Counts(c.refs - {e}, c.inCache), held, None)
  {
    hide Apart;
    assert CountedAt(lru, inUse, c, held, Some(e), e);
    var c' := Counts(c.refs - {e}, c.inCache);
    forall h
      ensures CountedAt(lru, inUse, c', held, None, h)
    {
      AtHandle(lru, inUse, c, held, Some(e), h);
    }
  }

  lemma DropToCache(lru: seq<LRUHandle>, inUse: seq<LRUHandle>, c: Counts, held: multiset<LRUHandle>, e: LRUHandle)
    requires Counted(lru, inUse, c, held, Some(e)) && e in c.refs && c.refs[e] == 2 && e in c.inCache
    ensures e !in held && e in inUse
    ensures Counted(lru + [e], Without(inUse, e), Counts(c.refs[e := 1], c.inCache), held, None)
  {
    hide Apart, Without;
    AtHandle(lru, inUse, c, held, Some(e), e);
    Relink(lru, inUse, e);
    var lru' := lru + [e];
    var inUse' := Without(inUse, e);
    var c' := Counts(c.refs[e := 1], c.inCache);
    forall h
      ensures CountedAt(lru', inUse', c', held, None, h)
    {
      AtHandle(lru, inUse, c, held, Some(e), h);
    }
  }

  lemma DropOther(lru: seq<LRUHandle>, inUse: seq<LRUHandle>, c: Counts, held: multiset<LRUHandle>, e: LRUHandle)
    requires Counted(lru, inUse, c, held, Some(e)) && e in c.refs && c.refs[e] > 1
    requires !(c.refs[e] == 2 && e in c.inCache)
    ensures e in held
    ensures Counted(lru, inUse, Counts(c.refs[e := c.refs[e] - 1], c.inCache), held, None)
  {
    hide Apart;
    AtHandle(lru, inUse, c, held, Some(e), e);
    var c' := Counts(c.refs[e := c.refs[e] - 1], c.inCache);
    forall h
      ensures CountedAt(lru, inUse, c', held, None, h)
    {
      AtHandle(lru, inUse, c, held, Some(e), h);
    }
  }

  /** Unlink a cached entry: the reference of the cache is then owed. */
  lemma Unlink(lru: seq<LRUHandle>, inUse: seq<LRUHandle>, c: Counts, held: multiset<LRUHandle>, e: LRUHandle)
    requires Counted(lru, inUse, c, held, None) && e in c.inCache
    ensures Counted(Without(lru, e), Without(inUse, e), Counts(c.refs, c.inCache - {e}), held, Some(e))
  {
    hide Apart, Without;
    AtHandle(lru, inUse, c, held, None, e);
    Relink(lru, inUse, e);
    var lru' := Without(lru, e);
    var inUse' := Without(inUse, e);
    var c' := Counts(c.refs, c.inCache - {e});
    forall h
      ensures CountedAt(lru', inUse', c', held, Some(e), h)
    {
      AtHandle(lru, inUse, c, held, None, h);
    }
  }

  lemma TakeRef(lru: seq<LRUHandle>, inUse: seq<LRUHandle>, c: Counts, held: multiset<LRUHandle>, e: LRUHandle)
    requires Counted(lru, inUse, c, held, None) && e in c.inCache
    ensures e in c.refs && (c.refs[e] == 1 <==> e in lru)
    ensures Counted(Without(lru, e), if e in lru then inUse + [e] else inUse,
                    Counts(c.refs[e := c.refs[e] + 1], c.inCache), held + multiset{e}, None)
  {
    hide Apart, Without;
    AtHandle(lru, inUse, c, held, None, e);
    Relink(lru, inUse, e);
    var inUse' := if e in lru then inUse + [e] else inUse;
    assert Apart(Without(lru, e), inUse') by { ApartDisjoint(lru, inUse, e); }
    var lru' := Without(lru, e);
    var c' := Counts(c.refs[e := c.refs[e] + 1], c.inCache);
    var held' := held + multiset{e};
    forall h
      ensures CountedAt(lru', inUse', c', held', None, h)
    {
      AtHandle(lru, inUse, c, held, None, h);
    }
  }

  lemma ApartDisjoint(lru: seq<LRUHandle>, inUse: seq<LRUHandle>, e: LRUHandle)
    requires Apart(lru, inUse)
    ensures e in lru ==> e !in inUse
  {
  }

  lemma GiveBack(lru: seq<LRUHandle>, inUse: seq<LRUHandle>, c: Counts, held: multiset<LRUHandle>, e: LRUHandle)
    requires Counted(lru, inUse, c, held, None) && e in held
    ensures e in c.refs && Counted(lru, inUse, c, held - multiset{e}, Some(e))
  {
    hide Apart;
    AtHandle(lru, inUse, c, held, None, e);
    var held' := held - multiset{e};
    forall h
      ensures CountedAt(lru, inUse, c, held', Some(e), h)
    {
      AtHandle(lru, inUse, c, held, None, h);
    }
  }

  lemma AddNew(lru: seq<LRUHandle>, inUse: seq<LRUHandle>, c: Counts, held: multiset<LRUHandle>, e: LRUHandle)
    requires Counted(lru, inUse, c, held, None) && e !in c.refs
    ensures e !in c.inCache && e !in held
    ensures Counted(lru, inUse + [e], Counts(c.refs[e := 2], c.inCache + {e}), held + multiset{e}, None)
    ensures Counted(lru, inUse, Counts(c.refs[e := 1], c.inCache), held + multiset{e}, None)
  {
    hide Apart, Without;
    AtHandle(lru, inUse, c, held, None, e);
    Relink(lru, inUse, e);
    var (inUse', held') := (inUse + [e], held + multiset{e});
    var (cached, uncached) := (Counts(c.refs[e := 2], c.inCache + {e}), Counts(c.refs[e := 1], c.inCache));
    forall h
      ensures CountedAt(lru, inUse', cached, held', None, h) && CountedAt(lru, inUse, uncached, held', None, h)
    {
      AtHandle(lru, inUse, c, held, None, h);
    }
  }

  lemma TabledUnlink(lru: seq<LRUHandle>, inUse: seq<LRUHandle>, list: seq<seq<LRUHandle>>, hashOf: Bytes -> nat,
                     e: LRUHandle)
    requires Apart(lru, inUse) && Tabled(lru, inUse, list, hashOf, Some(e))
    ensures Tabled(Without(lru, e), Without(inUse, e), list, hashOf, None)
  {
    hide Apart, Without, InTable;
    Relink(lru, inUse, e);
  }

  /** The table does not see a move between the lists. */
  lemma TabledMove(lru: seq<LRUHandle>, inUse: seq<LRUHandle>, lru': seq<LRUHandle>, inUse': seq<LRUHandle>,
                   list: seq<seq<LRUHandle>>, hashOf: Bytes -> nat)
    requires Tabled(lru, inUse, list, hashOf, None) && forall h :: h in lru' || h in inUse' <==> h in lru || h in inUse
    ensures Tabled(lru', inUse', list, hashOf, None)
  {
    hide InTable;
  }

  lemma ChargesWithout(lru: seq<LRUHandle>, inUse: seq<LRUHandle>, e: LRUHandle)
    requires Apart(lru, inUse)
    ensures Charges(Without(lru, e)) + Charges(Without(inUse, e)) + (if e in lru || e in inUse then e.charge else 0)
      == Charges(lru) + Charges(inUse)
  {
    WithoutFacts(lru, e);
    WithoutFacts(inUse, e);
  }

  class LRUCache {
    const capacity: nat
    const hashOf: Bytes -> nat
    const table: HandleTable
    var usage: nat
    var lru: seq<LRUHandle>
    var inUse: seq<LRUHandle>
    var counts: Counts
    var nextAddress: nat

    /** The handles that clients have not released yet, each as often as they hold it. */
    ghost var held: multiset<LRUHandle>

    /** The handles passed to their deleter, in that order. */
    ghost var freed: seq<LRUHandle>

    /** One reference of `debt` is about to be dropped; the table lacks `gone`. */
    ghost predicate Inv(debt: Option<LRUHandle>, gone: Option<LRUHandle>)
      reads this, table
    {
      && table.Valid() && Counted(lru, inUse, counts, held, debt) && Tabled(lru, inUse, table.list, hashOf, gone)
      && usage == Charges(lru) + Charges(inUse)
      && (forall h :: h in counts.refs ==> h.address < nextAddress && h !in freed)
      && (forall h :: h in freed ==> h.address < nextAddress) && NoRepeats(freed)
    }

    ghost predicate Valid()
      reads this, table
    {
      Inv(None, None)
    }

    constructor (capacity: nat, hashOf: Bytes -> nat)
      ensures Valid() && fresh(table) && lru == [] && inUse == [] && held == multiset{} && freed == []
      ensures this.capacity == capacity && this.hashOf == hashOf
    {
      this.capacity, this.hashOf := capacity, hashOf;
      table := new HandleTable();
      usage, lru, inUse, counts, nextAddress, held, freed := 0, [], [], Counts(map[], {}), 0, multiset{}, [];
    }

    /** LRUCache::Unref: drops the reference that is owed; the last one frees the entry. */
    method Unref(e: LRUHandle)
      requires Inv(Some(e), None)
      modifies `lru, `inUse, `counts, `freed
      ensures Valid()
      ensures freed == old(freed) + if e in held || e in old(inUse) then [] else [e]
      ensures if e in old(inUse) && e !in held then lru == old(lru) + [e] && inUse == Without(old(inUse), e)
              else lru == old(lru) && inUse == old(inUse)
    {
      hide Counted, Tabled, NoRepeats, Charges, Without;
      AtHandle(lru, inUse, counts, held, Some(e), e);
      var n := counts.refs[e] - 1;
      if n == 0 {
        DropLast(lru, inUse, counts, held, e);
        FreedOnce(freed, e);
        counts := Counts(counts.refs - {e}, counts.inCache);
        freed := freed + [e];
      } else if e in counts.inCache && n == 1 {
        DropToCache(lru, inUse, counts, held, e);
        MovesToLru(lru, inUse, e, table.list, hashOf) by { CountedApart(lru, inUse, counts, held, Some(e)); }
        counts := Counts(counts.refs[e := 1], counts.inCache);
        lru, inUse := lru + [e], Without(inUse, e);
      } else {
        DropOther(lru, inUse, counts, held, e);
        counts := Counts(counts.refs[e := n], counts.inCache);
      }
    }

    /** LRUCache::Ref for an entry in the cache. */
    method Ref(e: LRUHandle)
      requires Valid() && (e in lru || e in inUse)
      modifies `lru, `inUse, `counts, `held
      ensures Valid() && held == old(held) + multiset{e}
      ensures lru == Without(old(lru), e) && inUse == if e in old(lru) then old(inUse) + [e] else old(inUse)
    {
      hide Counted, Tabled, NoRepeats, Charges, Without;
      AtHandle(lru, inUse, counts, held, None, e);
      TakeRef(lru, inUse, counts, held, e);
      CountedApart(lru, inUse, counts, held, None);
      MovesToInUse(lru, inUse, e, table.list, hashOf);
      var onLru := counts.refs[e] == 1;
      counts := Counts(counts.refs[e := counts.refs[e] + 1], counts.inCache);
      held := held + multiset{e};
      if onLru {
        lru, inUse := Without(lru, e), inUse + [e];
      }
    }

    /** LRUCache::FinishErase: `e` has left the table already. */
    method FinishErase(e: LRUHandle)
      requires Inv(None, Some(e)) && (e in lru || e in inUse)
      modifies `lru, `inUse, `counts, `freed, `usage
      ensures Valid()
      ensures lru == Without(old(lru), e) && inUse == Without(old(inUse), e) && usage == old(usage) - e.charge
      ensures freed == old(freed) + if e in held then [] else [e]
    {
      hide Counted, Tabled, NoRepeats, Charges, Without;
      AtHandle(lru, inUse, counts, held, None, e);
      CountedApart(lru, inUse, counts, held, None);
      Unlink(lru, inUse, counts, held, e);
      TabledUnlink(lru, inUse, table.list, hashOf, e);
      ChargesWithout(lru, inUse, e);
      Relink(lru, inUse, e);
      lru, inUse := Without(lru, e), Without(inUse, e);
      counts := Counts(counts.refs, counts.inCache - {e});
      usage := usage - e.charge;
      Unref(e);
    }

    method Lookup(key: Bytes) returns (r: Option<LRUHandle>)
      requires Valid()
      modifies `lru, `inUse, `counts, `held
      ensures Valid() && held == old(held) + if r.Some? then multiset{r.value} else multiset{}
      ensures r.Some? ==> r.value.key == key && (r.value in old(lru) || r.value in old(inUse))
      ensures forall h :: (h in old(lru) || h in old(inUse)) && h.key == key ==> r == Some(h)
      ensures if r.Some? && r.value in old(lru) then lru == Without(old(lru), r.value)
        && inUse == old(inUse) + [r.value]
              else lru == old(lru) && inUse == old(inUse)
    {
      hide Counted, NoRepeats, Charges, Without, InTable;
      r := table.Lookup(key, hashOf(key));
      CountedApart(lru, inUse, counts, held, None);
      if r.Some? {
        Relink(lru, inUse, r.value);
        Ref(r.value);
      }
    }

    /** LRUCache::Release: an entry that was erased meanwhile is freed by its last client. */
    method Release(e: LRUHandle)
      requires Valid() && e in held
      modifies `lru, `inUse, `counts, `held, `freed
      ensures Valid() && held == old(held) - multiset{e}
      ensures freed == old(freed) + if e in held || e in old(inUse) then [] else [e]
      ensures if e in old(inUse) && e !in held then lru == old(lru) + [e] && inUse == Without(old(inUse), e)
              else lru == old(lru) && inUse == old(inUse)
    {
      hide Counted, Tabled, NoRepeats, Charges, Without;
      AtHandle(lru, inUse, counts, held, None, e);
      CountedApart(lru, inUse, counts, held, None);
      Relink(lru, inUse, e);
      GiveBack(lru, inUse, counts, held, e);
      held := held - multiset{e};
      Unref(e);
    }

    method Erase(key: Bytes) returns (ghost r: Option<LRUHandle>)
      requires Valid()
      modifies this, table
      ensures Valid() && held == old(held)
      ensures r.Some? ==> r.value.key == key && (r.value in old(lru) || r.value in old(inUse))
      ensures forall h :: (h in old(lru) || h in old(inUse)) && h.key == key ==> r == Some(h)
      ensures if r.Some? then lru == Without(old(lru), r.value) && inUse == Without(old(inUse), r.value)
              else lru == old(lru) && inUse == old(inUse)
      ensures freed == old(freed) + if r.Some? && r.value !in held then [r.value] else []
    {
      hide Counted, NoRepeats, Charges, Without, InTable;
      var e := table.Remove(key, hashOf(key));
      CountedApart(lru, inUse, counts, held, None);
      r := e;
      if e.Some? {
        FinishErase(e.value);
      }
    }

    /** One round of the eviction loop: the oldest entry of the lru list goes. */
    method EvictOldest()
      requires Valid() && lru != []
      modifies this, table
      ensures Valid() && lru == old(lru)[1..] && inUse == old(inUse) && held == old(held)
      ensures nextAddress == old(nextAddress)
      ensures usage == old(usage) - old(lru)[0].charge && freed == old(freed) + [old(lru)[0]]
    {
      hide Counted, NoRepeats, Charges, InTable;
      var e := lru[0];
      AtHandle(lru, inUse, counts, held, None, e);
      CountedApart(lru, inUse, counts, held, None);
      Relink(lru, inUse, e);
      assert Without(lru, e) == lru[1..];
      assert e !in inUse by { ApartDisjoint(lru, inUse, e); }
      assert e in lru;
      var r := table.Remove(e.key, e.hash);
      FinishErase(e);
    }

    method Prune()
      requires Valid()
      modifies this, table
      ensures Valid() && lru == [] && inUse == old(inUse) && held == old(held) && freed == old(freed) + old(lru)
    {
      hide Counted, Tabled, NoRepeats, Charges;
      while lru != []
        invariant Valid() && inUse == old(inUse) && held == old(held) && freed + lru == old(freed) + old(lru)
        decreases |lru|
      {
        assert freed + [lru[0]] + lru[1..] == freed + lru;
        EvictOldest();
      }
    }

    /** LRUCache::Insert up to its eviction loop. */
    method Link(e: LRUHandle) returns (previous: Option<LRUHandle>)
      requires Valid() && e.address == nextAddress && e.hash == hashOf(e.key)
      modifies this, table
      ensures Valid() && held == old(held) + multiset{e} && nextAddress == old(nextAddress) + 1
      ensures previous.Some? ==>
        previous.value.key == e.key && (previous.value in old(lru) || previous.value in old(inUse))
      ensures forall h :: (h in old(lru) || h in old(inUse)) && h.key == e.key ==> previous == Some(h)
      ensures if previous.Some? then lru == Without(old(lru), previous.value)
        && inUse == Without(old(inUse) + [e], previous.value)
              else lru == old(lru) && inUse == old(inUse) + [e]
      ensures freed == old(freed) + if previous.Some? && previous.value !in held then [previous.value] else []
    {
      hide Counted, NoRepeats, Charges, Without, InTable;
      AtHandle(lru, inUse, counts, held, None, e);
      AddNew(lru, inUse, counts, held, e);
      ChargesAppend(inUse, e);
      assert e !in lru && e !in inUse;
      nextAddress := nextAddress + 1;
      held := held + multiset{e};
      counts := Counts(counts.refs[e := 2], counts.inCache + {e});
      inUse := inUse + [e];
      usage := usage + e.charge;
      previous := table.Insert(e);
      if previous.Some? {
        FinishErase(previous.value);
      }
    }

    /** LRUCache::Insert.  `n` entries are evicted, the oldest first, and no more than needed. */
    method Insert(key: Bytes, charge: nat) returns (e: LRUHandle, ghost previous: Option<LRUHandle>, ghost n: nat)
      requires Valid()
      modifies this, table
      ensures Valid() && held == old(held) + multiset{e} && e.key == key && e.charge == charge
      ensures e.address == old(nextAddress)
      ensures usage <= capacity || lru == []
      ensures previous.Some? ==>
        previous.value.key == key && (previous.value in old(lru) || previous.value in old(inUse))
      ensures capacity > 0 ==> forall h :: (h in old(lru) || h in old(inUse)) && h.key == key ==> previous == Some(h)
      ensures var now := old(inUse) + if capacity > 0 then [e] else [];
        inUse == if previous.Some? then Without(now, previous.value) else now
      ensures var before := if previous.Some? then Without(old(lru), previous.value) else old(lru);
        && n <= |before| && lru == before[n..] && (n > 0 ==> usage + before[n - 1].charge > capacity)
        && freed ==
          old(freed) + (if previous.Some? && previous.value !in held then [previous.value] else []) + before[..n]
    {
      hide Counted, Tabled, NoRepeats, Charges, Without;
      e := LRUHandle(nextAddress, key, hashOf(key), charge);
      previous, n := None, 0;
      if capacity > 0 {
        previous := Link(e);
      } else {
        AtHandle(lru, inUse, counts, held, None, e);
        AddNew(lru, inUse, counts, held, e);
        nextAddress := nextAddress + 1;
        held := held + multiset{e};
        counts := Counts(counts.refs[e := 1], counts.inCache);
      }
      n := Evict();
    }

    /** The eviction loop of LRUCache::Insert. */
    method Evict() returns (ghost n: nat)
      requires Valid()
      modifies this, table
      ensures Valid() && inUse == old(inUse) && held == old(held) && (usage <= capacity || lru == [])
      ensures n <= |old(lru)| && lru == old(lru)[n..] && freed == old(freed) + old(lru)[..n]
      ensures n > 0 ==> usage + old(lru)[n - 1].charge > capacity
    {
      hide Counted, Tabled, NoRepeats, Charges;
      n := 0;
      while usage > capacity && lru != []
        invariant Valid() && inUse == old(inUse) && held == old(held)
        invariant n <= |old(lru)| && lru == old(lru)[n..] && freed == old(freed) + old(lru)[..n]
        invariant n > 0 ==> usage + old(lru)[n - 1].charge > capacity
        decreases |lru|
      {
        EvictOldest();
        assert old(lru)[..n] + [old(lru)[n]] == old(lru)[..n + 1];
        n := n + 1;
      }
    }
  }

  lemma CountedApart(lru: seq<LRUHandle>, inUse: seq<LRUHandle>, c: Counts, held: multiset<LRUHandle>,
                     debt: Option<LRUHandle>)
    requires Counted(lru, inUse, c, held, debt)
    ensures Apart(lru, inUse)
  {
  }

  lemma FreedOnce(freed: seq<LRUHandle>, e: LRUHandle)
    requires NoRepeats(freed) && e !in freed
    ensures NoRepeats(freed + [e])
  {
  }

  lemma MovesToLru(lru: seq<LRUHandle>, inUse: seq<LRUHandle>, e: LRUHandle, list: seq<seq<LRUHandle>>,
                   hashOf: Bytes -> nat)
    requires Apart(lru, inUse) && e in inUse && Tabled(lru, inUse, list, hashOf, None)
    ensures Tabled(lru + [e], Without(inUse, e), list, hashOf, None)
    ensures Charges(lru + [e]) + Charges(Without(inUse, e)) == Charges(lru) + Charges(inUse)
  {
    Relink(lru, inUse, e);
    ChargesAppend(lru, e);
    WithoutFacts(inUse, e);
    hide Without, Charges, Apart;
    TabledMove(lru, inUse, lru + [e], Without(inUse, e), list, hashOf);
  }

  lemma MovesToInUse(lru: seq<LRUHandle>, inUse: seq<LRUHandle>, e: LRUHandle, list: seq<seq<LRUHandle>>,
                     hashOf: Bytes -> nat)
    requires Apart(lru, inUse) && Tabled(lru, inUse, list, hashOf, None)
    ensures e in lru ==> Tabled(Without(lru, e), inUse + [e], list, hashOf, None)
    ensures e in lru ==> Charges(Without(lru, e)) + Charges(inUse + [e]) == Charges(lru) + Charges(inUse)
    ensures e !in lru ==> Without(lru, e) == lru
  {
    Relink(lru, inUse, e);
    ChargesAppend(inUse, e);
    WithoutFacts(lru, e);
    hide Without, Charges, Apart;
    if e in lru { TabledMove(lru, inUse, Without(lru, e), inUse + [e], list, hashOf); }
  }
}

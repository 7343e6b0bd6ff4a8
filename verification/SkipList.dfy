/**
 The memtable's skip list (db/skiplist.h).  Keys are distinct, so a node is named by
 its key; `next[i]` holds the level-i link of every node that is that high.
 */
module SkipList {
  import opened Format

  const MAX_HEIGHT: nat := 12

  datatype Place = Head | Node(key: int)

  type Links = map<Place, Option<int>>

  predicate After(x: Place, k: int) {
    x.Head? || x.key < k
  }

  ghost predicate OnLevel(m: Links, k: int) {
    Node(k) in m
  }

  /** `r` is the first key of the level after `x`, if there is one. */
  ghost predicate IsNext(m: Links, x: Place, r: Option<int>) {
    && (r.Some? ==> OnLevel(m, r.value) && After(x, r.value))
    && (forall k :: OnLevel(m, k) && After(x, k) ==> r.Some? && r.value <= k)
  }

  /** The links of a level: a sorted chain of all its keys. */
  ghost predicate Chain(m: Links) {
    Head in m && forall x :: x in m ==> IsNext(m, x, m[x])
  }

  /** `x` is the last place of the level before `key`. */
  ghost predicate IsPrev(m: Links, x: Place, key: int) {
    && x in m && After(x, key)
    && forall k :: OnLevel(m, k) && After(x, k) ==> key <= k
  }

  /** The keys of a level after `x`: what each step of a search reduces. */
  ghost function Later(m: Links, x: Place): set<int> {
    set y | y in m && y.Node? && After(x, y.key) :: y.key
  }

  lemma LaterShrinks(m: Links, x: Place)
    requires Chain(m) && x in m && m[x].Some?
    ensures Node(m[x].value) in m && Later(m, Node(m[x].value)) < Later(m, x)
  {
    var k := m[x].value;
    assert IsNext(m, x, m[x]) && OnLevel(m, k);
    forall j | j in Later(m, Node(k)) ensures j in Later(m, x) {
      assert Node(j) in m;
    }
    assert Node(k) in m && k in Later(m, x) && k !in Later(m, Node(k));
  }

  /** One more key between its neighbours. */
  lemma ChainInsert(m: Links, x: Place, key: int)
    requires Chain(m) && IsPrev(m, x, key) && !OnLevel(m, key)
    ensures Chain(m[Node(key) := m[x]][x := Some(key)])
    ensures forall k :: OnLevel(m[Node(key) := m[x]][x := Some(key)], k) <==> OnLevel(m, k) || k == key
  {
    var m' := m[Node(key) := m[x]][x := Some(key)];
    assert IsNext(m, x, m[x]);
    assert forall k :: OnLevel(m', k) <==> OnLevel(m, k) || k == key;
    forall y | y in m'
      ensures IsNext(m', y, m'[y])
    {
      if y != Node(key) && y != x {
        assert IsNext(m, y, m[y]);
        assert x.Node? ==> OnLevel(m, x.key);
        assert y.Node? ==> OnLevel(m, y.key);
      }
    }
  }

  class List {
    var next: seq<Links>
    var maxHeight: nat

    ghost predicate Valid()
      reads this
    {
      && |next| == MAX_HEIGHT && 1 <= maxHeight <= MAX_HEIGHT
      && (forall i :: 0 <= i < MAX_HEIGHT ==> Chain(next[i]))
      && (forall i, j, k :: 0 <= i < j < MAX_HEIGHT && OnLevel(next[j], k) ==> OnLevel(next[i], k))
      && (forall i, k :: maxHeight <= i < MAX_HEIGHT ==> !OnLevel(next[i], k))
    }

    constructor ()
      ensures Valid() && forall k :: !OnLevel(next[0], k)
    {
      next := seq(MAX_HEIGHT, i => map[Head := None]);
      maxHeight := 1;
    }

    /** SkipList::FindGreaterOrEqual: the first node at or after `key`, and the last
        place before it on every level. */
    method FindGreaterOrEqual(key: int) returns (r: Option<int>, prev: seq<Place>)
      requires Valid()
      ensures forall k :: OnLevel(next[0], k) && key <= k ==> r.Some? && r.value <= k
      ensures r.Some? ==> OnLevel(next[0], r.value) && key <= r.value
      ensures |prev| == maxHeight && forall i :: 0 <= i < maxHeight ==> IsPrev(next[i], prev[i], key)
    {
      hide Chain, OnLevel, Later;
      prev := seq(maxHeight, i => Head);
      var x := Head;
      var level := maxHeight - 1;
      ChainHead(next[level]);
      while true
        invariant 0 <= level < maxHeight && |prev| == maxHeight && x in next[level] && After(x, key)
        invariant forall i :: level < i < maxHeight ==> IsPrev(next[i], prev[i], key)
        decreases level, Later(next[level], x)
      {
        var n := next[level][x];
        NextOf(next[level], x);
        if n.Some? && n.value < key {
          LaterShrinks(next[level], x);
          x := Node(n.value);
        } else {
          PrevFound(next[level], x, key);
          prev := prev[level := x];
          if level == 0 {
            return n, prev;
          }
          LowerLevel(next[level], next[level - 1], x);
          level := level - 1;
        }
      }
    }

    /** SkipList::FindLessThan: the last place before `key`. */
    method FindLessThan(key: int) returns (x: Place)
      requires Valid()
      ensures IsPrev(next[0], x, key)
    {
      hide Chain, OnLevel, Later;
      x := Head;
      var level := maxHeight - 1;
      ChainHead(next[level]);
      while true
        invariant 0 <= level < maxHeight && x in next[level] && After(x, key)
        decreases level, Later(next[level], x)
      {
        var n := next[level][x];
        if n.None? || n.value >= key {
          PrevFound(next[level], x, key);
          if level == 0 {
            return;
          }
          LowerLevel(next[level], next[level - 1], x);
          level := level - 1;
        } else {
          LaterShrinks(next[level], x);
          x := Node(n.value);
        }
      }
    }

    /** SkipList::FindLast: the last place of the list. */
    method FindLast() returns (x: Place)
      requires Valid()
      ensures x in next[0] && forall k :: OnLevel(next[0], k) ==> x.Node? && k <= x.key
    {
      hide Chain, OnLevel, Later;
      x := Head;
      var level := maxHeight - 1;
      ChainHead(next[level]);
      while true
        invariant 0 <= level < maxHeight && x in next[level]
        decreases level, Later(next[level], x)
      {
        var n := next[level][x];
        NextOf(next[level], x);
        if n.None? {
          if level == 0 {
            return;
          }
          LowerLevel(next[level], next[level - 1], x);
          level := level - 1;
        } else {
          LaterShrinks(next[level], x);
          x := Node(n.value);
        }
      }
    }

    method Contains(key: int) returns (r: bool)
      requires Valid()
      ensures r <==> OnLevel(next[0], key)
    {
      var x, prev := FindGreaterOrEqual(key);
      r := x == Some(key);
    }

    /** SkipList::Insert at any height. */
    method Insert(key: int, height: nat)
      requires Valid() && !OnLevel(next[0], key) && 1 <= height <= MAX_HEIGHT
      modifies this
      ensures Valid()
      ensures forall i, k :: 0 <= i < MAX_HEIGHT ==>
        (OnLevel(next[i], k) <==> OnLevel(old(next)[i], k) || (k == key && i < height))
      ensures maxHeight == if height > old(maxHeight) then height else old(maxHeight)
    {
      hide Chain, OnLevel;
      var x, prev := FindGreaterOrEqual(key);
      if height > maxHeight {
        for i := maxHeight to height
          invariant Valid() && next == old(next) && maxHeight == old(maxHeight)
          invariant |prev| == i && forall j :: 0 <= j < i ==> IsPrev(next[j], prev[j], key)
        {
          HeadIsPrev(next[i], key);
          prev := prev + [Head];
        }
        maxHeight := height;
      }
      // From the lowest level up: a reader that looks between two stores sees a valid list.
      for i := 0 to height
        invariant Valid() && maxHeight == if height > old(maxHeight) then height else old(maxHeight)
        invariant forall j :: i <= j < MAX_HEIGHT ==> next[j] == old(next)[j]
        invariant forall j, k :: 0 <= j < i ==> (OnLevel(next[j], k) <==> OnLevel(old(next)[j], k) || k == key)
      {
        ChainInsert(next[i], prev[i], key);
        var m := next[i];
        m := m[Node(key) := m[prev[i]]];
        m := m[prev[i] := Some(key)];
        next := next[i := m];
      }
    }
  }

  lemma HeadIsPrev(m: Links, key: int)
    requires Chain(m) && forall k :: !OnLevel(m, k)
    ensures IsPrev(m, Head, key)
  {
  }

  /** The keys of a level from `x` on, link by link. */
  ghost function Walk(m: Links, x: Place): seq<int>
    requires Chain(m) && x in m
    decreases Later(m, x)
  {
    LaterShrinksIf(m, x);
    if m[x].None? then [] else [m[x].value] + Walk(m, Node(m[x].value))
  }

  lemma LaterShrinksIf(m: Links, x: Place)
    requires Chain(m) && x in m
    ensures m[x].Some? ==> Node(m[x].value) in m && Later(m, Node(m[x].value)) < Later(m, x)
  {
    if m[x].Some? { LaterShrinks(m, x); }
  }

  /** A level is the sorted list of its keys. */
  lemma {:induction false} WalkIsSorted(m: Links, x: Place)
    requires Chain(m) && x in m
    ensures forall i :: 0 <= i < |Walk(m, x)| ==> After(x, Walk(m, x)[i])
    ensures forall i, j :: 0 <= i < j < |Walk(m, x)| ==> Walk(m, x)[i] < Walk(m, x)[j]
    ensures forall k :: k in Walk(m, x) <==> OnLevel(m, k) && After(x, k)
    decreases Later(m, x)
  {
    NextOf(m, x);
    LaterShrinksIf(m, x);
    if m[x].Some? {
      var y := Node(m[x].value);
      WalkIsSorted(m, y);
      hide Chain;
      var rest := Walk(m, y);
      forall i | 0 <= i < |rest| ensures y.key < rest[i] && After(x, rest[i]) {
      }
      forall k
        ensures k in [y.key] + rest <==> OnLevel(m, k) && After(x, k)
      {
      }
    }
  }

  lemma ChainHead(m: Links)
    requires Chain(m)
    ensures Head in m
  {
  }

  lemma NextOf(m: Links, x: Place)
    requires Chain(m) && x in m
    ensures IsNext(m, x, m[x])
  {
  }

  lemma PrevFound(m: Links, x: Place, key: int)
    requires Chain(m) && x in m && After(x, key) && (m[x].Some? ==> key <= m[x].value)
    ensures IsPrev(m, x, key)
  {
    assert IsNext(m, x, m[x]);
  }

  /** A node of a level is on the level below. */
  lemma LowerLevel(upper: Links, lower: Links, x: Place)
    requires x in upper && Chain(lower) && forall k :: OnLevel(upper, k) ==> OnLevel(lower, k)
    ensures x in lower
  {
    if x.Node? { assert OnLevel(upper, x.key); }
  }

  ghost predicate Subsequence(a: seq<int>, b: seq<int>) {
    a == [] || (b != [] && if a[0] == b[0] then Subsequence(a[1..], b[1..]) else Subsequence(a, b[1..]))
  }

  ghost predicate Ascending(a: seq<int>) {
    forall i, j :: 0 <= i < j < |a| ==> a[i] < a[j]
  }

  lemma {:induction false} SortedSubsequence(a: seq<int>, b: seq<int>)
    requires Ascending(a) && Ascending(b) && forall k :: k in a ==> k in b
    ensures Subsequence(a, b)
    decreases |b|
  {
    if a != [] {
      assert a[0] in a && a[0] in b;
      var rest := if a[0] == b[0] then a[1..] else a;
      forall k | k in rest
        ensures k in b[1..]
      {
        var i :| 0 <= i < |a| && a[i] == k;
        assert k in a;
        var j :| 0 <= j < |b| && b[j] == k;
        var m :| 0 <= m < |b| && b[m] == a[0];
        assert j > 0 && b[1..][j - 1] == k;
      }
      SortedSubsequence(rest, b[1..]);
    }
  }

  /** Each level is a subsequence of the level below it. */
  lemma LevelsNest(upper: Links, lower: Links)
    requires Chain(upper) && Chain(lower) && forall k :: OnLevel(upper, k) ==> OnLevel(lower, k)
    ensures Subsequence(Walk(upper, Head), Walk(lower, Head))
  {
    hide Chain, Walk;
    ChainHead(upper);
    ChainHead(lower);
    WalkIsSorted(upper, Head);
    WalkIsSorted(lower, Head);
    SortedSubsequence(Walk(upper, Head), Walk(lower, Head));
  }
}

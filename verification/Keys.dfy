/**
 Keys as bytes: fixed-width decimal user keys and the 8-byte suffix of internal
 keys (mod/util.cpp, db/dbformat.cc, include/leveldb/slice.h).  Their byte order is
 the numeric order that the models are trained on.
 */
module Keys {
  import opened Format
  import opened Coding

  const DIGIT_0: nat := 48

  ghost predicate Decimal(s: Bytes) {
    forall i :: 0 <= i < |s| ==> DIGIT_0 <= s[i] <= DIGIT_0 + 9
  }

  /** The number a decimal string denotes. */
  ghost function Number(s: Bytes): (n: nat)
    requires Decimal(s)
  {
    if s == [] then 0
    else
      var last := |s| - 1;
      10 * Number(s[..last]) + (s[last] - DIGIT_0)
  }

  ghost function Pow10(n: nat): (p: nat)
    ensures p > 0
  {
    if n == 0 then 1 else 10 * Pow10(n - 1)
  }

  lemma NumberStep(s: Bytes, i: nat)
    requires Decimal(s) && i < |s|
    ensures Number(s[..i + 1]) == 10 * Number(s[..i]) + (s[i] - DIGIT_0)
  {
    assert s[..i + 1][..i] == s[..i];
  }

  /** SliceToInteger, in 64-bit arithmetic. */
  method SliceToInteger(slice: Bytes) returns (num: nat)
    requires Decimal(slice)
    ensures num == Number(slice) % TWO_64
  {
    num := 0;
    var leadingZeros := true;
    assert slice[..0] == [];
    for i := 0 to |slice|
      invariant num == Number(slice[..i]) % TWO_64
      invariant leadingZeros ==> Number(slice[..i]) == 0
    {
      hide Number;
      NumberStep(slice, i);
      if leadingZeros && slice[i] == DIGIT_0 {
        continue;
      }
      leadingZeros := false;
      var digit: nat := slice[i] - DIGIT_0;
      TimesTen(Number(slice[..i]), digit);
      num := (10 * num + digit) % TWO_64;
    }
    assert slice[..|slice|] == slice;
  }

  lemma TimesTen(n: nat, digit: nat)
    ensures (10 * (n % TWO_64) + digit) % TWO_64 == (10 * n + digit) % TWO_64
  {
  }

  lemma {:induction false} NumberFromFront(s: Bytes)
    requires Decimal(s) && s != []
    ensures Number(s) == (s[0] - DIGIT_0) * Pow10(|s| - 1) + Number(s[1..])
  {
    var n := |s| - 1;
    if n > 0 {
      var init := s[..n];
      NumberFromFront(init);
      assert s[1..][..n - 1] == init[1..] && s[1..][n - 1] == s[n];
      var d := s[0] - DIGIT_0;
      assert 10 * (d * Pow10(n - 1)) == d * Pow10(n);
    }
  }

  lemma {:induction false} NumberBound(s: Bytes)
    requires Decimal(s)
    ensures Number(s) < Pow10(|s|)
  {
    if s != [] {
      NumberBound(s[..|s| - 1]);
    }
  }

  /** Slice::compare: byte by byte, then by length. */
  function SliceCompare(a: Bytes, b: Bytes): int {
    if a == [] && b == [] then 0
    else if a == [] then -1
    else if b == [] then 1
    else if a[0] < b[0] then -1
    else if a[0] > b[0] then 1
    else SliceCompare(a[1..], b[1..])
  }

  function Sign(x: int): int {
    if x < 0 then -1 else if x > 0 then 1 else 0
  }

  lemma LeadingDigitWins(a: nat, b: nat, p: nat, x: nat, y: nat)
    requires a < b && x < p && y < p
    ensures a * p + x < b * p + y
  {
    assert (a + 1) * p <= b * p by { MulUp(a + 1, b, p); }
    assert (a + 1) * p == a * p + p;
  }

  lemma MulUp(a: nat, b: nat, p: nat)
    requires a <= b
    ensures a * p <= b * p
  {
    assert b * p == a * p + (b - a) * p;
  }

  /** On decimal keys of one width, byte order is numeric order. */
  lemma {:induction false} ByteOrderIsNumeric(a: Bytes, b: Bytes)
    requires Decimal(a) && Decimal(b) && |a| == |b|
    ensures SliceCompare(a, b) == Sign(Number(a) - Number(b))
    decreases |a|
  {
    if a != [] {
      NumberFromFront(a);
      NumberFromFront(b);
      NumberBound(a[1..]);
      NumberBound(b[1..]);
      var (p, x, y) := (Pow10(|a| - 1), Number(a[1..]), Number(b[1..]));
      if a[0] < b[0] {
        LeadingDigitWins(a[0] - DIGIT_0, b[0] - DIGIT_0, p, x, y);
      } else if a[0] > b[0] {
        LeadingDigitWins(b[0] - DIGIT_0, a[0] - DIGIT_0, p, y, x);
      } else {
        ByteOrderIsNumeric(a[1..], b[1..]);
      }
    }
  }

  lemma {:induction false} SameBytes(a: Bytes, b: Bytes)
    ensures SliceCompare(a, b) == 0 <==> a == b
    decreases |a|
  {
    if a != [] && b != [] {
      SameBytes(a[1..], b[1..]);
      assert a == [a[0]] + a[1..] && b == [b[0]] + b[1..];
    }
  }

  /** Two decimal keys of one width that denote the same number are the same key. */
  lemma NumberIsInjective(a: Bytes, b: Bytes)
    requires Decimal(a) && Decimal(b) && |a| == |b|
    ensures Number(a) == Number(b) <==> a == b
  {
    ByteOrderIsNumeric(a, b);
    SameBytes(a, b);
  }

  /** generate_key: left-pads a decimal string with zeros. */
  function GenerateKey(key: Bytes, keySize: nat): (r: Bytes)
    requires |key| <= keySize
    ensures |r| == keySize
  {
    seq(keySize - |key|, i => DIGIT_0) + key
  }

  lemma {:induction false} ZerosAreZero(n: nat)
    ensures Decimal(GenerateKey([], n)) && Number(GenerateKey([], n)) == 0
  {
    if n > 0 {
      ZerosAreZero(n - 1);
      assert GenerateKey([], n) == GenerateKey([], n - 1) + [DIGIT_0];
      OneMoreDigit(GenerateKey([], n - 1), DIGIT_0);
    }
  }

  lemma OneMoreDigit(s: Bytes, d: Byte)
    requires Decimal(s) && DIGIT_0 <= d <= DIGIT_0 + 9
    ensures Decimal(s + [d]) && Number(s + [d]) == 10 * Number(s) + (d - DIGIT_0)
  {
    assert (s + [d])[..|s|] == s;
  }

  lemma {:induction false} PaddingKeepsNumber(key: Bytes, keySize: nat)
    requires Decimal(key) && |key| <= keySize
    ensures Decimal(GenerateKey(key, keySize)) && Number(GenerateKey(key, keySize)) == Number(key)
    decreases keySize
  {
    hide Number;
    if key == [] {
      ZerosAreZero(keySize);
      ZerosAreZero(0);
    } else {
      var n := |key| - 1;
      PaddingKeepsNumber(key[..n], keySize - 1);
      assert key == key[..n] + [key[n]];
      assert GenerateKey(key, keySize) == GenerateKey(key[..n], keySize - 1) + [key[n]];
      OneMoreDigit(key[..n], key[n]);
      OneMoreDigit(GenerateKey(key[..n], keySize - 1), key[n]);
    }
  }

  // ---------------------------------------------------------------- internal keys

  const TAG_SIZE: nat := 8

  /** An internal key as stored: a decimal user key and its packed sequence and type. */
  ghost predicate WellFormed(key: Bytes, keySize: nat) {
    && |key| == keySize + TAG_SIZE && Decimal(key[..keySize])
    && DecodeFixed(key[keySize..]) % 256 <= 1
  }

  ghost function KeyOf(key: Bytes, keySize: nat): InternalKey
    requires WellFormed(key, keySize)
  {
    var tag := DecodeFixed(key[keySize..]);
    InternalKey(Number(key[..keySize]), tag / 256, if tag % 256 == 0 then Deletion else Value)
  }

  /** InternalKeyComparator::Compare on stored keys. */
  function CompareStored(a: Bytes, b: Bytes): int
    requires |a| >= TAG_SIZE && |b| >= TAG_SIZE
  {
    var (m, n) := (|a| - TAG_SIZE, |b| - TAG_SIZE);
    var r := SliceCompare(a[..m], b[..n]);
    if r != 0 then r
    else
      var (x, y) := (DecodeFixed(a[m..]), DecodeFixed(b[n..]));
      if x > y then -1 else if x < y then 1 else 0
  }

  /** The comparator orders stored keys as the model of this project orders internal keys. */
  lemma StoredOrder(a: Bytes, b: Bytes, keySize: nat)
    requires WellFormed(a, keySize) && WellFormed(b, keySize)
    ensures CompareStored(a, b) == Compare(KeyOf(a, keySize), KeyOf(b, keySize))
  {
    hide DecodeFixed, SliceCompare;
    ByteOrderIsNumeric(a[..keySize], b[..keySize]);
    assert KeyOf(a, keySize).Packed() == DecodeFixed(a[keySize..]);
    assert KeyOf(b, keySize).Packed() == DecodeFixed(b[keySize..]);
  }
}

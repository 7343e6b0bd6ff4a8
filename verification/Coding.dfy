/**
 Variable-length integers, fixed-width integers and length-prefixed strings
 (util/coding.cc, util/coding.h).
 */
module Coding {
  import opened Format

  type Byte = b: nat | b < 256
  type Bytes = seq<Byte>

  const TWO_32: nat := 0x1_0000_0000
  const TWO_64: nat := 0x1_0000_0000_0000_0000

  datatype Status = OK | Corruption(message: string) | InvalidArgument(message: string)

  lemma Assoc<T>(a: seq<T>, b: seq<T>, c: seq<T>)
    ensures (a + b) + c == a + (b + c)
  {
  }

  // ---------------------------------------------------------------- varints

  /** Seven bits a byte, least significant first; the high bit says "more". */
  ghost function Varint(v: nat): (r: Bytes)
    ensures r != []
  {
    if v < 128 then [v] else [v % 128 + 128] + Varint(v / 128)
  }

  /** The number and its length, if one ends within the first `n` bytes. */
  ghost function ReadVarint(input: Bytes, n: nat): (r: Option<(nat, nat)>)
    ensures r.Some? ==> 0 < r.value.1 <= |input|
  {
    if n == 0 || input == [] then None
    else if input[0] < 128 then Some((input[0], 1))
    else
      var r := ReadVarint(input[1..], n - 1);
      if r.None? then None else Some((input[0] - 128 + 128 * r.value.0, r.value.1 + 1))
  }

  lemma {:induction false} VarintRoundTrip(v: nat, rest: Bytes, n: nat)
    requires |Varint(v)| <= n
    ensures ReadVarint(Varint(v) + rest, n) == Some((v, |Varint(v)|))
  {
    if v >= 128 {
      VarintRoundTrip(v / 128, rest, n - 1);
      assert (Varint(v) + rest)[1..] == Varint(v / 128) + rest;
    }
  }

  ghost function Pow128(i: nat): nat {
    if i == 0 then 1 else 128 * Pow128(i - 1)
  }

  lemma {:induction false} VarintLength(v: nat, n: nat)
    requires n > 0 && v < Pow128(n)
    ensures |Varint(v)| <= n
  {
    if v >= 128 {
      VarintLength(v / 128, n - 1);
    }
  }

  lemma VarintFits(v: nat)
    ensures v < TWO_32 ==> |Varint(v)| <= 5
    ensures v < TWO_64 ==> |Varint(v)| <= 10
  {
    assert Pow128(5) == 0x8_0000_0000 by { assert Pow128(2) == 16384; assert Pow128(4) == 0x1000_0000; }
    assert Pow128(10) == 0x40_0000_0000_0000_0000 by {
      assert Pow128(7) == 0x2_0000_0000_0000; assert Pow128(9) == 0x8000_0000_0000_0000;
    }
    if v < TWO_32 { VarintLength(v, 5); }
    if v < TWO_64 { VarintLength(v, 10); }
  }

  /** EncodeVarint32: one branch for each length. */
  function EncodeVarint32(v: nat): (r: Bytes)
    requires v < TWO_32
  {
    if v < 0x80 then [v]
    else if v < 0x4000 then [v % 128 + 128, v / 0x80]
    else if v < 0x20_0000 then [v % 128 + 128, v / 0x80 % 128 + 128, v / 0x4000]
    else if v < 0x1000_0000 then [v % 128 + 128, v / 0x80 % 128 + 128, v / 0x4000 % 128 + 128, v / 0x20_0000]
    else [v % 128 + 128, v / 0x80 % 128 + 128, v / 0x4000 % 128 + 128, v / 0x20_0000 % 128 + 128, v / 0x1000_0000]
  }

  lemma Shifts(v: nat)
    ensures v / 0x80 / 0x80 == v / 0x4000
    ensures v / 0x4000 / 0x80 == v / 0x20_0000
    ensures v / 0x20_0000 / 0x80 == v / 0x1000_0000
  {
  }

  lemma EncodeVarint32IsVarint(v: nat)
    requires v < TWO_32
    ensures EncodeVarint32(v) == Varint(v)
  {
    Shifts(v);
    var (a, b, c, d) := (v / 0x80, v / 0x4000, v / 0x20_0000, v / 0x1000_0000);
    VarintStep(d);
    VarintStep(c);
    VarintStep(b);
    VarintStep(a);
    VarintStep(v);
  }

  lemma VarintStep(v: nat)
    ensures Varint(v) == if v < 128 then [v] else [v % 128 + 128] + Varint(v / 128)
  {
  }

  /** EncodeVarint64. */
  method EncodeVarint64(value: nat) returns (r: Bytes)
    ensures r == Varint(value)
  {
    var v := value;
    r := [];
    while v >= 128
      invariant r + Varint(v) == Varint(value)
    {
      r := r + [v % 128 + 128];
      v := v / 128;
    }
    r := r + [v];
  }

  /** A number of at most `n` bytes, cut to the width of its type, and the rest of the input. */
  ghost function ParseVarint(input: Bytes, n: nat, width: nat): (r: Option<(nat, Bytes)>)
    requires width > 0
    ensures r.Some? ==> |r.value.1| < |input|
  {
    var r := ReadVarint(input, n);
    if r.None? then None else Some((r.value.0 % width, input[r.value.1..]))
  }

  ghost function Parse32(input: Bytes): (r: Option<(nat, Bytes)>) { ParseVarint(input, 5, TWO_32) }
  ghost function Parse64(input: Bytes): (r: Option<(nat, Bytes)>) { ParseVarint(input, 10, TWO_64) }

  lemma Parse32RoundTrip(v: nat, rest: Bytes)
    requires v < TWO_32
    ensures Parse32(Varint(v) + rest) == Some((v, rest))
  {
    hide ReadVarint, Varint;
    VarintFits(v);
    VarintRoundTrip(v, rest, 5);
  }

  lemma Parse64RoundTrip(v: nat, rest: Bytes)
    requires v < TWO_64
    ensures Parse64(Varint(v) + rest) == Some((v, rest))
  {
    hide ReadVarint, Varint;
    VarintFits(v);
    VarintRoundTrip(v, rest, 10);
  }

  /** GetVarint32Ptr and GetVarint64Ptr: the bits of each byte are placed above
      those read so far.  Only those of the last byte can exceed the type. */
  method GetVarint(input: Bytes, n: nat, width: nat) returns (r: Option<(nat, Bytes)>)
    requires width > 0
    ensures r == ParseVarint(input, n, width)
  {
    hide ReadVarint;
    var result: nat, scale: nat, i: nat := 0, 1, 0;
    assert input[0..] == input;
    while i < n && i < |input|
      invariant 0 <= i <= |input| && i <= n
      invariant ReadVarint(input, n) == Placed(result, scale, i, ReadVarint(input[i..], n - i))
    {
      var byte := input[i];
      ReadOne(input, n, i, result, scale);
      result := result + byte % 128 * scale;
      i := i + 1;
      if byte < 128 {
        return Some((result % width, input[i..]));
      }
      scale := scale * 128;
    }
    ReadNone(input[i..], n - i);
    r := None;
  }

  /** What is read when `i` bytes, worth `sum`, precede a number. */
  ghost function Placed(sum: nat, scale: nat, i: nat, r: Option<(nat, nat)>): Option<(nat, nat)> {
    if r.None? then None else Some((sum + r.value.0 * scale, i + r.value.1))
  }

  lemma ReadNone(input: Bytes, n: nat)
    requires n == 0 || input == []
    ensures ReadVarint(input, n) == None
  {
  }

  lemma ReadOne(input: Bytes, n: nat, i: nat, sum: nat, scale: nat)
    requires i < n && i < |input|
    ensures var byte := input[i];
      Placed(sum, scale, i, ReadVarint(input[i..], n - i)) ==
      if byte < 128 then Some((sum + byte % 128 * scale, i + 1))
      else Placed(sum + byte % 128 * scale, scale * 128, i + 1, ReadVarint(input[i + 1..], n - (i + 1)))
  {
    assert input[i..][1..] == input[i + 1..];
    var r := ReadVarint(input[i + 1..], n - (i + 1));
    if input[i] >= 128 && r.Some? {
      Distribute(input[i] - 128, r.value.0, scale);
    }
  }

  lemma Distribute(b: nat, v: nat, scale: nat)
    ensures (b + 128 * v) * scale == b * scale + v * (scale * 128)
  {
  }

  // ---------------------------------------------------------------- length-prefixed strings

  ghost function Prefixed(s: Bytes): Bytes {
    Varint(|s|) + s
  }

  ghost function ParsePrefixed(input: Bytes): (r: Option<(Bytes, Bytes)>)
    ensures r.Some? ==> |r.value.1| < |input|
  {
    var l := Parse32(input);
    if l.None? || |l.value.1| < l.value.0 then None
    else Some((l.value.1[..l.value.0], l.value.1[l.value.0..]))
  }

  lemma PrefixedRoundTrip(s: Bytes, rest: Bytes)
    requires |s| < TWO_32
    ensures ParsePrefixed(Prefixed(s) + rest) == Some((s, rest))
  {
    assert Prefixed(s) + rest == Varint(|s|) + (s + rest);
    Parse32RoundTrip(|s|, s + rest);
  }

  method PutLengthPrefixedSlice(dst: Bytes, value: Bytes) returns (r: Bytes)
    requires |value| < TWO_32
    ensures r == dst + Prefixed(value)
  {
    EncodeVarint32IsVarint(|value|);
    r := dst + EncodeVarint32(|value|);
    r := r + value;
  }

  method GetLengthPrefixedSlice(input: Bytes) returns (r: Option<(Bytes, Bytes)>)
    ensures r == ParsePrefixed(input)
  {
    var l := GetVarint(input, 5, TWO_32);
    if l.None? || |l.value.1| < l.value.0 {
      return None;
    }
    r := Some((l.value.1[..l.value.0], l.value.1[l.value.0..]));
  }

  // ---------------------------------------------------------------- fixed-width integers

  /** EncodeFixed32 and EncodeFixed64: little-endian, `n` bytes. */
  function Fixed(v: nat, n: nat): (r: Bytes)
    ensures |r| == n
  {
    if n == 0 then [] else [v % 256] + Fixed(v / 256, n - 1)
  }

  function DecodeFixed(s: Bytes): nat {
    if s == [] then 0 else s[0] + 256 * DecodeFixed(s[1..])
  }

  ghost function Pow256(n: nat): nat {
    if n == 0 then 1 else 256 * Pow256(n - 1)
  }

  lemma {:induction false} FixedRoundTrip(v: nat, n: nat)
    requires v < Pow256(n)
    ensures DecodeFixed(Fixed(v, n)) == v
  {
    if n > 0 {
      FixedRoundTrip(v / 256, n - 1);
      assert Fixed(v, n)[1..] == Fixed(v / 256, n - 1);
    }
  }
}

/** src/util/coding.cpp: fixed-width little-endian integers, 32-bit varints and length-prefixed slices. */
module Coding {
  import opened Arithmetic
  import opened Bytes

  function Pow256(n: nat): (p: nat)
    ensures p > 0
  {
    if n == 0 then 1 else 256 * Pow256(n - 1)
  }

  /** EncodeFixed32 and EncodeFixed64 for n = 4 and 8: what does not fit is cut off. */
  function Fixed(n: nat, v: nat): (b: ByteSeq)
    ensures |b| == n
  {
    if n == 0 then [] else [v % 256] + Fixed(n - 1, v / 256)
  }

  /** DecodeFixed32 and DecodeFixed64 */
  function FromFixed(b: ByteSeq): nat {
    if b == [] then 0 else
      var low: int := b[0];
      low + 256 * FromFixed(b[1..])
  }

  lemma {:induction false} FixedRoundTrip(n: nat, v: nat)
    ensures FromFixed(Fixed(n, v)) == v % Pow256(n)
  {
    if n > 0 {
      FixedRoundTrip(n - 1, v / 256);
      ModByBytes(v, Pow256(n - 1));
    }
  }

  /** Byte i counts 256^i: the least significant one comes first. */
  lemma {:induction false} FixedBytes(n: nat, v: nat, i: nat)
    requires i < n
    ensures Fixed(n, v)[i] == v / Pow256(i) % 256
  {
    if i > 0 {
      FixedBytes(n - 1, v / 256, i - 1);
      DivTwice(v, 256, Pow256(i - 1));
    }
  }

  lemma PowersOf256()
    ensures Pow256(4) == UINT32 && Pow256(8) == UINT32 * UINT32
  {
    assert Pow256(2) == 65536;
    assert Pow256(6) == 65536 * UINT32;
  }

  lemma Fixed32RoundTrip(v: nat)
    requires v < UINT32
    ensures FromFixed(Fixed(4, v)) == v
  {
    hide Fixed, FromFixed, Pow256;
    PowersOf256();
    FixedRoundTrip(4, v);
  }

  lemma Fixed64RoundTrip(v: nat)
    requires v < UINT32 * UINT32
    ensures FromFixed(Fixed(8, v)) == v
  {
    hide Fixed, FromFixed, Pow256;
    PowersOf256();
    FixedRoundTrip(8, v);
  }

  // ---------- varints ----------

  /** Seven bits a byte, least significant first, high bit set on all but the last. */
  function Varint(v: nat): (b: ByteSeq)
    ensures |b| >= 1
  {
    if v < 128 then [v] else [v % 128 + 128] + Varint(v / 128)
  }

  function Pow128(n: nat): (p: nat)
    ensures p > 0
  {
    if n == 0 then 1 else 128 * Pow128(n - 1)
  }

  /** A varint has as many bytes as needed for seven bits in each, the least significant first, and only the last one
      is below 128. */
  lemma {:induction false} VarintBytes(v: nat, i: nat)
    requires i < |Varint(v)|
    ensures Varint(v)[i] == v / Pow128(i) % 128 + if i < |Varint(v)| - 1 then 128 else 0
    ensures v < Pow128(|Varint(v)|) && (v < 128 || v >= Pow128(|Varint(v)| - 1))
    decreases v
  {
    if v >= 128 {
      VarintBytes(v / 128, if i > 0 then i - 1 else 0);
      var n := |Varint(v / 128)|;
      assert |Varint(v)| == n + 1 && Pow128(n + 1) == 128 * Pow128(n) && Pow128(n) == 128 * Pow128(n - 1);
      if i > 0 {
        DivTwice(v, 128, Pow128(i - 1));
      }
    }
  }

  lemma VarintUnrolled(v: nat)
    requires 128 <= v < UINT32
    ensures Varint(v) == [v % 128 + 128] + Varint(v / 128)
    ensures v / 128 / 128 == v / 0x4000 && v / 0x4000 / 128 == v / 0x20_0000 && v / 0x20_0000 / 128 == v / 0x1000_0000
    ensures v / 128 >= 128 ==> Varint(v / 128) == [v / 128 % 128 + 128] + Varint(v / 0x4000)
    ensures v / 0x4000 >= 128 ==> Varint(v / 0x4000) == [v / 0x4000 % 128 + 128] + Varint(v / 0x20_0000)
    ensures v / 0x20_0000 >= 128 ==> Varint(v / 0x20_0000) == [v / 0x20_0000 % 128 + 128] + Varint(v / 0x1000_0000)
    ensures v / 0x1000_0000 < 128
  {
  }

  /** EncodeVarint32, one branch per length; `value | B` stored in a byte is value % 128 + 128. */
  function EncodeVarint32(v: nat): (b: ByteSeq)
    requires v < UINT32
    ensures b == Varint(v) && |b| <= 5
  {
    if v < 0x80 then [v]
    else
      VarintUnrolled(v);
      if v < 0x4000 then [v % 128 + 128, v / 128]
      else if v < 0x20_0000 then [v % 128 + 128, v / 128 % 128 + 128, v / 0x4000]
      else if v < 0x1000_0000 then
        [v % 128 + 128, v / 128 % 128 + 128, v / 0x4000 % 128 + 128, v / 0x20_0000]
      else [v % 128 + 128, v / 128 % 128 + 128, v / 0x4000 % 128 + 128, v / 0x20_0000 % 128 + 128, v / 0x1000_0000]
  }

  /** A byte that is not the last one, in front of what the rest spells. */
  function Cons(low: nat, rest: Option<(nat, nat)>): Option<(nat, nat)> {
    match rest
    case None => None
    case Some(r) => Some((low + 128 * r.0, r.1 + 1))
  }

  /** The number spelt by the first varint of the input, and its length: none if it does not end within
      `room` bytes. */
  function ReadVarint(input: ByteSeq, room: nat): (r: Option<(nat, nat)>)
    ensures r.Some? ==> 1 <= r.value.1 <= |input|
    decreases room
  {
    if room == 0 || input == [] then None
    else if input[0] < 128 then Some((input[0], 1))
    else Cons(input[0] - 128, ReadVarint(input[1..], room - 1))
  }

  /** GetVarint32Ptr over what lies between p and limit. */
  function GetVarint32(input: ByteSeq): (r: Option<(nat, nat)>)
    ensures r.Some? ==> 1 <= r.value.1 <= |input|
  {
    match ReadVarint(input, 5)
    case None => None
    case Some(r) => Some((r.0 % UINT32, r.1))
  }

  /** The first n bytes count 128^0, 128^1, ... with their low seven bits. */
  function Groups(input: ByteSeq, n: nat): nat
    requires n <= |input|
  {
    if n == 0 then 0 else input[0] % 128 + 128 * Groups(input[1..], n - 1)
  }

  /** On any bytes: the number ends with the first of five bytes that is below 128, what does not fit 32 bits is cut off,
      and it fails if there is none. */
  lemma GetVarintIs(input: ByteSeq, n: nat)
    requires n <= 5 && n <= |input| && forall i :: 0 <= i < n ==> input[i] >= 128
    ensures n == 5 || n == |input| ==> GetVarint32(input) == None
    ensures n < 5 && n < |input| && input[n] < 128 ==> GetVarint32(input) == Some((Groups(input, n + 1) % 0x1_0000_0000, n + 1))
  {
    ReadIs(input, 5, n);
  }

  lemma {:induction false} ReadIs(input: ByteSeq, room: nat, n: nat)
    requires n <= room && n <= |input| && forall i :: 0 <= i < n ==> input[i] >= 128
    ensures n == room || n == |input| ==> ReadVarint(input, room) == None
    ensures n < room && n < |input| && input[n] < 128 ==> ReadVarint(input, room) == Some((Groups(input, n + 1), n + 1))
    decreases n
  {
    if n > 0 {
      ReadIs(input[1..], room - 1, n - 1);
    } else if room > 0 && input != [] {
      assert Groups(input, 1) == input[0] % 128 + 128 * Groups(input[1..], 0);
    }
  }

  /** Seven bits shifted into place, with `unit` for the power of two. */
  function Shifted(bits: nat, unit: nat): nat {
    bits * unit
  }

  /** What the loop still owes after k bytes, of which `result` is known and worth less than `unit`. */
  function Owed(result: nat, unit: nat, k: nat, rest: Option<(nat, nat)>): Option<(nat, nat)> {
    match rest
    case None => None
    case Some(r) => Some((result + Shifted(r.0, unit), r.1 + k))
  }

  /** The loop itself.  The bits or-ed in are disjoint from those already there, so `|=` is addition. */
  method GetVarint32Ptr(input: ByteSeq) returns (r: Option<(nat, nat)>)
    ensures r == GetVarint32(input)
  {
    hide Owed, GetVarint32, ReadVarint, Cons, Shifted;
    var result: nat, k: nat, unit: nat := 0, 0, 1;
    OwedStart(input);
    while k <= 4 && k < |input|
      invariant k <= 5 && k <= |input|
      invariant ReadVarint(input, 5) == Owed(result, unit, k, ReadVarint(input[k..], 5 - k))
      decreases 5 - k
    {
      var byte: nat := input[k];
      OwedStep(input, k, result, unit);
      k := k + 1;
      if byte >= 128 {
        result := result + Shifted(byte - 128, unit);
        unit := 128 * unit;
      } else {
        result := (result + Shifted(byte, unit)) % UINT32;
        return Some((result, k));
      }
    }
    OwedEnd(input, k, result, unit);
    return None;
  }

  lemma OwedStart(input: ByteSeq)
    ensures ReadVarint(input, 5) == Owed(0, 1, 0, ReadVarint(input[0..], 5))
  {
    assert input[0..] == input;
  }

  lemma OwedEnd(input: ByteSeq, k: nat, result: nat, unit: nat)
    requires k <= 5 && k <= |input| && (k == 5 || k == |input|)
    requires ReadVarint(input, 5) == Owed(result, unit, k, ReadVarint(input[k..], 5 - k))
    ensures GetVarint32(input) == None
  {
  }

  lemma OwedStep(input: ByteSeq, k: nat, result: nat, unit: nat)
    requires k <= 4 && k < |input|
    requires ReadVarint(input, 5) == Owed(result, unit, k, ReadVarint(input[k..], 5 - k))
    ensures input[k] >= 128 ==>
      ReadVarint(input, 5) == Owed(result + Shifted(input[k] - 128, unit), 128 * unit, k + 1, ReadVarint(input[k + 1..], 5 - (k + 1)))
    ensures input[k] < 128 ==> GetVarint32(input) == Some(((result + Shifted(input[k], unit)) % UINT32, k + 1))
  {
    assert input[k..][1..] == input[k + 1..];
    hide Owed, Shifted;
    if input[k] >= 128 {
      OwedCons(result, unit, k, input[k] - 128, ReadVarint(input[k + 1..], 5 - (k + 1)));
    } else {
      OwedLast(result, unit, k, input[k]);
    }
  }

  lemma OwedCons(result: nat, unit: nat, k: nat, low: nat, rest: Option<(nat, nat)>)
    ensures Owed(result, unit, k, Cons(low, rest)) == Owed(result + Shifted(low, unit), 128 * unit, k + 1, rest)
  {
    if rest.Some? {
      Distribute(unit, low, rest.value.0);
    }
  }

  lemma OwedLast(result: nat, unit: nat, k: nat, low: nat)
    ensures Owed(result, unit, k, Some((low, 1))) == Some((result + Shifted(low, unit), k + 1))
  {
  }

  lemma Distribute(unit: nat, low: int, high: nat)
    ensures (low + 128 * high) * unit == low * unit + high * (128 * unit)
  {
  }

  /** VarintLength's loop. */
  method VarintLength(value: nat) returns (len: nat)
    ensures len == |Varint(value)|
  {
    len := 1;
    var v := value;
    while v >= 128
      invariant len + |Varint(v)| == 1 + |Varint(value)|
      decreases v
    {
      v := v / 128;
      len := len + 1;
    }
  }

  lemma {:induction false} VarintRoundTrip(v: nat, room: nat, rest: ByteSeq)
    requires |Varint(v)| <= room
    ensures ReadVarint(Varint(v) + rest, room) == Some((v, |Varint(v)|))
    decreases v
  {
    var input := Varint(v) + rest;
    if v >= 128 {
      assert input[1..] == Varint(v / 128) + rest;
      VarintRoundTrip(v / 128, room - 1, rest);
    }
  }

  lemma {:induction false} TornVarint(v: nat, room: nat, input: ByteSeq)
    requires input < Varint(v)
    ensures ReadVarint(input, room) == None
    decreases v
  {
    if input != [] && room > 0 {
      assert v >= 128;
      assert input[1..] < Varint(v / 128);
      TornVarint(v / 128, room - 1, input[1..]);
    }
  }

  // ---------- length-prefixed slices ----------

  /** What PutLengthPrefixedSlice appends; the length is cut to 32 bits. */
  function LengthPrefixed(value: ByteSeq): (b: ByteSeq)
    ensures |b| >= 1
  {
    EncodeVarint32(|value| % UINT32) + value
  }

  /** GetLengthPrefixedSlice: the slice and what follows it. */
  function GetLengthPrefixed(input: ByteSeq): (r: Option<(ByteSeq, ByteSeq)>)
    ensures r.Some? ==> |r.value.0| + |r.value.1| < |input|
  {
    match GetVarint32(input)
    case None => None
    case Some(r) =>
      var rest := input[r.1..];
      if |rest| >= r.0 then Some((rest[..r.0], rest[r.0..])) else None
  }

  /** A length-prefixed slice reads back exactly when its length fits 32 bits. */
  lemma LengthPrefixedRoundTrip(value: ByteSeq, rest: ByteSeq)
    ensures GetLengthPrefixed(LengthPrefixed(value) + rest) == Some((value, rest)) <==> |value| < UINT32
  {
    var n := |value| % UINT32;
    var head := EncodeVarint32(n);
    var input := LengthPrefixed(value) + rest;
    assert input == Varint(n) + (value + rest);
    VarintRoundTrip(n, 5, value + rest);
    assert input[|head|..] == value + rest;
    if |value| < UINT32 {
      assert (value + rest)[..n] == value && (value + rest)[n..] == rest;
    } else {
      assert |(value + rest)[..n]| < |value|;
    }
  }

  lemma TornLengthPrefixed(value: ByteSeq, input: ByteSeq)
    requires |value| < UINT32 && input < LengthPrefixed(value)
    ensures GetLengthPrefixed(input) == None
  {
    hide EncodeVarint32, ReadVarint, Varint;
    var n := |value|;
    var head := Varint(n);
    assert LengthPrefixed(value) == head + value;
    if |input| < |head| {
      assert input < head;
      TornVarint(n, 5, input);
    } else {
      var tail := input[|head|..];
      assert input == head + tail;
      VarintRoundTrip(n, 5, tail);
    }
  }
}

/** src/filter_policy/bloom_filter_policy.cpp.  The hash of a key is any function into 32-bit numbers. */
module BloomFilter {
  import opened Arithmetic
  import opened Bytes

  // ---------- bits of a byte ----------

  /** Bit i of a byte, counted from the least significant. */
  predicate BitSet(b: nat, i: nat) {
    if i == 0 then b % 2 == 1 else BitSet(b / 2, i - 1)
  }

  function Pow2(n: nat): (r: nat)
    ensures r > 0
  {
    if n == 0 then 1 else 2 * Pow2(n - 1)
  }

  /** The byte with bit i set. */
  function WithBit(b: nat, i: nat): nat {
    if i == 0 then b / 2 * 2 + 1 else 2 * WithBit(b / 2, i - 1) + b % 2
  }

  lemma {:induction false} WithBitSets(b: nat, i: nat, j: nat)
    ensures BitSet(WithBit(b, i), j) <==> BitSet(b, j) || i == j
  {
    if i > 0 {
      if j > 0 {
        WithBitSets(b / 2, i - 1, j - 1);
      }
    }
  }

  /** Bit i counts Pow2(i). */
  lemma {:induction false} BitSetIs(b: nat, i: nat)
    ensures BitSet(b, i) <==> b / Pow2(i) % 2 == 1
  {
    if i > 0 {
      BitSetIs(b / 2, i - 1);
      DivTwice(b, 2, Pow2(i - 1));
    }
  }

  /** The bits of a number put together from a low part of n bits and a high part. */
  lemma {:induction false} BitsOfParts(low: nat, high: nat, n: nat, i: nat)
    requires low < Pow2(n)
    ensures BitSet(low + high * Pow2(n), i) <==> if i < n then BitSet(low, i) else BitSet(high, i - n)
  {
    if n > 0 {
      var rest := high * Pow2(n - 1);
      assert high * Pow2(n) == 2 * rest;
      assert (low + 2 * rest) / 2 == low / 2 + rest && (low + 2 * rest) % 2 == low % 2;
      if i > 0 {
        BitsOfParts(low / 2, high, n - 1, i - 1);
      }
    }
  }

  lemma {:induction false} WithBitFits(b: nat, i: nat, n: nat)
    requires b < Pow2(n) && i < n
    ensures WithBit(b, i) < Pow2(n)
  {
    if i > 0 {
      WithBitFits(b / 2, i - 1, n - 1);
    }
  }

  lemma {:induction false} NoBits(i: nat)
    ensures !BitSet(0, i)
  {
    if i > 0 {
      NoBits(i - 1);
    }
  }

  // ---------- bits of an array ----------

  predicate ArrayBit(bytes: ByteSeq, p: nat)
    requires p < 8 * |bytes|
  {
    BitSet(bytes[p / 8], p % 8)
  }

  /** The array with bit p set: bits are counted through the bytes, eight in each. */
  function WithArrayBit(bytes: ByteSeq, p: nat): (r: ByteSeq)
    requires p < 8 * |bytes|
    ensures |r| == |bytes|
    ensures forall q :: 0 <= q < 8 * |bytes| ==> (ArrayBit(r, q) <==> ArrayBit(bytes, q) || p == q)
  {
    ByteWithBit(bytes[p / 8], p % 8);
    var r: ByteSeq := bytes[p / 8 := WithBit(bytes[p / 8], p % 8)];
    assert forall q :: 0 <= q < 8 * |bytes| ==> (ArrayBit(r, q) <==> ArrayBit(bytes, q) || p == q) by {
      forall q | 0 <= q < 8 * |bytes| ensures ArrayBit(r, q) <==> ArrayBit(bytes, q) || p == q {
        WithBitSets(bytes[p / 8], p % 8, q % 8);
      }
    }
    r
  }

  lemma ByteWithBit(b: Byte, i: nat)
    requires i < 8
    ensures WithBit(b, i) < 256
  {
    assert Pow2(4) == 16 && Pow2(8) == 256;
    WithBitFits(b, i, 8);
  }

  // ---------- probes ----------

  /** Rotate right by 17 bits. */
  function Delta(h: nat): nat {
    h / 0x2_0000 + (h * 0x8000) % UINT32
  }

  /** The value of h at probe j: h grows by delta, modulo 2^32. */
  function Probe(h: nat, j: nat): (p: nat) {
    if j == 0 then h else (Probe(h, j - 1) + Delta(h)) % UINT32
  }

  /** d is h rotated right by 17 bits, in 32. */
  ghost predicate Rotated(h: nat, d: nat) {
    d < UINT32 && forall i :: 0 <= i < 32 ==> (BitSet(d, i) <==> BitSet(h, (i + 17) % 32))
  }

  lemma {:induction false} SameBits(a: nat, b: nat, n: nat)
    requires a < Pow2(n) && b < Pow2(n) && forall i :: 0 <= i < n ==> (BitSet(a, i) <==> BitSet(b, i))
    ensures a == b
  {
    if n > 0 {
      assert BitSet(a, 0) <==> BitSet(b, 0);
      forall i | 0 <= i < n - 1 ensures BitSet(a / 2, i) <==> BitSet(b / 2, i) {
        assert BitSet(a, i + 1) <==> BitSet(b, i + 1);
      }
      SameBits(a / 2, b / 2, n - 1);
    }
  }

  lemma Powers()
    ensures Pow2(15) == 0x8000 && Pow2(17) == 0x2_0000 && Pow2(32) == UINT32
  {
    assert Pow2(5) == 32 && Pow2(10) == 1024 && Pow2(15) == 0x8000;
    assert Pow2(17) == 0x2_0000 && Pow2(22) == 0x40_0000 && Pow2(27) == 0x800_0000;
  }

  /** Delta is that rotation, and nothing else is. */
  lemma DeltaRotates(h: nat, d: nat)
    requires h < UINT32
    ensures Rotated(h, d) <==> d == Delta(h)
  {
    Powers();
    DeltaRotated(h);
    hide Delta, Pow2, BitSet;
    if Rotated(h, d) {
      SameBits(d, Delta(h), 32);
    }
  }

  lemma DeltaRotated(h: nat)
    requires h < UINT32
    ensures Rotated(h, Delta(h))
  {
    var low, high := h % 0x2_0000, h / 0x2_0000;
    Powers();
    DeltaParts(h, low, high);
    hide Delta, Pow2, BitSet;
    forall i | 0 <= i < 32 ensures BitSet(Delta(h), i) <==> BitSet(h, (i + 17) % 32) {
      RotatedBit(low, high, 15, 17, i);
    }
  }

  lemma RotatedBit(low: nat, high: nat, a: nat, b: nat, i: nat)
    requires a == 15 && b == 17 && low < Pow2(b) && high < Pow2(a) && i < 32
    ensures BitSet(high + low * Pow2(a), i) <==> BitSet(low + high * Pow2(b), (i + 17) % 32)
  {
    var j := if i < 15 then i + 17 else i - 15;
    assert (i + 17) % 32 == j;
    hide Pow2, BitSet;
    BitsOfParts(high, low, a, i);
    BitsOfParts(low, high, b, j);
  }

  lemma DeltaParts(h: nat, low: nat, high: nat)
    requires h < UINT32 && low == h % 0x2_0000 && high == h / 0x2_0000
    ensures h == low + high * 0x2_0000 && high < 0x8000 && Delta(h) == high + low * 0x8000 < UINT32
  {
    assert h * 0x8000 == low * 0x8000 + high * UINT32;
  }

  function StepsAway(h: nat, j: nat, d: nat): nat {
    (h + j * d) % 0x1_0000_0000
  }

  /** Probe j lies j steps from the hash. */
  lemma {:induction false} ProbeIs(h: nat, j: nat, d: nat)
    requires h < UINT32 && Rotated(h, d)
    ensures Probe(h, j) == StepsAway(h, j, d)
  {
    DeltaRotates(h, d);
    hide Delta, Rotated, StepsAway;
    if j == 0 {
      NoStep(h, d);
    } else {
      ProbeIs(h, j - 1, d);
      OneStepMore(h, j, d);
    }
  }

  lemma NoStep(h: nat, d: nat)
    requires h < UINT32
    ensures StepsAway(h, 0, d) == h
  {
  }

  lemma OneStepMore(h: nat, j: nat, d: nat)
    requires j > 0
    ensures (StepsAway(h, j - 1, d) + d) % UINT32 == StepsAway(h, j, d)
  {
    assert h + (j - 1) * d + d == h + j * d;
    StepModulo(h + (j - 1) * d, d);
  }

  lemma StepModulo(x: nat, d: nat)
    ensures (x % UINT32 + d) % UINT32 == (x + d) % UINT32
  {
  }

  /** The bit that probe j looks at. */
  function ProbeBit(h: nat, j: nat, bits: nat): (p: nat)
    requires bits > 0
    ensures p < bits
  {
    Probe(h, j) % bits
  }

  /** One of the first k probes for hash h hits bit p. */
  ghost predicate HitBy(h: nat, k: nat, bits: nat, p: nat)
    requires bits > 0
  {
    exists j :: 0 <= j < k && ProbeBit(h, j, bits) == p
  }

  /** The same in terms of the hash: with d for the hash rotated right by 17 bits, the bit is
      ((h + j * d) modulo 2^32) modulo the number of bits for some j below k. */
  ghost predicate Hits(h: nat, k: nat, bits: nat, p: nat)
    requires bits > 0
  {
    exists j: nat, d: nat :: j < k && Rotated(h, d) && p == StepsAway(h, j, d) % bits
  }

  lemma HitByIs(h: nat, k: nat, bits: nat, p: nat)
    requires h < UINT32 && bits > 0
    ensures HitBy(h, k, bits, p) <==> Hits(h, k, bits, p)
  {
    DeltaRotates(h, Delta(h));
    hide Rotated, Delta, Probe;
    if HitBy(h, k, bits, p) {
      var j :| 0 <= j < k && ProbeBit(h, j, bits) == p;
      ProbeIs(h, j, Delta(h));
      assert p == StepsAway(h, j, Delta(h)) % bits;
    }
    if Hits(h, k, bits, p) {
      var j: nat, d: nat :| j < k && Rotated(h, d) && p == StepsAway(h, j, d) % bits;
      ProbeIs(h, j, d);
      assert ProbeBit(h, j, bits) == p;
    }
  }

  ghost predicate HitByAny(hashOf: ByteSeq -> nat, keys: seq<ByteSeq>, k: nat, bits: nat, p: nat)
    requires bits > 0
  {
    exists i :: 0 <= i < |keys| && HitBy(hashOf(keys[i]), k, bits, p)
  }

  /** The bits set are those of `before` and those hit by the first k probes for h. */
  ghost predicate Added(before: ByteSeq, after: ByteSeq, h: nat, k: nat) {
    && |after| == |before| > 0
    && forall p :: 0 <= p < 8 * |before| ==> (ArrayBit(after, p) <==> ArrayBit(before, p) || HitBy(h, k, 8 * |before|, p))
  }

  /** The bit array inside a string: between the old contents and the byte for k. */
  function Bitmap(dst: ByteSeq, start: nat): ByteSeq
    requires start < |dst|
  {
    dst[start..|dst| - 1]
  }

  /** dst before and after a change of the bit array only. */
  predicate SameAround(before: ByteSeq, after: ByteSeq, start: nat) {
    |after| == |before| > start && after[..start] == before[..start] && after[|after| - 1] == before[|before| - 1]
  }

  /** The inner loop of CreateFilter. */
  method AddKey(dst: ByteSeq, start: nat, hash: nat, k: nat) returns (r: ByteSeq)
    requires |dst| > start + 1
    ensures SameAround(dst, r, start) && Added(Bitmap(dst, start), Bitmap(r, start), hash, k)
  {
    r := dst;
    var bits, h, j := 8 * (|dst| - 1 - start), hash, 0;
    var delta := Delta(hash);
    ghost var before := Bitmap(dst, start);
    hide ArrayBit, Delta, Bitmap, Added, ProbeBit, WithBit;
    AddedNone(before, hash);
    while j < k
      invariant 0 <= j <= k && h == Probe(hash, j) && SameAround(dst, r, start)
      invariant |before| == |dst| - 1 - start && Added(before, Bitmap(r, start), hash, j)
    {
      var bitpos := h % bits;
      ProbeBitIs(hash, j, bits);
      AddedOne(before, Bitmap(r, start), hash, j);
      BitInString(r, start, bitpos);
      r := r[start + bitpos / 8 := WithBit(r[start + bitpos / 8], bitpos % 8)];
      h := (h + delta) % UINT32;
      j := j + 1;
    }
  }

  lemma ProbeBitIs(h: nat, j: nat, bits: nat)
    requires bits > 0
    ensures ProbeBit(h, j, bits) == Probe(h, j) % bits < bits
  {
  }

  lemma AddedNone(before: ByteSeq, hash: nat)
    requires |before| > 0
    ensures Added(before, before, hash, 0)
  {
  }

  lemma BitInString(dst: ByteSeq, start: nat, p: nat)
    requires start < |dst| && p < 8 * (|dst| - 1 - start)
    ensures start + p / 8 < |dst| - 1 && WithBit(dst[start + p / 8], p % 8) < 256
    ensures var after := dst[start + p / 8 := WithBit(dst[start + p / 8], p % 8)];
      SameAround(dst, after, start) && Bitmap(after, start) == WithArrayBit(Bitmap(dst, start), p)
  {
    ByteWithBit(dst[start + p / 8], p % 8);
  }

  lemma AddedOne(before: ByteSeq, bitmap: ByteSeq, hash: nat, j: nat)
    requires Added(before, bitmap, hash, j)
    ensures Added(before, WithArrayBit(bitmap, ProbeBit(hash, j, 8 * |before|)), hash, j + 1)
  {
    hide ArrayBit;
    var bits := 8 * |before|;
    forall p ensures HitBy(hash, j + 1, bits, p) <==> HitBy(hash, j, bits, p) || ProbeBit(hash, j, bits) == p {
    }
  }

  /** Exactly the bits hit by the keys are set. */
  ghost predicate Summarizes(bitmap: ByteSeq, hashOf: ByteSeq -> nat, keys: seq<ByteSeq>, k: nat) {
    |bitmap| > 0
    && forall p :: 0 <= p < 8 * |bitmap| ==> (ArrayBit(bitmap, p) <==> HitByAny(hashOf, keys, k, 8 * |bitmap|, p))
  }

  // ---------- the policy ----------

  class BloomFilterPolicy {
    const bitsPerKey: nat
    const k: nat
    const hashOf: ByteSeq -> nat

    predicate Valid() {
      1 <= k <= 30
    }

    /** k is 0.69 bits_per_key, rounded down, between 1 and 30. */
    constructor (bitsPerKey: nat, hashOf: ByteSeq -> nat)
      ensures Valid() && this.bitsPerKey == bitsPerKey && this.hashOf == hashOf
      ensures k as real <= 0.69 * bitsPerKey as real || k == 1
      ensures k as real + 1.0 > 0.69 * bitsPerKey as real || k == 30
    {
      this.bitsPerKey, this.hashOf := bitsPerKey, hashOf;
      k := Max(1, Min(30, 69 * bitsPerKey / 100));
    }

    /** The bytes of a filter for n keys, without the one for k. */
    function FilterBytes(n: nat): (bytes: nat)
      ensures bytes >= 8 && n * bitsPerKey <= 8 * bytes < Max(64, n * bitsPerKey) + 8
    {
      (Max(64, n * bitsPerKey) + 7) / 8
    }

    /** CreateFilter appends the filter and leaves the old contents alone. */
    method CreateFilter(keys: seq<ByteSeq>, dst: ByteSeq) returns (r: ByteSeq)
      requires Valid()
      ensures |r| == |dst| + FilterBytes(|keys|) + 1 && r[..|dst|] == dst && r[|r| - 1] == k
      ensures Summarizes(r[|dst|..|r| - 1], hashOf, keys, k)
      ensures (forall key :: hashOf(key) < UINT32) ==> SetsProbedBits(hashOf, keys, k, r[|dst|..|r| - 1])
    {
      var bytes := FilterBytes(|keys|);
      r := dst + Zeros(bytes) + [k];
      ghost var was := r;
      NothingYet(r, |dst|, hashOf, k);
      var i := 0;
      hide Summarizes, Added;
      while i < |keys|
        invariant 0 <= i <= |keys| && SameAround(was, r, |dst|)
        invariant Summarizes(Bitmap(r, |dst|), hashOf, keys[..i], k)
      {
        var h := hashOf(keys[i]);
        var next := AddKey(r, |dst|, h, k);
        SummarizesOne(Bitmap(r, |dst|), Bitmap(next, |dst|), hashOf, keys[..i], keys[i], k);
        assert keys[..i + 1] == keys[..i] + [keys[i]];
        r := next;
        i := i + 1;
      }
      assert keys[..i] == keys;
      if forall key :: hashOf(key) < UINT32 {
        SummarizesIs(r[|dst|..|r| - 1], hashOf, keys, k);
      }
    }

    /** KeyMayMatch, which reads k from the filter. */
    method KeyMayMatch(key: ByteSeq, filter: ByteSeq) returns (may: bool)
      ensures may == MayMatch(hashOf(key), filter)
      ensures hashOf(key) < UINT32 ==> (may <==> FindsProbedBits(hashOf(key), filter))
    {
      if hashOf(key) < UINT32 {
        MayMatchIs(hashOf(key), filter);
      }
      if |filter| < 2 {
        return false;
      }
      var bits := (|filter| - 1) * 8;
      var k := filter[|filter| - 1];
      if k > 30 {
        return true;
      }
      var hash := hashOf(key);
      var h, delta, j := hash, Delta(hash), 0;
      ghost var bitmap := filter[..|filter| - 1];
      hide Delta, BitSet, Probed;
      while j < k
        invariant 0 <= j <= k && h == Probe(hash, j) && AllProbed(bitmap, hash, j)
      {
        var bitpos := h % bits;
        ProbedIs(filter, hash, j, h);
        if !BitSet(filter[bitpos / 8], bitpos % 8) {
          return false;
        }
        h := (h + delta) % UINT32;
        j := j + 1;
      }
      return true;
    }
  }

  /** A bit is set exactly if one of the keys hits it. */
  ghost predicate SetsProbedBits(hashOf: ByteSeq -> nat, keys: seq<ByteSeq>, k: nat, bitmap: ByteSeq) {
    |bitmap| > 0
    && forall p :: 0 <= p < 8 * |bitmap| ==>
         (BitSet(bitmap[p / 8], p % 8) <==> exists i :: 0 <= i < |keys| && Hits(hashOf(keys[i]), k, 8 * |bitmap|, p))
  }

  lemma SummarizesIs(bitmap: ByteSeq, hashOf: ByteSeq -> nat, keys: seq<ByteSeq>, k: nat)
    requires Summarizes(bitmap, hashOf, keys, k) && forall key :: hashOf(key) < UINT32
    ensures SetsProbedBits(hashOf, keys, k, bitmap)
  {
    hide HitBy, Hits, BitSet;
    forall p | 0 <= p < 8 * |bitmap|
      ensures BitSet(bitmap[p / 8], p % 8) <==> exists i :: 0 <= i < |keys| && Hits(hashOf(keys[i]), k, 8 * |bitmap|, p)
    {
      assert ArrayBit(bitmap, p) <==> HitByAny(hashOf, keys, k, 8 * |bitmap|, p);
      forall i | 0 <= i < |keys|
        ensures HitBy(hashOf(keys[i]), k, 8 * |bitmap|, p) <==> Hits(hashOf(keys[i]), k, 8 * |bitmap|, p)
      {
        HitByIs(hashOf(keys[i]), k, 8 * |bitmap|, p);
      }
    }
  }

  /** A filter of two bytes or more whose last one is above 30, or which has every bit set that the hash hits. */
  ghost predicate FindsProbedBits(h: nat, filter: ByteSeq) {
    && |filter| >= 2
    && var n := |filter| - 1;
       filter[n] > 30 || forall p :: 0 <= p < 8 * n && Hits(h, filter[n], 8 * n, p) ==> BitSet(filter[p / 8], p % 8)
  }

  lemma MayMatchIs(h: nat, filter: ByteSeq)
    requires h < UINT32
    ensures MayMatch(h, filter) <==> FindsProbedBits(h, filter)
  {
    hide Hits, BitSet, Probe;
    if |filter| >= 2 && filter[|filter| - 1] <= 30 {
      var n := |filter| - 1;
      var k := filter[n];
      forall p | 0 <= p < 8 * n ensures HitBy(h, k, 8 * n, p) <==> Hits(h, k, 8 * n, p) {
        HitByIs(h, k, 8 * n, p);
      }
      if AllProbed(filter[..n], h, k) {
        forall p | 0 <= p < 8 * n && HitBy(h, k, 8 * n, p) ensures BitSet(filter[p / 8], p % 8) {
          var j :| 0 <= j < k && ProbeBit(h, j, 8 * n) == p;
          assert Probed(filter[..n], h, j);
        }
      }
      if FindsProbedBits(h, filter) {
        forall j | 0 <= j < k ensures Probed(filter[..n], h, j) {
          assert HitBy(h, k, 8 * n, ProbeBit(h, j, 8 * n));
        }
      }
    }
  }

  /** Probe j for hash h finds its bit set. */
  predicate Probed(bitmap: ByteSeq, h: nat, j: nat)
    requires |bitmap| > 0
  {
    ArrayBit(bitmap, ProbeBit(h, j, 8 * |bitmap|))
  }

  ghost predicate AllProbed(bitmap: ByteSeq, h: nat, k: nat)
    requires |bitmap| > 0
  {
    forall j :: 0 <= j < k ==> Probed(bitmap, h, j)
  }

  lemma ProbedIs(filter: ByteSeq, hash: nat, j: nat, h: nat)
    requires |filter| >= 2 && h == Probe(hash, j)
    ensures var bitpos := h % (8 * (|filter| - 1));
      bitpos / 8 < |filter| - 1 && (Probed(filter[..|filter| - 1], hash, j) <==> BitSet(filter[bitpos / 8], bitpos % 8))
  {
    hide Probe;
  }

  /** Whether a filter may hold a key with hash h: all its probes find their bits set. */
  ghost predicate MayMatch(h: nat, filter: ByteSeq) {
    var n := |filter| - 1;
    n >= 1 && (filter[n] > 30 || AllProbed(filter[..n], h, filter[n]))
  }

  /** A filter for the keys answers exactly by the bits that their probes hit ... */
  lemma MatchesExactly(hashOf: ByteSeq -> nat, keys: seq<ByteSeq>, filter: ByteSeq, h: nat)
    requires |filter| >= 2 && filter[|filter| - 1] <= 30
    requires Summarizes(filter[..|filter| - 1], hashOf, keys, filter[|filter| - 1])
    ensures var k, bits := filter[|filter| - 1], 8 * (|filter| - 1);
      MayMatch(h, filter) <==> forall j :: 0 <= j < k ==> HitByAny(hashOf, keys, k, bits, ProbeBit(h, j, bits))
  {
    var k, bits, bitmap := filter[|filter| - 1], 8 * (|filter| - 1), filter[..|filter| - 1];
    hide HitByAny;
    forall j | 0 <= j < k
      ensures Probed(bitmap, h, j) <==> HitByAny(hashOf, keys, k, bits, ProbeBit(h, j, bits))
    {
      OneProbe(bitmap, hashOf, keys, k, h, j);
    }
  }

  lemma OneProbe(bitmap: ByteSeq, hashOf: ByteSeq -> nat, keys: seq<ByteSeq>, k: nat, h: nat, j: nat)
    requires Summarizes(bitmap, hashOf, keys, k)
    ensures Probed(bitmap, h, j) <==> HitByAny(hashOf, keys, k, 8 * |bitmap|, ProbeBit(h, j, 8 * |bitmap|))
  {
    hide HitByAny, ProbeBit;
  }

  /** ... so it says yes to every one of the keys. */
  lemma NoFalseNegatives(hashOf: ByteSeq -> nat, keys: seq<ByteSeq>, filter: ByteSeq, key: ByteSeq)
    requires |filter| >= 2 && filter[|filter| - 1] <= 30 && key in keys
    requires Summarizes(filter[..|filter| - 1], hashOf, keys, filter[|filter| - 1])
    ensures MayMatch(hashOf(key), filter)
  {
    var k, bits, h := filter[|filter| - 1], 8 * (|filter| - 1), hashOf(key);
    var i :| 0 <= i < |keys| && keys[i] == key;
    forall j | 0 <= j < k ensures HitByAny(hashOf, keys, k, bits, ProbeBit(h, j, bits)) {
      assert HitBy(hashOf(keys[i]), k, bits, ProbeBit(h, j, bits));
    }
    MatchesExactly(hashOf, keys, filter, h);
  }

  /** The promise of the interface: a filter made by one policy matches its keys under any other. */
  method FilterThenMatch(maker: BloomFilterPolicy, reader: BloomFilterPolicy, keys: seq<ByteSeq>, key: ByteSeq, dst: ByteSeq)
    returns (may: bool)
    requires maker.Valid() && maker.hashOf == reader.hashOf
    ensures key in keys ==> may
  {
    var r := maker.CreateFilter(keys, dst);
    var filter := r[|dst|..];
    assert filter[..|filter| - 1] == r[|dst|..|r| - 1];
    may := reader.KeyMayMatch(key, filter);
    if key in keys {
      NoFalseNegatives(maker.hashOf, keys, filter, key);
    }
  }

  lemma NothingYet(dst: ByteSeq, start: nat, hashOf: ByteSeq -> nat, k: nat)
    requires start + 1 < |dst| && dst[start..|dst| - 1] == Zeros(|dst| - 1 - start)
    ensures Summarizes(Bitmap(dst, start), hashOf, [], k)
  {
    NothingHit(Bitmap(dst, start));
  }

  lemma NothingHit(bitmap: ByteSeq)
    requires bitmap == Zeros(|bitmap|)
    ensures forall p :: 0 <= p < 8 * |bitmap| ==> !ArrayBit(bitmap, p)
  {
    forall p | 0 <= p < 8 * |bitmap| ensures !ArrayBit(bitmap, p) {
      NoBits(p % 8);
    }
  }

  lemma SummarizesOne(before: ByteSeq, after: ByteSeq, hashOf: ByteSeq -> nat, keys: seq<ByteSeq>, key: ByteSeq, k: nat)
    requires Summarizes(before, hashOf, keys, k) && Added(before, after, hashOf(key), k)
    ensures Summarizes(after, hashOf, keys + [key], k) && |after| == |before|
  {
    hide ArrayBit, HitBy;
    var bits := 8 * |before|;
    forall p ensures HitByAny(hashOf, keys + [key], k, bits, p) <==> HitByAny(hashOf, keys, k, bits, p) || HitBy(hashOf(key), k, bits, p) {
      if HitBy(hashOf(key), k, bits, p) {
        assert (keys + [key])[|keys|] == key;
      }
      if HitByAny(hashOf, keys, k, bits, p) {
        var i :| 0 <= i < |keys| && HitBy(hashOf(keys[i]), k, bits, p);
        assert (keys + [key])[i] == keys[i];
      }
    }
  }
}

/** Slice::compare of src/data_structure/slice.h and the bytewise comparator of src/comparator/comparator.cpp. */
module Comparator {
  import opened Bytes

  // ---------- the order of byte strings ----------

  /** The sign of memcmp over the first n bytes. */
  function Memcmp(a: ByteSeq, b: ByteSeq, n: nat): int
    requires n <= |a| && n <= |b|
  {
    if n == 0 then 0 else if a[0] != b[0] then a[0] - b[0] else Memcmp(a[1..], b[1..], n - 1)
  }

  /** Slice::compare, which answers 1 also for equal slices. */
  function SliceCompare(a: ByteSeq, b: ByteSeq): int {
    var r := Memcmp(a, b, Min(|a|, |b|));
    if r != 0 then r else if |a| < |b| then -1 else 1
  }

  /** The lexicographic order of bytes. */
  predicate Before(a: ByteSeq, b: ByteSeq) {
    b != [] && (a == [] || a[0] < b[0] || (a[0] == b[0] && Before(a[1..], b[1..])))
  }

  /** What a comparator of byte strings is meant to return: 0 for equal ones, and only for those. */
  function Lexicographic(a: ByteSeq, b: ByteSeq): int {
    if a == b then 0 else if Before(a, b) then -1 else 1
  }

  /** Slice::compare orders correctly but never reports equality. */
  lemma {:induction false} CompareIsBefore(a: ByteSeq, b: ByteSeq)
    ensures SliceCompare(a, b) < 0 <==> Before(a, b)
    ensures SliceCompare(a, b) != 0
  {
    if a != [] && b != [] && a[0] == b[0] {
      CompareIsBefore(a[1..], b[1..]);
    }
  }

  lemma {:induction false} BeforeIsTotal(a: ByteSeq, b: ByteSeq)
    ensures Before(a, b) ==> !Before(b, a) && a != b
    ensures a == b || Before(a, b) || Before(b, a)
  {
    if a != [] && b != [] && a[0] == b[0] {
      BeforeIsTotal(a[1..], b[1..]);
      assert a == [a[0]] + a[1..] && b == [b[0]] + b[1..];
    }
  }

  lemma {:induction false} BeforeIsTransitive(a: ByteSeq, b: ByteSeq, c: ByteSeq)
    requires Before(a, b) && Before(b, c)
    ensures Before(a, c)
  {
    if a != [] && a[0] == b[0] == c[0] {
      BeforeIsTransitive(a[1..], b[1..], c[1..]);
    }
  }

  /** A comparator that orders byte strings, and takes no two different ones for equal. */
  ghost predicate OrdersBytes(cmp: (ByteSeq, ByteSeq) -> int) {
    forall a, b :: (cmp(a, b) < 0 <==> Before(a, b)) && (cmp(a, b) == 0 ==> a == b)
  }

  lemma BothOrderBytes()
    ensures OrdersBytes(SliceCompare) && OrdersBytes(Lexicographic)
  {
    forall a, b ensures (SliceCompare(a, b) < 0 <==> Before(a, b)) && (SliceCompare(a, b) == 0 ==> a == b) {
      CompareIsBefore(a, b);
    }
    forall a, b ensures (Lexicographic(a, b) < 0 <==> Before(a, b)) && (Lexicographic(a, b) == 0 ==> a == b) {
      BeforeIsTotal(a, b);
    }
  }

  /** The first difference decides. */
  lemma {:induction false} DecidedAt(a: ByteSeq, b: ByteSeq, d: nat)
    requires d <= |a| && d < |b| && a[..d] == b[..d] && (d < |a| ==> a[d] < b[d])
    ensures Before(a, b)
  {
    if d > 0 {
      assert a[0] == a[..d][0] && b[0] == b[..d][0];
      assert a[1..][..d - 1] == a[..d][1..] && b[1..][..d - 1] == b[..d][1..];
      DecidedAt(a[1..], b[1..], d - 1);
    }
  }

  /** One string comes before another exactly if it is a strict prefix of it or has the smaller byte where they first
      differ. */
  lemma BeforeIs(a: ByteSeq, b: ByteSeq)
    ensures Before(a, b) <==>
      exists d: nat :: d <= |a| && d < |b| && a[..d] == b[..d] && (d < |a| ==> a[d] < b[d])
  {
    if Before(a, b) {
      var d := FirstDifference(a, b);
    }
    if exists d: nat :: d <= |a| && d < |b| && a[..d] == b[..d] && (d < |a| ==> a[d] < b[d]) {
      var d: nat :| d <= |a| && d < |b| && a[..d] == b[..d] && (d < |a| ==> a[d] < b[d]);
      DecidedAt(a, b, d);
    }
  }

  lemma {:induction false} FirstDifference(a: ByteSeq, b: ByteSeq) returns (d: nat)
    requires Before(a, b)
    ensures d <= |a| && d < |b| && a[..d] == b[..d] && (d < |a| ==> a[d] < b[d])
  {
    d := 0;
    if a != [] && a[0] == b[0] {
      var e := FirstDifference(a[1..], b[1..]);
      d := e + 1;
      assert a[..d] == [a[0]] + a[1..][..e] && b[..d] == [b[0]] + b[1..][..e];
    }
  }

  // ---------- separators and successors ----------

  /** A char, as a number; a byte of 0x80 or more is negative. */
  function Signed(b: Byte): int {
    if b < 0x80 then b else b - 0x100
  }

  /** Where the separator differs from start: the strings agree so far on bytes below 0x80, and the next byte
      of start can be raised and still be below that of limit. */
  predicate Separates(start: ByteSeq, limit: ByteSeq, d: nat) {
    && d < |start| && d < |limit| && start[..d] == limit[..d]
    && (forall i :: 0 <= i < d ==> start[i] < 0x80)
    && start[d] as int + 1 < limit[d]
  }

  method FindShortestSeparator(start: ByteSeq, limit: ByteSeq) returns (result: ByteSeq)
    ensures result != start ==> Before(start, result) && Before(result, limit) && |result| <= |start|
    ensures result != start <==> exists d: nat :: Separates(start, limit, d)
    ensures forall d: nat :: Separates(start, limit, d) ==> result == start[..d] + [start[d] + 1]
  {
    result := start;
    var minLength := Min(|start|, |limit|);
    var diff := 0;
    while diff < minLength && Signed(start[diff]) == limit[diff]
      invariant 0 <= diff <= minLength
      invariant forall i :: 0 <= i < diff ==> start[i] == limit[i] < 0x80
    {
      diff := diff + 1;
    }
    OnlySeparator(start, limit, diff);
    if diff < minLength && start[diff] < 0xFF && start[diff] as int + 1 < limit[diff] {
      result := start[..diff] + [start[diff] + 1];
      assert Separates(start, limit, diff);
      DecidedAt(start, result, diff);
      DecidedAt(result, limit, diff);
    }
  }

  lemma OnlySeparator(start: ByteSeq, limit: ByteSeq, diff: nat)
    requires diff <= |start| && diff <= |limit| && start[..diff] == limit[..diff]
    requires forall i :: 0 <= i < diff ==> start[i] == limit[i]
    requires diff < |start| && diff < |limit| ==> Signed(start[diff]) != limit[diff]
    ensures forall d: nat :: Separates(start, limit, d) ==> d == diff
  {
  }

  /** The first byte that can be raised. */
  predicate Raisable(key: ByteSeq, i: nat) {
    i < |key| && key[i] != 0xFF && forall j :: 0 <= j < i ==> key[j] == 0xFF
  }

  method FindShortSuccessor(key: ByteSeq) returns (result: ByteSeq)
    ensures result != key ==> Before(key, result) && |result| <= |key|
    ensures result == key ==> forall i :: 0 <= i < |key| ==> key[i] == 0xFF
    ensures result != key ==> Raisable(key, |result| - 1) && result == key[..|result| - 1] + [key[|result| - 1] + 1]
    // No shorter string comes after the key.
    ensures result != key ==> forall t :: Before(key, t) ==> |result| <= |t|
  {
    result := key;
    var i := 0;
    while i < |key|
      invariant 0 <= i <= |key| && result == key
      invariant forall j :: 0 <= j < i ==> key[j] == 0xFF
    {
      if key[i] != 0xFF {
        result := key[..i] + [key[i] + 1];
        DecidedAt(key, result, i);
        forall t | Before(key, t) ensures i < |t| {
          LongerThanOnes(key, t, i);
        }
        return;
      }
      i := i + 1;
    }
  }

  lemma {:induction false} LongerThanOnes(key: ByteSeq, t: ByteSeq, n: nat)
    requires n <= |key| && Before(key, t) && forall j :: 0 <= j < n ==> key[j] == 0xFF
    ensures n < |t|
  {
    if n > 0 {
      LongerThanOnes(key[1..], t[1..], n - 1);
    }
  }
}

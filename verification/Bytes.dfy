/** Bytes and the two result shapes shared by every module. */
module Bytes {
  type Byte = b: int | 0 <= b < 256
  type ByteSeq = seq<Byte>

  const UINT32 := 0x1_0000_0000

  datatype Option<+T> = None | Some(value: T)

  ghost predicate Distinct<T>(q: seq<T>) {
    forall j, k :: 0 <= j < k < |q| ==> q[j] != q[k]
  }

  function Zeros(n: nat): (z: ByteSeq)
    ensures |z| == n
  {
    seq(n, i => 0)
  }

  function Min(a: int, b: int): (m: int)
    ensures m <= a && m <= b && (m == a || m == b)
  {
    if a < b then a else b
  }

  function Max(a: int, b: int): (m: int)
    ensures m >= a && m >= b && (m == a || m == b)
  {
    if a < b then b else a
  }

  lemma Associative<T>(a: seq<T>, b: seq<T>, c: seq<T>)
    ensures (a + b) + c == a + (b + c)
  {
  }

  lemma AppendNothing<T>(q: seq<T>)
    ensures q + [] == q && [] + q == q
  {
  }
}

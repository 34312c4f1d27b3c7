/** src/db_format/db_format.cpp: internal keys, a user key followed by eight bytes of sequence and type. */
module DbFormat {
  import opened Bytes
  import opened Coding
  import opened Comparator

  const TYPE_DELETION := 0
  const TYPE_VALUE := 1
  const TYPE_FOR_SEEK := TYPE_VALUE
  const MAX_SEQUENCE := 0xFF_FFFF_FFFF_FFFF    // 2^56 - 1

  /** PackSequenceAndType, and the tag that MemTable::Add writes. */
  function Pack(sequence: nat, kind: nat): nat {
    sequence * 256 + kind
  }

  function InternalKey(userKey: ByteSeq, sequence: nat, kind: nat): (k: ByteSeq)
    ensures |k| == |userKey| + 8
  {
    userKey + Fixed(8, Pack(sequence, kind))
  }

  /** The user key, then 256 times the sequence number plus the type in eight bytes, the least significant first. */
  lemma InternalKeyBytes(userKey: ByteSeq, sequence: nat, kind: nat)
    ensures var k := InternalKey(userKey, sequence, kind);
      && k[..|userKey|] == userKey
      && forall i :: 0 <= i < 8 ==> k[|userKey| + i] == (256 * sequence + kind) / Pow256(i) % 256
  {
    forall i | 0 <= i < 8 ensures Fixed(8, Pack(sequence, kind))[i] == (256 * sequence + kind) / Pow256(i) % 256 {
      FixedBytes(8, Pack(sequence, kind), i);
    }
    hide Fixed;
  }

  /** ExtractUserKey; an internal key has at least eight bytes. */
  function UserKey(key: ByteSeq): ByteSeq {
    if |key| >= 8 then key[..|key| - 8] else []
  }

  function Tag(key: ByteSeq): nat {
    if |key| >= 8 then FromFixed(key[|key| - 8..]) else 0
  }

  /** InternalKeyComparator::Compare: increasing user keys, then decreasing tags; 1 also for equal tags. */
  function InternalCompare(cmp: (ByteSeq, ByteSeq) -> int, a: ByteSeq, b: ByteSeq): int {
    var r := cmp(UserKey(a), UserKey(b));
    if r == 0 then if Tag(a) > Tag(b) then -1 else 1 else r
  }

  lemma PackFits(sequence: nat, kind: nat)
    requires sequence <= MAX_SEQUENCE && kind <= 255
    ensures Pack(sequence, kind) < Pow256(8)
    ensures Pack(sequence, kind) / 256 == sequence && Pack(sequence, kind) % 256 == kind
  {
    hide Pow256;
    PowersOf256();
  }

  /** An internal key gives back its three parts. */
  lemma InternalKeyParts(userKey: ByteSeq, sequence: nat, kind: nat)
    requires sequence <= MAX_SEQUENCE && kind <= 255
    ensures var k := InternalKey(userKey, sequence, kind);
      UserKey(k) == userKey && Tag(k) == Pack(sequence, kind) && Tag(k) / 256 == sequence && Tag(k) % 256 == kind
  {
    hide Fixed, FromFixed, Pow256;
    PackFits(sequence, kind);
    PowersOf256();
    var k := InternalKey(userKey, sequence, kind);
    assert k[..|k| - 8] == userKey && k[|k| - 8..] == Fixed(8, Pack(sequence, kind));
    Fixed64RoundTrip(Pack(sequence, kind));
  }

  // ---------- separators and successors ----------

  predicate InternalBefore(cmp: (ByteSeq, ByteSeq) -> int, a: ByteSeq, b: ByteSeq) {
    InternalCompare(cmp, a, b) < 0
  }

  /** For a user comparator that orders byte strings, with the bytewise separator. */
  method FindShortestSeparator(cmp: (ByteSeq, ByteSeq) -> int, start: ByteSeq, limit: ByteSeq) returns (result: ByteSeq)
    requires OrdersBytes(cmp) && |start| >= 8 && |limit| >= 8
    ensures result != start ==>
      InternalBefore(cmp, start, result) && InternalBefore(cmp, result, limit) && 8 <= |result| < |start|
    // It is changed exactly if the user keys can be separated before the last byte of the first one.
    ensures result != start <==> exists d: nat :: Separates(UserKey(start), UserKey(limit), d) && d < |start| - 9
    // Then it has the user key up to that byte, which is raised, the greatest sequence number and type 1.
    ensures result != start ==> Tag(result) == 0xFF_FFFF_FFFF_FFFF * 256 + 1
    ensures forall d: nat :: Separates(UserKey(start), UserKey(limit), d) && d < |start| - 9 ==>
      UserKey(result) == UserKey(start)[..d] + [UserKey(start)[d] + 1]
  {
    hide OrdersBytes, InternalKey;
    var userStart, userLimit := UserKey(start), UserKey(limit);
    result := start;
    var tmp := Comparator.FindShortestSeparator(userStart, userLimit);
    if |tmp| < |userStart| && cmp(userStart, tmp) < 0 {
      result := InternalKey(tmp, MAX_SEQUENCE, TYPE_FOR_SEEK);
      InternalKeyParts(tmp, MAX_SEQUENCE, TYPE_FOR_SEEK);
      ByUserKey(cmp, start, result);
      ByUserKey(cmp, result, limit);
    }
    OrdersThese(cmp, userStart, tmp);
  }

  lemma OrdersThese(cmp: (ByteSeq, ByteSeq) -> int, a: ByteSeq, b: ByteSeq)
    requires OrdersBytes(cmp)
    ensures cmp(a, b) < 0 <==> Before(a, b)
  {
  }

  lemma ByUserKey(cmp: (ByteSeq, ByteSeq) -> int, a: ByteSeq, b: ByteSeq)
    requires OrdersBytes(cmp) && Before(UserKey(a), UserKey(b))
    ensures InternalBefore(cmp, a, b)
  {
  }

  method FindShortSuccessor(cmp: (ByteSeq, ByteSeq) -> int, key: ByteSeq) returns (result: ByteSeq)
    requires OrdersBytes(cmp) && |key| >= 8
    ensures result != key ==> InternalBefore(cmp, key, result) && 8 <= |result| < |key|
    // It is changed exactly if a byte that can be raised comes before the last one of the user key.
    ensures result != key <==> exists i :: 0 <= i < |key| - 9 && key[i] != 0xFF
    // Then it has the user key up to the first such byte, which is raised, the greatest sequence number and type 1.
    ensures result != key ==> Tag(result) == 0xFF_FFFF_FFFF_FFFF * 256 + 1
    ensures forall i: nat :: Raisable(UserKey(key), i) && i < |key| - 9 ==>
      UserKey(result) == UserKey(key)[..i] + [UserKey(key)[i] + 1]
  {
    hide OrdersBytes, InternalKey;
    var userKey := UserKey(key);
    result := key;
    var tmp := Comparator.FindShortSuccessor(userKey);
    assert forall i :: 0 <= i < |key| - 8 ==> userKey[i] == key[i];
    if |tmp| < |userKey| && cmp(userKey, tmp) < 0 {
      result := InternalKey(tmp, MAX_SEQUENCE, TYPE_FOR_SEEK);
      InternalKeyParts(tmp, MAX_SEQUENCE, TYPE_FOR_SEEK);
      ByUserKey(cmp, key, result);
    } else if tmp != userKey {
      OrdersThese(cmp, userKey, tmp);
    }
  }

  // ---------- lookup keys ----------

  /** LookupKey's memtable_key; its internal_key is what follows the length, its user_key that without the tag. */
  function LookupKey(userKey: ByteSeq, sequence: nat): ByteSeq
    requires |userKey| + 8 < UINT32
  {
    EncodeVarint32(|userKey| + 8) + InternalKey(userKey, sequence, TYPE_FOR_SEEK)
  }
}

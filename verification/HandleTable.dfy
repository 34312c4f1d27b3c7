/** The chained hash table of src/cache/cache.cpp, in place: buckets are linked through the entries. */
module HandleTable {
  import opened Arithmetic
  import opened Bytes

  /** LRUHandle: an entry of the cache.  The value stands for the value and its deleter. */
  class Handle {
    const key: ByteSeq
    const hash: nat
    const value: int
    const charge: nat
    var nextHash: Handle?
    var next: Handle?
    var prev: Handle?
    var inCache: bool
    var refs: nat

    constructor (key: ByteSeq, hash: nat, value: int, charge: nat)
      ensures this.key == key && this.hash == hash && this.value == value && this.charge == charge
      ensures nextHash == null && next == null && prev == null && !inCache && refs == 1
    {
      this.key, this.hash, this.value, this.charge := key, hash, value, charge;
      nextHash, next, prev := null, null, null;
      inCache, refs := false, 1;
    }
  }

  /** Entries are told apart by hash and key. */
  predicate Matches(h: Handle, key: ByteSeq, hash: nat) {
    h.hash == hash && h.key == key
  }

  predicate SameId(a: Handle, b: Handle) {
    Matches(a, b.key, b.hash)
  }

  // ---------- hash & (length - 1) ----------

  /** Bitwise and. */
  function And(x: nat, y: nat): nat
    decreases y
  {
    if y == 0 then 0 else 2 * And(x / 2, y / 2) + (x % 2) * (y % 2)
  }

  predicate PowerOfTwo(n: nat) {
    n == 1 || (n > 1 && n % 2 == 0 && PowerOfTwo(n / 2))
  }

  lemma {:induction false} MaskIsModulo(x: nat, n: nat)
    requires PowerOfTwo(n)
    ensures And(x, n - 1) == x % n
    decreases n
  {
    if n > 1 {
      MaskIsModulo(x / 2, n / 2);
      assert (n - 1) / 2 == n / 2 - 1 && (n - 1) % 2 == 1;
      ModByBits(x, n / 2);
    }
  }

  /** The bucket of a hash. */
  function Slot(hash: nat, length: nat): (b: nat)
    requires length > 0
    ensures b < length
  {
    hash % length
  }

  // ---------- chains ----------

  function At(q: seq<Handle>, k: nat): Handle? {
    if k < |q| then q[k] else null
  }

  /** The entries of q are linked through next_hash, starting at head. */
  ghost predicate Chain(head: Handle?, q: seq<Handle>)
    reads q`nextHash
  {
    head == At(q, 0) && forall k :: 0 <= k < |q| ==> q[k].nextHash == At(q, k + 1)
  }

  /** No two entries of a table have the same key and hash. */
  ghost predicate UniqueIds(entries: set<Handle>) {
    forall x, y :: x in entries && y in entries && SameId(x, y) ==> x == y
  }

  /** Which entries the buckets hold, and where. */
  ghost predicate Holds(buckets: seq<seq<Handle>>, entries: set<Handle>) {
    && |buckets| > 0
    && (forall b, k :: 0 <= b < |buckets| && 0 <= k < |buckets[b]| ==>
          buckets[b][k] in entries && Slot(buckets[b][k].hash, |buckets|) == b)
    && (forall h :: h in entries ==> h in buckets[Slot(h.hash, |buckets|)])
    && (forall b :: 0 <= b < |buckets| ==> Distinct(buckets[b]))
  }

  lemma NotInBucket(buckets: seq<seq<Handle>>, entries: set<Handle>, key: ByteSeq, hash: nat)
    requires Holds(buckets, entries)
    requires forall j :: 0 <= j < |buckets[Slot(hash, |buckets|)]| ==> !Matches(buckets[Slot(hash, |buckets|)][j], key, hash)
    ensures forall h :: h in entries ==> !Matches(h, key, hash)
  {
    forall h | h in entries ensures !Matches(h, key, hash) {
      assert h in buckets[Slot(h.hash, |buckets|)];
    }
  }

  /** The loop of FindPointer. */
  method FindInChain(head: Handle?, key: ByteSeq, hash: nat, ghost q: seq<Handle>) returns (pred: Handle?,
                     cur: Handle?, ghost k: nat)
    requires Chain(head, q)
    ensures k <= |q| && cur == At(q, k) && pred == (if k == 0 then null else q[k - 1])
    ensures cur != null ==> Matches(cur, key, hash)
    ensures cur == null ==> forall j :: 0 <= j < |q| ==> !Matches(q[j], key, hash)
  {
    pred, cur, k := null, head, 0;
    while cur != null && (cur.hash != hash || key != cur.key)
      invariant k <= |q| && cur == At(q, k) && pred == (if k == 0 then null else q[k - 1])
      invariant forall j :: 0 <= j < k ==> !Matches(q[j], key, hash)
      decreases |q| - k
    {
      pred := cur;
      cur := cur.nextHash;
      k := k + 1;
    }
  }

  /** The array's slots are the heads of the buckets. */
  ghost predicate Chains(list: array<Handle?>, buckets: seq<seq<Handle>>, entries: set<Handle>)
    reads list, entries`nextHash
  {
    && |buckets| == list.Length
    && (forall b, k :: 0 <= b < |buckets| && 0 <= k < |buckets[b]| ==> buckets[b][k] in entries)
    && (forall b :: 0 <= b < |buckets| ==> Chain(list[b], buckets[b]))
  }

  // ---------- what the table does to its buckets ----------

  /** Bucket b with position k replaced by, or extended with, h. */
  function Put(q: seq<Handle>, k: nat, h: Handle): seq<Handle>
    requires k <= |q|
  {
    if k < |q| then q[k := h] else q + [h]
  }

  function Cut(q: seq<Handle>, k: nat): seq<Handle>
    requires k < |q|
  {
    q[..k] + q[k + 1..]
  }

  lemma HoldsPut(buckets: seq<seq<Handle>>, entries: set<Handle>, b: nat, k: nat, h: Handle)
    requires Holds(buckets, entries) && h !in entries && b == Slot(h.hash, |buckets|) && k <= |buckets[b]|
    ensures var gone := if k < |buckets[b]| then {buckets[b][k]} else {};
      Holds(buckets[b := Put(buckets[b], k, h)], entries - gone + {h})
  {
    var q := buckets[b];
    var gone := if k < |q| then {q[k]} else {};
    var after := buckets[b := Put(q, k, h)];
    forall x | x in entries - gone + {h} ensures x in after[Slot(x.hash, |after|)] {
      if x == h {
        assert after[b][k] == h;
      } else if Slot(x.hash, |buckets|) == b {
        var j :| 0 <= j < |q| && q[j] == x;
        assert after[b][j] == x;
      }
    }
  }

  lemma HoldsCut(buckets: seq<seq<Handle>>, entries: set<Handle>, b: nat, k: nat)
    requires Holds(buckets, entries) && b < |buckets| && k < |buckets[b]|
    ensures Holds(buckets[b := Cut(buckets[b], k)], entries - {buckets[b][k]})
  {
    var q := buckets[b];
    var after := buckets[b := Cut(q, k)];
    forall x | x in entries - {q[k]} ensures x in after[Slot(x.hash, |after|)] {
      if Slot(x.hash, |buckets|) == b {
        var j :| 0 <= j < |q| && q[j] == x;
        assert after[b][if j < k then j else j - 1] == x;
      }
    }
  }

  function Only(h: Handle?): set<Handle> {
    if h == null then {} else {h}
  }

  /** Takes h out of its chain: whatever pointed to it now points past it. */
  method CutChain(list: array<Handle?>, b: nat, pred: Handle?, h: Handle, ghost q: seq<Handle>, ghost k: nat)
    requires b < list.Length && Chain(list[b], q) && Distinct(q)
    requires k < |q| && h == q[k] && pred == (if k == 0 then null else q[k - 1])
    modifies list, Only(pred)`nextHash
    ensures Chain(list[b], Cut(q, k)) && forall c :: 0 <= c < list.Length && c != b ==> list[c] == old(list[c])
  {
    if pred == null {
      list[b] := h.nextHash;
    } else {
      pred.nextHash := h.nextHash;
    }
  }

  /** Puts h in the place of the entry found, or at the end of the chain. */
  method PutChain(list: array<Handle?>, b: nat, pred: Handle?, h: Handle, cur: Handle?, ghost q: seq<Handle>, ghost k: nat)
    requires b < list.Length && Chain(list[b], q) && Distinct(q) && h !in q
    requires k <= |q| && cur == At(q, k) && pred == (if k == 0 then null else q[k - 1])
    modifies list, Only(pred)`nextHash, h`nextHash
    ensures Chain(list[b], Put(q, k, h)) && forall c :: 0 <= c < list.Length && c != b ==> list[c] == old(list[c])
  {
    h.nextHash := if cur == null then null else cur.nextHash;
    if pred == null {
      list[b] := h;
    } else {
      pred.nextHash := h;
    }
  }

  lemma HoldsPush(buckets: seq<seq<Handle>>, entries: set<Handle>, b: nat, h: Handle)
    requires Holds(buckets, entries) && h !in entries && b == Slot(h.hash, |buckets|)
    ensures Holds(buckets[b := [h] + buckets[b]], entries + {h})
  {
    var q := buckets[b];
    var after := buckets[b := [h] + q];
    forall x | x in entries + {h} ensures x in after[Slot(x.hash, |after|)] {
      if x == h {
        assert after[b][0] == h;
      } else if Slot(x.hash, |buckets|) == b {
        var j :| 0 <= j < |q| && q[j] == x;
        assert after[b][j + 1] == x;
      }
    }
  }

  /** h at the front of its bucket. */
  function Pushed(buckets: seq<seq<Handle>>, h: Handle): seq<seq<Handle>>
    requires |buckets| > 0
  {
    var b := Slot(h.hash, |buckets|);
    buckets[b := [h] + buckets[b]]
  }

  method PushChain(list: array<Handle?>, b: nat, h: Handle, ghost q: seq<Handle>)
    requires b < list.Length && Chain(list[b], q) && h !in q
    modifies list, h`nextHash
    ensures Chain(list[b], [h] + q) && forall c :: 0 <= c < list.Length && c != b ==> list[c] == old(list[c])
  {
    h.nextHash := list[b];
    list[b] := h;
  }

  /** The body of Resize's inner loop: an entry goes to the front of its new bucket. */
  method MoveEntry(newList: array<Handle?>, h: Handle, ghost buckets: seq<seq<Handle>>, ghost moved: set<Handle>)
    requires PowerOfTwo(newList.Length) && Chains(newList, buckets, moved) && Holds(buckets, moved) && h !in moved
    modifies newList, h`nextHash
    ensures Chains(newList, Pushed(buckets, h), moved + {h}) && Holds(Pushed(buckets, h), moved + {h})
  {
    hide PowerOfTwo, Chain, Distinct, And;
    MaskIsModulo(h.hash, newList.Length);
    var b := And(h.hash, newList.Length - 1);
    HoldsPush(buckets, moved, b, h);
    ElsewhereNot(buckets, moved, b, h);
    assert Chain(newList[b], buckets[b]);
    PushChain(newList, b, h, buckets[b]);
  }

  /** What Resize has still to move: the old buckets from i on ... */
  ghost predicate Rest(list: array<Handle?>, buckets: seq<seq<Handle>>, entries: set<Handle>, i: nat)
    reads list, entries`nextHash
  {
    && |buckets| == list.Length
    && (forall b, j :: 0 <= b < |buckets| && 0 <= j < |buckets[b]| ==> buckets[b][j] in entries)
    && (forall b :: i <= b < |buckets| ==> Chain(list[b], buckets[b]))
  }

  /** ... and, within a bucket, the entries from position k on. */
  ghost predicate Tail(q: seq<Handle>)
    reads q`nextHash
  {
    forall j :: 0 <= j < |q| ==> q[j].nextHash == At(q, j + 1)
  }

  /** Exactly the entries before bucket i, and those of bucket i before position k, have moved. */
  ghost predicate MovedUpTo(buckets: seq<seq<Handle>>, moved: set<Handle>, i: nat, k: nat) {
    forall b, j :: 0 <= b < |buckets| && 0 <= j < |buckets[b]| ==> (buckets[b][j] in moved <==> b < i || (b == i && j < k))
  }

  lemma MovedOne(buckets: seq<seq<Handle>>, entries: set<Handle>, moved: set<Handle>, i: nat, k: nat)
    requires Holds(buckets, entries) && MovedUpTo(buckets, moved, i, k) && i < |buckets| && k < |buckets[i]|
    ensures buckets[i][k] !in moved && MovedUpTo(buckets, moved + {buckets[i][k]}, i, k + 1)
    ensures forall b :: 0 <= b < |buckets| && b != i ==> buckets[i][k] !in buckets[b]
    ensures forall j :: 0 <= j < |buckets[i]| && j != k ==> buckets[i][j] != buckets[i][k]
  {
    var h := buckets[i][k];
    assert Distinct(buckets[i]);
    forall b, j | 0 <= b < |buckets| && 0 <= j < |buckets[b]| && b != i ensures buckets[b][j] != h {
      assert Slot(buckets[b][j].hash, |buckets|) == b;
    }
  }

  lemma BucketDone(buckets: seq<seq<Handle>>, moved: set<Handle>, i: nat)
    requires i < |buckets| && MovedUpTo(buckets, moved, i, |buckets[i]|)
    ensures MovedUpTo(buckets, moved, i + 1, 0)
  {
  }

  /** The first loop of Resize. */
  method NewLength(elems: nat) returns (newLength: nat)
    ensures PowerOfTwo(newLength) && newLength >= elems && newLength >= 4 && (newLength == 4 || newLength < 2 * elems)
  {
    hide PowerOfTwo;
    FourIsPower();
    newLength := 4;
    while newLength < elems
      invariant PowerOfTwo(newLength) && newLength >= 4 && (newLength == 4 || newLength < 2 * elems)
    {
      DoubleIsPower(newLength);
      newLength := newLength * 2;
    }
  }

  lemma FourIsPower()
    ensures PowerOfTwo(4)
  {
    assert PowerOfTwo(2);
  }

  lemma DoubleIsPower(n: nat)
    requires PowerOfTwo(n)
    ensures PowerOfTwo(n * 2)
  {
    assert n * 2 / 2 == n;
  }

  /** Resize in bucket i, with its first k entries moved into the new buckets `nb`. */
  ghost predicate Moving(list: array<Handle?>, newList: array<Handle?>, buckets: seq<seq<Handle>>, entries: set<Handle>,
                         nb: seq<seq<Handle>>, moved: set<Handle>, i: nat, k: nat)
    reads list, newList, entries`nextHash, moved`nextHash
  {
    && list != newList && i < list.Length == |buckets| && k <= |buckets[i]| && PowerOfTwo(newList.Length)
    && Holds(buckets, entries) && Rest(list, buckets, entries, i + 1) && Tail(buckets[i][k..])
    && MovedUpTo(buckets, moved, i, k) && moved <= entries && Chains(newList, nb, moved) && Holds(nb, moved)
  }

  /** One turn of Resize's inner loop. */
  method MoveNext(list: array<Handle?>, newList: array<Handle?>, i: nat, ghost k: nat, h: Handle,
                  ghost buckets: seq<seq<Handle>>,
                  ghost entries: set<Handle>, ghost nb0: seq<seq<Handle>>, ghost moved0: set<Handle>)
    returns (next: Handle?, ghost nb: seq<seq<Handle>>, ghost moved: set<Handle>)
    requires Moving(list, newList, buckets, entries, nb0, moved0, i, k)
    requires At(buckets[i], k) == h
    modifies newList, entries`nextHash
    ensures Moving(list, newList, buckets, entries, nb, moved, i, k + 1)
    ensures next == At(buckets[i], k + 1) && |moved| == |moved0| + 1
  {
    MoveNextReady(list, newList, buckets, entries, nb0, moved0, i, k);
    hide Moving, PowerOfTwo, Chain, Tail, Holds, Chains, MovedUpTo, Pushed;
    next := h.nextHash;
    nb, moved := Pushed(nb0, h), moved0 + {h};
    MoveEntry(newList, h, nb0, moved0);
    MovingFrom(list, newList, buckets, entries, nb, moved, i, k + 1);
  }

  lemma MoveNextReady(list: array<Handle?>, newList: array<Handle?>, buckets: seq<seq<Handle>>, entries: set<Handle>,
                      nb: seq<seq<Handle>>, moved: set<Handle>, i: nat, k: nat)
    requires Moving(list, newList, buckets, entries, nb, moved, i, k) && k < |buckets[i]|
    ensures list != newList && |nb| > 0 && PowerOfTwo(newList.Length) && Holds(buckets, entries) && moved <= entries
    ensures Chains(newList, nb, moved) && Holds(nb, moved)
    ensures var h := buckets[i][k];
      && h in entries && h !in moved && h.nextHash == At(buckets[i], k + 1) && MovedUpTo(buckets, moved + {h}, i, k + 1)
      && Tail(buckets[i][k + 1..]) && h !in buckets[i][k + 1..]
      && forall b :: i + 1 <= b < |buckets| ==> Chain(list[b], buckets[b]) && h !in buckets[b]
  {
    hide PowerOfTwo, Chain, Chains, MovedUpTo;
    MovedOne(buckets, entries, moved, i, k);
    TailOne(buckets[i], k);
  }

  lemma TailOne(q: seq<Handle>, k: nat)
    requires k < |q| && Tail(q[k..])
    ensures q[k].nextHash == At(q, k + 1) && Tail(q[k + 1..])
  {
    var t, r := q[k..], q[k + 1..];
    assert q[k] == t[0];
    forall j | 0 <= j < |r| ensures r[j].nextHash == At(r, j + 1) {
      assert r[j] == t[j + 1];
    }
  }

  lemma MovingFrom(list: array<Handle?>, newList: array<Handle?>, buckets: seq<seq<Handle>>, entries: set<Handle>,
                   nb: seq<seq<Handle>>, moved: set<Handle>, i: nat, k: nat)
    requires list != newList && i < list.Length == |buckets| && k <= |buckets[i]| && PowerOfTwo(newList.Length)
    requires Holds(buckets, entries) && moved <= entries && MovedUpTo(buckets, moved, i, k) && Tail(buckets[i][k..])
    requires forall b :: i + 1 <= b < |buckets| ==> Chain(list[b], buckets[b])
    requires Chains(newList, nb, moved) && Holds(nb, moved)
    ensures Moving(list, newList, buckets, entries, nb, moved, i, k)
  {
    hide PowerOfTwo, Chain, Tail, Chains, MovedUpTo, Distinct;
  }

  method EmptyList(length: nat) returns (list: array<Handle?>)
    ensures fresh(list) && list.Length == length && forall b :: 0 <= b < length ==> list[b] == null
  {
    list := new Handle?[length](i => null);
  }

  /** One turn of Resize's outer loop. */
  method MoveBucket(list: array<Handle?>, newList: array<Handle?>, i: nat, ghost buckets: seq<seq<Handle>>,
                    ghost entries: set<Handle>,
                    ghost nb0: seq<seq<Handle>>, ghost moved0: set<Handle>)
    returns (n: nat, ghost nb: seq<seq<Handle>>, ghost moved: set<Handle>)
    requires i < list.Length == |buckets| && list[i] == At(buckets[i], 0)
    requires Moving(list, newList, buckets, entries, nb0, moved0, i, 0)
    modifies newList, entries`nextHash
    ensures Moving(list, newList, buckets, entries, nb, moved, i, |buckets[i]|) && |moved| == |moved0| + n
  {
    nb, moved, n := nb0, moved0, 0;
    var h := list[i];
    MovingFacts(list, newList, buckets, entries, nb, moved, i, 0);
    hide Moving;
    while h != null
      invariant n <= |buckets[i]| && h == At(buckets[i], n)
      invariant Moving(list, newList, buckets, entries, nb, moved, i, n) && |moved| == |moved0| + n
      decreases |buckets[i]| - n
    {
      h, nb, moved := MoveNext(list, newList, i, n, h, buckets, entries, nb, moved);
      n := n + 1;
    }
  }

  /** Resize's loops: all entries move to the new table. */
  method MoveAll(list: array<Handle?>, newList: array<Handle?>, ghost buckets: seq<seq<Handle>>, ghost entries: set<Handle>)
    returns (count: nat, ghost nb: seq<seq<Handle>>)
    requires Chains(list, buckets, entries) && Holds(buckets, entries)
    requires PowerOfTwo(newList.Length) && list != newList && forall b :: 0 <= b < newList.Length ==> newList[b] == null
    modifies newList, entries`nextHash
    ensures Chains(newList, nb, entries) && Holds(nb, entries) && count == |entries|
  {
    nb := seq(newList.Length, i => []);
    ghost var moved: set<Handle> := {};
    count := 0;
    StartMoving(list, buckets, entries, newList, nb);
    hide PowerOfTwo, Chains, Holds, Moving;
    for i := 0 to list.Length
      invariant i < list.Length ==> list[i] == At(buckets[i], 0) && Moving(list, newList, buckets, entries, nb, moved, i, 0)
      invariant i == list.Length ==> Moving(list, newList, buckets, entries, nb, moved, i - 1, |buckets[i - 1]|)
      invariant count == |moved|
    {
      var n;
      n, nb, moved := MoveBucket(list, newList, i, buckets, entries, nb, moved);
      count := count + n;
      if i + 1 < list.Length {
        NextBucket(list, newList, buckets, entries, nb, moved, i);
      }
    }
    AllMoved(list, newList, buckets, entries, nb, moved);
  }

  lemma MovingFacts(list: array<Handle?>, newList: array<Handle?>, buckets: seq<seq<Handle>>, entries: set<Handle>,
                    nb: seq<seq<Handle>>, moved: set<Handle>, i: nat, k: nat)
    requires Moving(list, newList, buckets, entries, nb, moved, i, k)
    ensures i < list.Length == |buckets|
  {
  }

  /** From one bucket to the next. */
  lemma NextBucket(list: array<Handle?>, newList: array<Handle?>, buckets: seq<seq<Handle>>, entries: set<Handle>,
                   nb: seq<seq<Handle>>, moved: set<Handle>, i: nat)
    requires i < |buckets| && Moving(list, newList, buckets, entries, nb, moved, i, |buckets[i]|) && i + 1 < list.Length
    ensures Moving(list, newList, buckets, entries, nb, moved, i + 1, 0) && list[i + 1] == At(buckets[i + 1], 0)
  {
    BucketDone(buckets, moved, i);
    hide Holds, MovedUpTo, PowerOfTwo;
    BucketStart(list, buckets, entries, i + 1);
  }

  lemma BucketStart(list: array<Handle?>, buckets: seq<seq<Handle>>, entries: set<Handle>, i: nat)
    requires Rest(list, buckets, entries, i) && i < list.Length
    ensures list[i] == At(buckets[i], 0) && Tail(buckets[i]) && Rest(list, buckets, entries, i + 1)
    ensures forall j :: 0 <= j < |buckets[i]| ==> buckets[i][j] in entries
  {
    assert Chain(list[i], buckets[i]);
  }

  lemma StartMoving(list: array<Handle?>, buckets: seq<seq<Handle>>, entries: set<Handle>,
                    newList: array<Handle?>, nb: seq<seq<Handle>>)
    requires Chains(list, buckets, entries) && Holds(buckets, entries) && list != newList
    requires PowerOfTwo(newList.Length) && newList.Length == |nb|
    requires forall b :: 0 <= b < |nb| ==> nb[b] == [] && newList[b] == null
    ensures |buckets| == list.Length > 0 && list[0] == At(buckets[0], 0)
    ensures Moving(list, newList, buckets, entries, nb, {}, 0, 0)
  {
    hide Distinct;
    assert forall b :: 0 <= b < |nb| ==> Distinct(nb[b]) by { EmptyDistinct(nb); }
    BucketStart(list, buckets, entries, 0);
  }

  lemma EmptyDistinct(nb: seq<seq<Handle>>)
    requires forall b :: 0 <= b < |nb| ==> nb[b] == []
    ensures forall b :: 0 <= b < |nb| ==> Distinct(nb[b])
  {
  }

  lemma AllMoved(list: array<Handle?>, newList: array<Handle?>, buckets: seq<seq<Handle>>, entries: set<Handle>,
                 nb: seq<seq<Handle>>, moved: set<Handle>)
    requires |buckets| > 0 && Moving(list, newList, buckets, entries, nb, moved, |buckets| - 1, |buckets[|buckets| - 1]|)
    ensures moved == entries && Chains(newList, nb, moved) && Holds(nb, moved)
  {
    forall h | h in entries ensures h in moved {
      var b := Slot(h.hash, |buckets|);
      var j :| 0 <= j < |buckets[b]| && buckets[b][j] == h;
      assert buckets[b][j] in moved;
    }
  }

  /** An entry of bucket b is in no other bucket, and an entry outside the table is in none. */
  lemma ElsewhereNot(buckets: seq<seq<Handle>>, entries: set<Handle>, b: nat, x: Handle)
    requires Holds(buckets, entries) && (x in entries ==> Slot(x.hash, |buckets|) == b)
    ensures forall c :: 0 <= c < |buckets| && c != b ==> x !in buckets[c]
  {
  }

  /** Before an edit of bucket b through pred: the chain is there, and pred is in no other bucket. */
  lemma EditFacts(list: array<Handle?>, buckets: seq<seq<Handle>>, entries: set<Handle>, b: nat, k: nat, pred: Handle?)
    requires Chains(list, buckets, entries) && Holds(buckets, entries) && b < |buckets| && k <= |buckets[b]|
    requires pred == (if k == 0 then null else buckets[b][k - 1])
    ensures |buckets| == list.Length && Chain(list[b], buckets[b]) && Distinct(buckets[b])
    ensures pred != null ==> pred in entries
    ensures forall c :: 0 <= c < |buckets| && c != b ==> Chain(list[c], buckets[c]) && pred !in buckets[c]
  {
    if pred != null {
      ElsewhereNot(buckets, entries, b, pred);
    }
  }

  lemma ChainsFrom(list: array<Handle?>, buckets: seq<seq<Handle>>, entries: set<Handle>)
    requires Holds(buckets, entries) && |buckets| == list.Length
    requires forall b :: 0 <= b < |buckets| ==> Chain(list[b], buckets[b])
    ensures Chains(list, buckets, entries)
  {
  }

  method Unlink(list: array<Handle?>, b: nat, pred: Handle?, h: Handle, ghost buckets: seq<seq<Handle>>,
                ghost entries: set<Handle>, ghost k: nat)
    requires Chains(list, buckets, entries) && Holds(buckets, entries) && b < |buckets| && k < |buckets[b]|
    requires h == buckets[b][k] && pred == (if k == 0 then null else buckets[b][k - 1])
    modifies list, entries`nextHash
    ensures var after := buckets[b := Cut(buckets[b], k)]; Chains(list, after, entries - {h}) && Holds(after, entries - {h})
  {
    hide Chain, Chains, Distinct, Holds, Slot, Cut;
    HoldsCut(buckets, entries, b, k);
    EditFacts(list, buckets, entries, b, k, pred);
    CutChain(list, b, pred, h, buckets[b], k);
    ChainsFrom(list, buckets[b := Cut(buckets[b], k)], entries - {h});
  }

  method Relink(list: array<Handle?>, b: nat, pred: Handle?, h: Handle, cur: Handle?,
                ghost buckets: seq<seq<Handle>>, ghost entries: set<Handle>, ghost k: nat)
    requires Chains(list, buckets, entries) && Holds(buckets, entries) && b == Slot(h.hash, |buckets|) && k <= |buckets[b]|
    requires h !in entries && cur == At(buckets[b], k) && pred == (if k == 0 then null else buckets[b][k - 1])
    modifies list, entries`nextHash, h`nextHash
    ensures var after, now := buckets[b := Put(buckets[b], k, h)], entries - Only(cur) + {h};
      Chains(list, after, now) && Holds(after, now)
  {
    hide Chain, Chains, Distinct, Holds, Slot, Put;
    HoldsPut(buckets, entries, b, k, h);
    EditFacts(list, buckets, entries, b, k, pred);
    NotInBuckets(buckets, entries, h);
    PutChain(list, b, pred, h, cur, buckets[b], k);
    assert Only(cur) == if k < |buckets[b]| then {buckets[b][k]} else {};
    ChainsFrom(list, buckets[b := Put(buckets[b], k, h)], entries - Only(cur) + {h});
  }

  lemma NotInBuckets(buckets: seq<seq<Handle>>, entries: set<Handle>, h: Handle)
    requires Holds(buckets, entries) && h !in entries
    ensures forall c :: 0 <= c < |buckets| ==> h !in buckets[c]
  {
  }

  class Table {
    var list: array<Handle?>     // list_, of length length_
    var elems: nat               // elems_
    ghost var buckets: seq<seq<Handle>>
    ghost var entries: set<Handle>

    ghost predicate Valid()
      reads this`list, this`elems, this`buckets, this`entries, list, entries`nextHash
    {
      && PowerOfTwo(list.Length) && elems == |entries| <= list.Length
      && Chains(list, buckets, entries) && Holds(buckets, entries) && UniqueIds(entries)
    }

    lemma TableFacts()
      requires Valid()
      ensures |buckets| == list.Length > 0 && PowerOfTwo(list.Length) && elems == |entries| <= list.Length
      ensures Chains(list, buckets, entries) && Holds(buckets, entries) && UniqueIds(entries)
    {
    }

    lemma BucketChain(b: nat)
      requires Valid() && b < list.Length
      ensures Holds(buckets, entries)
      ensures |buckets| == list.Length > 0 && PowerOfTwo(list.Length) && Chain(list[b], buckets[b])
      ensures forall k {:trigger At(buckets[b], k)} {:trigger buckets[b][k]} :: 0 <= k < |buckets[b]| ==> buckets[b][k] in entries
    {
    }

    /** FindPointer: the bucket, and the entry found with its predecessor in the chain.  The pointer the
        program returns is to the bucket's head when there is no predecessor, else to its next_hash. */
    method FindPointer(key: ByteSeq, hash: nat) returns (b: nat, pred: Handle?, cur: Handle?, ghost k: nat)
      requires Valid()
      ensures b == hash % list.Length < |buckets| && k <= |buckets[b]| && cur == At(buckets[b], k)
      ensures pred == if k == 0 then null else buckets[b][k - 1]
      ensures cur != null ==> cur in entries && Matches(cur, key, hash)
      ensures cur == null ==> forall h :: h in entries ==> !Matches(h, key, hash)
    {
      hide And, PowerOfTwo, Chain, UniqueIds, Chains, Holds, Matches;
      TableFacts();
      MaskIsModulo(hash, list.Length);
      b := And(hash, list.Length - 1);
      BucketChain(b);
      pred, cur, k := FindInChain(list[b], key, hash, buckets[b]);
      if cur == null {
        NotInBucket(buckets, entries, key, hash);
      }
    }

    method Lookup(key: ByteSeq, hash: nat) returns (h: Handle?)
      requires Valid()
      ensures h != null ==> h in entries && Matches(h, key, hash)
      ensures h == null ==> forall e :: e in entries ==> !Matches(e, key, hash)
    {
      var b, pred, cur, k := FindPointer(key, hash);
      h := cur;
    }

    /** Valid, but for the load: what Insert leaves when it calls Resize. */
    ghost predicate Core()
      reads this`list, this`elems, this`buckets, this`entries, list, entries`nextHash
    {
      && PowerOfTwo(list.Length) && elems == |entries|
      && Chains(list, buckets, entries) && Holds(buckets, entries) && UniqueIds(entries)
    }

    lemma CoreFrom()
      requires PowerOfTwo(list.Length) && elems == |entries|
      requires Chains(list, buckets, entries) && Holds(buckets, entries) && UniqueIds(entries)
      ensures Core()
      ensures elems <= list.Length ==> Valid()
    {
    }

    /** Resize: the same entries in a table at least as long as their number. */
    method Resize()
      requires Core()
      modifies this, entries`nextHash
      ensures Valid() && fresh(list) && entries == old(entries) && elems == old(elems)
      ensures 4 <= list.Length && elems <= list.Length && (list.Length == 4 || list.Length < 2 * elems)
    {
      var newLength := NewLength(elems);
      var newList := EmptyList(newLength);
      hide PowerOfTwo, Chain, UniqueIds, Holds, Chains;
      var count;
      ghost var nb;
      count, nb := MoveAll(list, newList, buckets, entries);
      assert elems == count;
      list, buckets := newList, nb;
      hide Core, Valid;
      CoreFrom();
    }

    /** Remove: unlinks the entry with the key and hash, if there is one. */
    method Remove(key: ByteSeq, hash: nat) returns (result: Handle?)
      requires Valid()
      modifies this, list, entries`nextHash
      ensures Valid() && list == old(list)
      ensures result != null ==> result in old(entries) && Matches(result, key, hash) && entries == old(entries) - {result}
      ensures result == null ==> entries == old(entries) && forall h :: h in entries ==> !Matches(h, key, hash)
    {
      hide PowerOfTwo, Chain, Distinct, Matches, Chains, Holds, Cut;
      var b, pred, cur, k := FindPointer(key, hash);
      result := cur;
      if result != null {
        TableFacts();
        Unlink(list, b, pred, result, buckets, entries, k);
        buckets := buckets[b := Cut(buckets[b], k)];
        entries := entries - {result};
        elems := elems - 1;
      }
    }

    /** Insert, up to the check of the load. */
    method InsertInBucket(h: Handle) returns (replaced: Handle?)
      requires Valid() && h !in entries
      modifies this, list, entries`nextHash, h`nextHash
      ensures Core() && list == old(list) && elems == old(elems) + (if replaced == null then 1 else 0)
      ensures replaced == null || elems <= list.Length
      ensures replaced != null ==>
        replaced in old(entries) && SameId(replaced, h) && entries == old(entries) - {replaced} + {h}
      ensures replaced == null ==> entries == old(entries) + {h} && forall e :: e in old(entries) ==> !SameId(e, h)
    {
      hide PowerOfTwo, Chain, Distinct, Matches, Chains, Holds, Put;
      var b, pred, cur, k := FindPointer(h.key, h.hash);
      replaced := cur;
      TableFacts();
      Relink(list, b, pred, h, cur, buckets, entries, k);
      StillUnique(entries, replaced, h);
      buckets := buckets[b := Put(buckets[b], k, h)];
      entries := entries - Only(replaced) + {h};
      if replaced == null {
        elems := elems + 1;
      }
    }

    lemma ValidUnlessFull()
      requires Core() && elems <= list.Length
      ensures Valid()
    {
    }

    /** Insert: the entry takes the place of the one with its key and hash, if there is one; else it is
        added, and the table grows when it holds more entries than buckets. */
    method Insert(h: Handle) returns (replaced: Handle?)
      requires Valid() && h !in entries
      modifies this, list, entries`nextHash, h`nextHash
      ensures Valid() && (list == old(list) || fresh(list))
      ensures replaced != null ==>
        replaced in old(entries) && SameId(replaced, h) && entries == old(entries) - {replaced} + {h}
      ensures replaced == null ==> entries == old(entries) + {h} && forall e :: e in old(entries) ==> !SameId(e, h)
      // It grows exactly when there are more entries than buckets, to the least power of two that suffices.
      ensures list == old(list) <==> replaced != null || old(elems) < old(list.Length)
      ensures list != old(list) ==> elems <= list.Length && 4 <= list.Length && (list.Length == 4 || list.Length < 2 * elems)
    {
      replaced := InsertInBucket(h);
      hide *;
      if replaced == null && elems > list.Length {
        Resize();
      } else {
        ValidUnlessFull();
      }
    }

    constructor ()
      ensures Valid() && fresh(list) && entries == {}
    {
      var l := new Handle?[4](i => null);
      list, elems := l, 0;
      buckets, entries := [[], [], [], []], {};
      new;
      EmptyTable(buckets);
    }
  }

  lemma EmptyTable(buckets: seq<seq<Handle>>)
    requires buckets == [[], [], [], []]
    ensures Holds(buckets, {}) && PowerOfTwo(4)
  {
    EmptyDistinct(buckets);
    assert PowerOfTwo(2);
  }

  lemma StillUnique(entries: set<Handle>, replaced: Handle?, h: Handle)
    requires UniqueIds(entries)
    requires replaced != null ==> replaced in entries && SameId(replaced, h)
    requires replaced == null ==> forall e :: e in entries ==> !SameId(e, h)
    ensures UniqueIds(entries - Only(replaced) + {h})
  {
  }

  // ---------- the table as a finite map ----------

  ghost function Ids(entries: set<Handle>): set<(ByteSeq, nat)> {
    set h | h in entries :: (h.key, h.hash)
  }

  ghost function EntryOf(entries: set<Handle>, id: (ByteSeq, nat)): (h: Handle)
    requires id in Ids(entries)
    ensures h in entries && Matches(h, id.0, id.1)
  {
    var h :| h in entries && Matches(h, id.0, id.1);
    h
  }

  /** The map from key and hash to entry that a table stands for. */
  ghost function AsMap(entries: set<Handle>): (m: map<(ByteSeq, nat), Handle>)
    requires UniqueIds(entries)
    ensures forall h :: h in entries ==> (h.key, h.hash) in m && m[(h.key, h.hash)] == h
    ensures forall id :: id in m ==> m[id] in entries && Matches(m[id], id.0, id.1)
  {
    map id | id in Ids(entries) :: EntryOf(entries, id)
  }

  /** What Insert does to the entries is a map update, and what Remove does is the removal of a key. */
  lemma TableRefinesMap(entries: set<Handle>, h: Handle)
    requires UniqueIds(entries) && h !in entries
    ensures forall was | was in entries && SameId(was, h) ::
      UniqueIds(entries - {was} + {h}) && AsMap(entries - {was} + {h}) == AsMap(entries)[(h.key, h.hash) := h]
    ensures (forall e :: e in entries ==> !SameId(e, h)) ==>
      UniqueIds(entries + {h}) && AsMap(entries + {h}) == AsMap(entries)[(h.key, h.hash) := h]
    ensures forall e | e in entries ::
      UniqueIds(entries - {e}) && AsMap(entries - {e}) == AsMap(entries) - {(e.key, e.hash)}
  {
    forall was | was in entries && SameId(was, h)
      ensures UniqueIds(entries - {was} + {h}) && AsMap(entries - {was} + {h}) == AsMap(entries)[(h.key, h.hash) := h]
    {
      SameMap(AsMap(entries - {was} + {h}), AsMap(entries)[(h.key, h.hash) := h], entries - {was} + {h});
    }
    if forall e :: e in entries ==> !SameId(e, h) {
      SameMap(AsMap(entries + {h}), AsMap(entries)[(h.key, h.hash) := h], entries + {h});
    }
    forall e | e in entries ensures UniqueIds(entries - {e}) && AsMap(entries - {e}) == AsMap(entries) - {(e.key, e.hash)} {
      SameMap(AsMap(entries - {e}), AsMap(entries) - {(e.key, e.hash)}, entries - {e});
    }
  }

  lemma SameMap(a: map<(ByteSeq, nat), Handle>, b: map<(ByteSeq, nat), Handle>, entries: set<Handle>)
    requires forall h :: h in entries ==> (h.key, h.hash) in a && a[(h.key, h.hash)] == h
    requires forall h :: h in entries ==> (h.key, h.hash) in b && b[(h.key, h.hash)] == h
    requires forall id :: id in a ==> a[id] in entries && Matches(a[id], id.0, id.1)
    requires forall id :: id in b ==> b[id] in entries && Matches(b[id], id.0, id.1)
    ensures a == b
  {
    forall id | id in a ensures id in b && a[id] == b[id] {
      assert id == (a[id].key, a[id].hash);
    }
    forall id | id in b ensures id in a {
      assert id == (b[id].key, b[id].hash);
    }
  }
}

/** src/data_structure/mem_table.cpp over the skip list, and the insertion of a write batch. */
module MemTable {
  import opened Bytes
  import opened Coding
  import opened Comparator
  import opened DbFormat
  import opened SkipList
  import opened Towers
  import Batch = WriteBatch

  // ---------- entries and their order ----------

  /** What GetLengthPrefixedSlice finds at a pointer. */
  function Prefixed(bytes: ByteSeq): ByteSeq {
    match GetLengthPrefixed(bytes)
    case None => []
    case Some(r) => r.0
  }

  /** ... and what lies behind it. */
  function Behind(bytes: ByteSeq): ByteSeq {
    match GetLengthPrefixed(bytes)
    case None => []
    case Some(r) => r.1
  }

  /** MemTable::KeyComparator */
  function EntryCompare(cmp: (ByteSeq, ByteSeq) -> int, a: ByteSeq, b: ByteSeq): int {
    InternalCompare(cmp, Prefixed(a), Prefixed(b))
  }

  /** The comparator that the table gives its skip list. */
  function ByEntry(cmp: (ByteSeq, ByteSeq) -> int): (ByteSeq, ByteSeq) -> int {
    (a, b) => EntryCompare(cmp, a, b)
  }

  /** A write, as the table keeps it. */
  datatype Write = Write(sequence: nat, op: Batch.Op)

  function Kind(op: Batch.Op): nat {
    if op.Put? then TYPE_VALUE else TYPE_DELETION
  }

  function Value(op: Batch.Op): ByteSeq {
    if op.Put? then op.value else []
  }

  function TagOf(w: Write): nat {
    Pack(w.sequence, Kind(w.op))
  }

  /** Lengths are 32-bit numbers, sequence numbers 56-bit ones. */
  predicate Storable(w: Write) {
    |w.op.key| + 8 < UINT32 && |Value(w.op)| < UINT32 && w.sequence <= MAX_SEQUENCE
  }

  /** The buffer that Add fills. */
  function Entry(w: Write): ByteSeq {
    LengthPrefixed(InternalKey(w.op.key, w.sequence, Kind(w.op))) + LengthPrefixed(Value(w.op))
  }

  lemma EntryParts(w: Write)
    requires Storable(w)
    ensures var key := Prefixed(Entry(w));
      && key == InternalKey(w.op.key, w.sequence, Kind(w.op))
      && UserKey(key) == w.op.key && Tag(key) == TagOf(w)
      && Prefixed(Behind(Entry(w))) == Value(w.op)
  {
    hide LengthPrefixed, GetLengthPrefixed, InternalKey, UserKey, Tag;
    var key, value := InternalKey(w.op.key, w.sequence, Kind(w.op)), Value(w.op);
    LengthPrefixedRoundTrip(key, LengthPrefixed(value));
    LengthPrefixedRoundTrip(value, []);
    assert LengthPrefixed(value) + [] == LengthPrefixed(value);
    InternalKeyParts(w.op.key, w.sequence, Kind(w.op));
  }

  lemma LookupParts(userKey: ByteSeq, sequence: nat)
    requires |userKey| + 8 < UINT32 && sequence <= MAX_SEQUENCE
    ensures var key := Prefixed(LookupKey(userKey, sequence));
      && key == InternalKey(userKey, sequence, TYPE_FOR_SEEK)
      && UserKey(key) == userKey && Tag(key) == Pack(sequence, TYPE_FOR_SEEK)
  {
    hide GetLengthPrefixed, InternalKey, UserKey, Tag, EncodeVarint32;
    var key := InternalKey(userKey, sequence, TYPE_FOR_SEEK);
    LengthPrefixedRoundTrip(key, []);
    assert LengthPrefixed(key) + [] == LookupKey(userKey, sequence);
    InternalKeyParts(userKey, sequence, TYPE_FOR_SEEK);
  }

  // ---------- the order of entries ----------

  /** A total order that returns 0 exactly for equal keys. */
  ghost predicate Lawful(cmp: (ByteSeq, ByteSeq) -> int) {
    && (forall a, b :: cmp(a, b) == 0 <==> a == b)
    && (forall a, b :: cmp(a, b) < 0 <==> cmp(b, a) > 0)
    && (forall a, b, c :: cmp(a, b) < 0 && cmp(b, c) < 0 ==> cmp(a, c) < 0)
  }

  /** A total order of different keys, which returns 0 for no others than equal ones, but need not return it for
      all of those. */
  ghost predicate OrdersKeys(cmp: (ByteSeq, ByteSeq) -> int) {
    && (forall a, b :: cmp(a, b) == 0 ==> a == b)
    && (forall a :: cmp(a, a) >= 0)
    && (forall a, b :: a != b ==> (cmp(a, b) < 0 <==> cmp(b, a) >= 0))
    && (forall a, b, c :: cmp(a, b) < 0 && cmp(b, c) < 0 ==> cmp(a, c) < 0)
  }

  /** A lawful comparator is one of these, returning 0 for all equal keys; the bytewise one returns it for none. */
  lemma LawfulOrders(cmp: (ByteSeq, ByteSeq) -> int)
    ensures Lawful(cmp) ==> OrdersKeys(cmp) && forall a :: cmp(a, a) == 0
  {
  }

  lemma BytewiseOrders()
    ensures OrdersKeys(SliceCompare) && forall a, b :: SliceCompare(a, b) != 0
  {
    forall a, b ensures SliceCompare(a, b) != 0 && (SliceCompare(a, b) < 0 <==> Before(a, b)) {
      CompareIsBefore(a, b);
    }
    forall a, b: ByteSeq ensures (Before(a, b) ==> !Before(b, a) && a != b) && (a == b || Before(a, b) || Before(b, a)) {
      BeforeIsTotal(a, b);
    }
    forall a, b, c: ByteSeq | Before(a, b) && Before(b, c) ensures Before(a, c) {
      BeforeIsTransitive(a, b, c);
    }
  }

  /** Increasing user keys, and for one user key that compares equal to itself decreasing tags. */
  predicate EntryBefore(cmp: (ByteSeq, ByteSeq) -> int, a: ByteSeq, b: ByteSeq) {
    var x, y := Prefixed(a), Prefixed(b);
    cmp(UserKey(x), UserKey(y)) < 0 || (UserKey(x) == UserKey(y) && cmp(UserKey(x), UserKey(y)) == 0 && Tag(x) > Tag(y))
  }

  lemma LessIsBefore(cmp: (ByteSeq, ByteSeq) -> int, a: ByteSeq, b: ByteSeq)
    requires OrdersKeys(cmp)
    ensures EntryCompare(cmp, a, b) < 0 <==> EntryBefore(cmp, a, b)
    ensures EntryCompare(cmp, a, b) != 0
  {
  }

  /** With a user comparator that orders keys the entries are in a strict weak order. */
  lemma OrderedEntries(cmp: (ByteSeq, ByteSeq) -> int)
    requires OrdersKeys(cmp)
    ensures StrictWeakOrder(ByEntry(cmp))
  {
    var ecmp := ByEntry(cmp);
    hide Prefixed, UserKey, Tag, EntryCompare;
    forall a, b ensures (Less(ecmp, a, b) <==> EntryBefore(cmp, a, b)) && ecmp(a, b) != 0 {
      LessIsBefore(cmp, a, b);
    }
  }

  // ---------- reading at a snapshot ----------

  /** Get: true with a value, true with the status NotFound, or false. */
  datatype Answer = Found(value: ByteSeq) | Deleted | Absent

  function AnswerOf(op: Batch.Op): Answer {
    if op.Put? then Found(op.value) else Deleted
  }

  /** w is the newest write to the key that the snapshot sees. */
  ghost predicate Newest(log: seq<Write>, w: Write, key: ByteSeq, snapshot: nat) {
    && w in log && w.op.key == key && w.sequence <= snapshot
    && forall x :: x in log && x.op.key == key && x.sequence <= snapshot ==> TagOf(x) <= TagOf(w)
  }

  ghost predicate Unseen(log: seq<Write>, key: ByteSeq, snapshot: nat) {
    forall x :: x in log && x.op.key == key ==> x.sequence > snapshot
  }

  ghost predicate Answers(log: seq<Write>, key: ByteSeq, snapshot: nat, answer: Answer) {
    if answer.Absent? then Unseen(log, key, snapshot)
    else exists w :: Newest(log, w, key, snapshot) && answer == AnswerOf(w.op)
  }

  /** The table's keys are the entries of the writes. */
  ghost predicate Stores(keys: seq<ByteSeq>, log: seq<Write>) {
    && (forall w :: w in log ==> Storable(w) && Entry(w) in keys)
    && (forall k :: 0 <= k < |keys| ==> exists w :: w in log && keys[k] == Entry(w))
  }

  lemma NotLess(cmp: (ByteSeq, ByteSeq) -> int, w: Write, key: ByteSeq, snapshot: nat)
    requires OrdersKeys(cmp) && Storable(w) && |key| + 8 < UINT32 && snapshot <= MAX_SEQUENCE
    ensures w.op.key == key && cmp(key, key) == 0 ==>
      (EntryCompare(cmp, Entry(w), LookupKey(key, snapshot)) < 0 <==> w.sequence > snapshot)
    ensures w.op.key != key ==>
      (EntryCompare(cmp, Entry(w), LookupKey(key, snapshot)) < 0 <==> cmp(w.op.key, key) < 0)
  {
    EntryParts(w);
    LookupParts(key, snapshot);
    LessIsBefore(cmp, Entry(w), LookupKey(key, snapshot));
  }

  lemma EntryOrder(cmp: (ByteSeq, ByteSeq) -> int, w: Write, x: Write)
    requires OrdersKeys(cmp) && Storable(w) && Storable(x)
    ensures EntryCompare(cmp, Entry(w), Entry(x)) < 0 <==>
      cmp(w.op.key, x.op.key) < 0 || (w.op.key == x.op.key && cmp(w.op.key, x.op.key) == 0 && TagOf(w) > TagOf(x))
  {
    EntryParts(w);
    EntryParts(x);
    LessIsBefore(cmp, Entry(w), Entry(x));
  }

  /** Every write to the key that the snapshot sees lies at or after the place that Seek finds. */
  lemma SeenLater(cmp: (ByteSeq, ByteSeq) -> int, keys: seq<ByteSeq>, log: seq<Write>, x: Write,
                  key: ByteSeq, snapshot: nat) returns (j: nat)
    requires OrdersKeys(cmp) && cmp(key, key) == 0 && Stores(keys, log)
    requires |key| + 8 < UINT32 && snapshot <= MAX_SEQUENCE
    requires x in log && x.op.key == key && x.sequence <= snapshot
    ensures Rank(ByEntry(cmp), keys, LookupKey(key, snapshot)) <= j < |keys| && keys[j] == Entry(x)
  {
    var ecmp := ByEntry(cmp);
    hide EntryCompare, Entry, LookupKey, Rank;
    NotLess(cmp, x, key, snapshot);
    j :| 0 <= j < |keys| && keys[j] == Entry(x);
    assert j < Rank(ecmp, keys, LookupKey(key, snapshot)) ==> Less(ecmp, keys[j], LookupKey(key, snapshot));
  }

  /** For a key that compares equal to itself, Seek comes to its newest visible write, if there is one. */
  lemma SeekAnswers(cmp: (ByteSeq, ByteSeq) -> int, keys: seq<ByteSeq>, log: seq<Write>, key: ByteSeq, snapshot: nat)
    requires OrdersKeys(cmp) && cmp(key, key) == 0 && Stores(keys, log)
    requires Sorted(ByEntry(cmp), keys) && |key| + 8 < UINT32 && snapshot <= MAX_SEQUENCE
    ensures var i := Rank(ByEntry(cmp), keys, LookupKey(key, snapshot));
      if i < |keys| && UserKey(Prefixed(keys[i])) == key
      then exists w :: w in log && keys[i] == Entry(w) && Newest(log, w, key, snapshot)
      else Unseen(log, key, snapshot)
  {
    hide EntryCompare, Entry, LookupKey, Rank, Prefixed, UserKey, Storable, TagOf;
    var ecmp, target := ByEntry(cmp), LookupKey(key, snapshot);
    var i := Rank(ecmp, keys, target);
    var w;
    if i < |keys| {
      w :| w in log && keys[i] == Entry(w);
      EntryParts(w);
      NotLess(cmp, w, key, snapshot);
      assert !Less(ecmp, keys[i], target);
    }
    forall x | x in log && x.op.key == key && x.sequence <= snapshot
      ensures i < |keys| && w.op.key == key && TagOf(x) <= TagOf(w)
    {
      var j := SeenLater(cmp, keys, log, x, key, snapshot);
      EntryOrder(cmp, x, w);
      assert i < j ==> !Less(ecmp, keys[j], keys[i]);
      if i == j {
        EntryParts(x);
      }
    }
  }

  /** The answer that an entry of the key gives. */
  function ReadEntry(entry: ByteSeq): Answer {
    var kind := Tag(Prefixed(entry)) % 256;
    if kind == TYPE_VALUE then Found(Prefixed(Behind(entry))) else if kind == TYPE_DELETION then Deleted else Absent
  }

  lemma ReadsOp(w: Write)
    requires Storable(w)
    ensures ReadEntry(Entry(w)) == AnswerOf(w.op)
  {
    hide Entry, Prefixed, Behind, Tag, Pack;
    EntryParts(w);
    PackFits(w.sequence, Kind(w.op));
  }

  /** What Get makes of the entries in list order. */
  function GetFrom(cmp: (ByteSeq, ByteSeq) -> int, keys: seq<ByteSeq>, key: ByteSeq, snapshot: nat): Answer
    requires |key| + 8 < UINT32
  {
    var i := Rank(ByEntry(cmp), keys, LookupKey(key, snapshot));
    if i < |keys| && cmp(UserKey(Prefixed(keys[i])), key) == 0 then ReadEntry(keys[i]) else Absent
  }

  /** Get answers correctly exactly for the keys that compare equal to themselves, and those without a visible
      write. */
  lemma GetFromIsRight(cmp: (ByteSeq, ByteSeq) -> int, keys: seq<ByteSeq>, log: seq<Write>, key: ByteSeq, snapshot: nat)
    requires OrdersKeys(cmp) && Stores(keys, log) && Sorted(ByEntry(cmp), keys)
    requires |key| + 8 < UINT32 && snapshot <= MAX_SEQUENCE
    ensures Answers(log, key, snapshot, GetFrom(cmp, keys, key, snapshot)) <==>
      cmp(key, key) == 0 || Unseen(log, key, snapshot)
    ensures cmp(key, key) != 0 ==> GetFrom(cmp, keys, key, snapshot) == Absent
  {
    hide EntryCompare, Entry, LookupKey, Rank, Prefixed, UserKey, Storable, TagOf, ReadEntry, Sorted, Newest;
    if cmp(key, key) == 0 {
      SeekAnswers(cmp, keys, log, key, snapshot);
      var i := Rank(ByEntry(cmp), keys, LookupKey(key, snapshot));
      if i < |keys| && UserKey(Prefixed(keys[i])) == key {
        var w :| w in log && keys[i] == Entry(w) && Newest(log, w, key, snapshot);
        ReadsOp(w);
      }
    }
  }

  // ---------- the table ----------

  /** RandomHeight */
  method RandomHeight() returns (height: nat)
    ensures 1 <= height <= MAX_HEIGHT
  {
    height :| 1 <= height <= MAX_HEIGHT by {
      assert 1 <= 1 <= MAX_HEIGHT;
    }
  }

  lemma TagAndValue(w: Write)
    ensures Pack(w.sequence, Kind(w.op)) == 256 * w.sequence + if w.op.Put? then 1 else 0
    ensures Value(w.op) == if w.op.Put? then w.op.value else []
    ensures Varint(0) == [0]
  {
  }

  /** The entry byte by byte, as Add writes it. */
  lemma BufferIsEntry(w: Write)
    requires Storable(w)
    ensures |w.op.key| + 8 < UINT32 && |Value(w.op)| < UINT32
    ensures EncodeVarint32(|w.op.key| + 8) + w.op.key + Fixed(8, Pack(w.sequence, Kind(w.op)))
            + EncodeVarint32(|Value(w.op)|) + Value(w.op) == Entry(w)
    // Type 1 for a put, and 0 for a deletion, which has an empty value.
    ensures Entry(w) == Varint(|w.op.key| + 8) + w.op.key + Fixed(8, 256 * w.sequence + if w.op.Put? then 1 else 0)
      + if w.op.Put? then Varint(|w.op.value|) + w.op.value else [0]
  {
    TagAndValue(w);
    hide EncodeVarint32, Fixed, Value, Kind, Pack;
    var a, b, c, d, e := EncodeVarint32(|w.op.key| + 8), w.op.key, Fixed(8, Pack(w.sequence, Kind(w.op))),
      EncodeVarint32(|Value(w.op)|), Value(w.op);
    assert LengthPrefixed(b + c) == a + (b + c);
    assert LengthPrefixed(e) == d + e;
    assert a + b + c + d + e == (a + (b + c)) + (d + e);
    assert a + b + c + d + e == a + b + c + (d + e);
  }

  lemma StoresMore(keys: seq<ByteSeq>, log: seq<Write>, w: Write, r: nat)
    requires Stores(keys, log) && Storable(w) && r <= |keys|
    ensures Stores(InsertAt(keys, r, Entry(w)), log + [w])
  {
    hide Entry, Storable;
    var after := InsertAt(keys, r, Entry(w));
    assert after[r] == Entry(w);
    forall x | x in log ensures Entry(x) in after {
      var j :| 0 <= j < |keys| && keys[j] == Entry(x);
      assert after[if j < r then j else j + 1] == Entry(x);
    }
    forall k | 0 <= k < |after| ensures exists x :: x in log + [w] && after[k] == Entry(x) {
      if k == r {
        assert w in log + [w];
      } else {
        var entry := keys[if k < r then k else k - 1];
        var x :| x in log && entry == Entry(x);
        assert x in log + [w];
      }
    }
  }

  class MemTable {
    const cmp: (ByteSeq, ByteSeq) -> int
    const table: SkipList<ByteSeq>
    ghost var log: seq<Write>      // the writes, in the order in which they were added

    ghost predicate Valid()
      reads this, table, table.row
    {
      table.Valid() && table.cmp == ByEntry(cmp) && Stores(table.Keys(), log)
    }

    constructor (cmp: (ByteSeq, ByteSeq) -> int)
      requires StrictWeakOrder(ByEntry(cmp))
      ensures Valid() && fresh(table) && fresh(table.row) && log == [] && this.cmp == cmp
    {
      this.cmp, log := cmp, [];
      table := new SkipList(ByEntry(cmp), []);
    }

    /** Add.  The skip list's assertion never fails: no two entries compare equal, not even equal ones. */
    method Add(sequence: nat, op: Batch.Op)
      requires Valid() && Storable(Write(sequence, op))
      modifies this, table, table.row
      ensures Valid() && log == old(log) + [Write(sequence, op)]
      ensures forall k :: 0 <= k < |table.row| ==> table.row[k] in old(table.row) || fresh(table.row[k])
    {
      hide *;
      ghost var w, row := Write(sequence, op), table.row;
      ghost var keys := Facts();
      BufferIsEntry(w);
      var buffer := EncodeVarint32(|op.key| + 8) + op.key + Fixed(8, Pack(sequence, Kind(op)))
        + EncodeVarint32(|Value(op)|) + Value(op);
      ghost var place := table.Place(buffer);
      NeverEqual(cmp, buffer);
      var height := RandomHeight();
      table.Insert(buffer, height);
      ghost var x :| fresh(x) && table.row == InsertAt(row, place, x);
      RowInserted(row, place, x);
      StoresMore(keys, log, w, Rank(table.cmp, keys, buffer));
      log := log + [w];
      ValidFrom(table.Keys());
    }

    lemma Facts() returns (keys: seq<ByteSeq>)
      requires Valid()
      ensures table.Valid() && |table.row| > 0 && keys == table.Keys() && Stores(keys, log)
      ensures table.cmp == ByEntry(cmp)
    {
      keys := table.Keys();
    }

    lemma ValidFrom(keys: seq<ByteSeq>)
      requires table.Valid() && |table.row| > 0 && keys == table.Keys() && Stores(keys, log)
      requires table.cmp == ByEntry(cmp)
      ensures Valid()
    {
    }

    method Get(key: ByteSeq, snapshot: nat) returns (answer: Answer)
      requires Valid() && |key| + 8 < UINT32 && snapshot <= MAX_SEQUENCE
      ensures answer == GetFrom(cmp, table.Keys(), key, snapshot)
      // The answer is right exactly if the key compares equal to itself or has no visible write ...
      ensures OrdersKeys(cmp) ==>
        (Answers(log, key, snapshot, answer) <==> cmp(key, key) == 0 || Unseen(log, key, snapshot))
      ensures OrdersKeys(cmp) && cmp(key, key) != 0 ==> answer == Absent
      // ... so always with a lawful comparator.
      ensures Lawful(cmp) ==> Answers(log, key, snapshot, answer)
      // With one that never returns 0 nothing is ever found.
      ensures (forall a, b :: cmp(a, b) != 0) ==> answer == Absent
    {
      hide *;
      ghost var keys := Facts();
      var iter := new Iterator(table);
      iter.Seek(LookupKey(key, snapshot));
      ghost var place := Rank(table.cmp, keys, LookupKey(key, snapshot));
      OnFacts(iter, place);
      answer := Absent;
      if iter.Valid() {
        var entry := iter.Key();
        var found := Prefixed(entry);
        assert iter.On(place) && entry == keys[place];
        if cmp(UserKey(found), key) == 0 {
          if Tag(found) % 256 == TYPE_VALUE {
            answer := Found(Prefixed(Behind(entry)));
          } else if Tag(found) % 256 == TYPE_DELETION {
            answer := Deleted;
          }
          ReadEntryIs(entry, answer);
        }
      }
      GetFromIs(cmp, keys, key, snapshot, answer);
      LawfulOrders(cmp);
      if OrdersKeys(cmp) {
        SortedFacts();
        GetFromIsRight(cmp, keys, log, key, snapshot);
      }
    }

    lemma SortedFacts()
      requires Valid()
      ensures StrictWeakOrder(table.cmp) && |table.row| > 0 && Sorted(table.cmp, table.Keys())
    {
    }
  }

  /** No entry compares equal to any. */
  lemma NeverEqual(cmp: (ByteSeq, ByteSeq) -> int, a: ByteSeq)
    ensures forall b :: ByEntry(cmp)(a, b) != 0
  {
    hide Prefixed, UserKey, Tag;
  }

  lemma GetFromIs(cmp: (ByteSeq, ByteSeq) -> int, keys: seq<ByteSeq>, key: ByteSeq, snapshot: nat, answer: Answer)
    requires |key| + 8 < UINT32
    requires var i := Rank(ByEntry(cmp), keys, LookupKey(key, snapshot));
      answer == if i < |keys| && cmp(UserKey(Prefixed(keys[i])), key) == 0 then ReadEntry(keys[i]) else Absent
    ensures answer == GetFrom(cmp, keys, key, snapshot)
  {
  }

  lemma ReadEntryIs(entry: ByteSeq, answer: Answer)
    requires var kind := Tag(Prefixed(entry)) % 256;
      answer == if kind == TYPE_VALUE then Found(Prefixed(Behind(entry))) else if kind == TYPE_DELETION then Deleted else Absent
    ensures answer == ReadEntry(entry)
  {
  }

  lemma OnFacts(iter: Iterator<ByteSeq>, i: nat)
    requires iter.On(i)
    ensures iter.list.Valid() && |iter.list.row| > 0 && i <= |iter.list.Keys()| && (iter.Valid() <==> i < |iter.list.Keys()|)
    ensures forall j: nat :: iter.On(j) ==> j == i
  {
  }

  // ---------- iterators ----------

  class MemTableIterator {
    const mem: MemTable
    const iter: Iterator<ByteSeq>

    /** On the entry with index i. */
    ghost predicate On(i: nat)
      reads this, iter, mem, mem.table, mem.table.row
    {
      mem.Valid() && iter.list == mem.table && iter.On(i)
    }

    constructor (mem: MemTable)
      requires mem.Valid()
      ensures this.mem == mem && fresh(iter) && On(|mem.table.Keys()|)
    {
      this.mem := mem;
      iter := new Iterator(mem.table);
    }

    /** Seek: the first entry not before the target, an internal key. */
    method Seek(target: ByteSeq)
      requires mem.Valid() && iter.list == mem.table && |target| < UINT32
      modifies iter
      ensures exists i: nat ::
        && On(i)
        && (forall j :: 0 <= j < i ==> InternalCompare(mem.cmp, Prefixed(mem.table.Keys()[j]), target) < 0)
        && (i < |mem.table.Keys()| ==> InternalCompare(mem.cmp, Prefixed(mem.table.Keys()[i]), target) >= 0)
    {
      hide Prefixed, InternalCompare, LengthPrefixed, Rank;
      iter.Seek(LengthPrefixed(target));
      ghost var keys := mem.Facts();
      ghost var i := Rank(mem.table.cmp, keys, LengthPrefixed(target));
      SeekPlace(mem.cmp, keys, target);
      assert On(i);
    }

    /** The internal key and the value of the write whose entry the iterator is on. */
    method KeyValue(ghost i: nat) returns (key: ByteSeq, value: ByteSeq)
      requires On(i) && iter.Valid()
      ensures i < |mem.table.Keys()| && exists w :: w in mem.log && mem.table.Keys()[i] == Entry(w)
      ensures forall w :: w in mem.log && mem.table.Keys()[i] == Entry(w) ==>
        key == InternalKey(w.op.key, w.sequence, Kind(w.op)) && value == Value(w.op)
    {
      hide Prefixed, Behind, InternalKey, Entry, Storable, Kind, Value;
      ghost var keys := mem.Facts();
      OnFacts(iter, i);
      var entry := iter.Key();
      assert iter.On(i) && entry == keys[i];
      key := Prefixed(entry);
      value := Prefixed(Behind(entry));
      forall w | w in mem.log && keys[i] == Entry(w)
        ensures key == InternalKey(w.op.key, w.sequence, Kind(w.op)) && value == Value(w.op)
      {
        EntryParts(w);
      }
    }
  }

  lemma SeekPlace(cmp: (ByteSeq, ByteSeq) -> int, keys: seq<ByteSeq>, target: ByteSeq)
    requires |target| < UINT32
    ensures var i := Rank(ByEntry(cmp), keys, LengthPrefixed(target));
      && (forall j :: 0 <= j < i ==> InternalCompare(cmp, Prefixed(keys[j]), target) < 0)
      && (i < |keys| ==> InternalCompare(cmp, Prefixed(keys[i]), target) >= 0)
  {
    hide InternalCompare, LengthPrefixed;
    LengthPrefixedRoundTrip(target, []);
    assert LengthPrefixed(target) + [] == LengthPrefixed(target);
    var ecmp := ByEntry(cmp);
    var i := Rank(ecmp, keys, LengthPrefixed(target));
    forall j | 0 <= j < i ensures InternalCompare(cmp, Prefixed(keys[j]), target) < 0 {
      assert Less(ecmp, keys[j], LengthPrefixed(target));
    }
  }
}

/** From the bytes of write batches to reads at a snapshot: the memtable refines a replay of the operations
    on a map. */
module MemTableRuns {
  import opened Bytes
  import opened Coding
  import opened Comparator
  import opened DbFormat
  import opened MemTable
  import opened SkipList
  import Batch = WriteBatch

  // ---------- replaying on a map ----------

  /** The writes up to the snapshot applied in order; a deleted key is remembered as such. */
  function Replay(log: seq<Write>, snapshot: nat): map<ByteSeq, Answer> {
    if log == [] then map[]
    else
      var w, before := log[|log| - 1], Replay(log[..|log| - 1], snapshot);
      if w.sequence <= snapshot then before[w.op.key := AnswerOf(w.op)] else before
  }

  function Expected(log: seq<Write>, key: ByteSeq, snapshot: nat): Answer {
    var m := Replay(log, snapshot);
    if key in m then m[key] else Absent
  }

  ghost predicate Increasing(log: seq<Write>) {
    forall i, j :: 0 <= i < j < |log| ==> log[i].sequence < log[j].sequence
  }

  lemma LaterIsNewer(a: Write, b: Write)
    requires a.sequence < b.sequence
    ensures TagOf(a) < TagOf(b)
  {
  }

  /** One more write changes the answer for its own key, at a snapshot that sees it, and no other. */
  lemma AnswersNext(log: seq<Write>, w: Write, key: ByteSeq, snapshot: nat, answer: Answer)
    requires Increasing(log + [w]) && Answers(log, key, snapshot, answer)
    ensures Answers(log + [w], key, snapshot, if w.op.key == key && w.sequence <= snapshot then AnswerOf(w.op) else answer)
  {
    hide TagOf;
    var after := log + [w];
    if w.op.key == key && w.sequence <= snapshot {
      forall x | x in log ensures TagOf(x) <= TagOf(w) {
        var i :| 0 <= i < |log| && log[i] == x;
        assert after[i] == x && after[|log|] == w;
        LaterIsNewer(x, w);
      }
      assert Newest(after, w, key, snapshot);
    } else if !answer.Absent? {
      var x :| Newest(log, x, key, snapshot) && answer == AnswerOf(x.op);
      assert Newest(after, x, key, snapshot);
    }
  }

  /** With increasing sequence numbers, the replay answers correctly ... */
  lemma {:induction false} ReplayAnswers(log: seq<Write>, key: ByteSeq, snapshot: nat)
    requires Increasing(log)
    ensures Answers(log, key, snapshot, Expected(log, key, snapshot))
  {
    if log != [] {
      var n := |log| - 1;
      var before, last := log[..n], log[n];
      assert log == before + [last];
      ReplayAnswers(before, key, snapshot);
      hide Answers;
      AnswersNext(before, last, key, snapshot, Expected(before, key, snapshot));
    }
  }

  /** ... and no other answer is correct. */
  lemma GetRefinesReplay(log: seq<Write>, key: ByteSeq, snapshot: nat, answer: Answer)
    requires Increasing(log)
    ensures Answers(log, key, snapshot, answer) <==> answer == Expected(log, key, snapshot)
    ensures Unseen(log, key, snapshot) <==> Expected(log, key, snapshot) == Absent
  {
    ReplayAnswers(log, key, snapshot);
    forall v, w | Newest(log, v, key, snapshot) && Newest(log, w, key, snapshot) ensures v == w {
      OneNewest(log, v, w, key, snapshot);
    }
  }

  lemma OneNewest(log: seq<Write>, v: Write, w: Write, key: ByteSeq, snapshot: nat)
    requires Increasing(log) && Newest(log, v, key, snapshot) && Newest(log, w, key, snapshot)
    ensures v == w
  {
    hide TagOf;
    var i :| 0 <= i < |log| && log[i] == v;
    var j :| 0 <= j < |log| && log[j] == w;
    if i < j {
      LaterIsNewer(v, w);
    } else if j < i {
      LaterIsNewer(w, v);
    }
  }

  // ---------- inserting batches ----------

  /** The operations of a batch, numbered from the batch's sequence number. */
  function Stamp(ops: seq<Batch.Op>, sequence: nat): (log: seq<Write>)
    ensures |log| == |ops| && forall i :: 0 <= i < |ops| ==> log[i] == Write(sequence + i, ops[i])
  {
    seq(|ops|, i requires 0 <= i < |ops| => Write(sequence + i, ops[i]))
  }

  /** WriteBatchInternal::Sequence */
  function SequenceOf(rep: ByteSeq): nat
    requires |rep| >= Batch.HEADER_SIZE
  {
    FromFixed(rep[..8])
  }

  /** What is inserted can be stored: lengths and sequence numbers in range. */
  ghost predicate Fit(ops: seq<Batch.Op>, sequence: nat) {
    && (forall op :: op in ops ==> |op.key| + 8 < UINT32 && |Value(op)| < UINT32)
    && sequence + |ops| <= MAX_SEQUENCE + 1
  }

  /** Sequence numbers in increasing order, all below the bound. */
  ghost predicate Below(log: seq<Write>, bound: nat) {
    Increasing(log) && forall x :: x in log ==> x.sequence < bound
  }

  lemma BelowStamp(log: seq<Write>, ops: seq<Batch.Op>, sequence: nat)
    requires Below(log, sequence)
    ensures Below(log + Stamp(ops, sequence), sequence + |ops|)
  {
  }

  lemma StampNext(log: seq<Write>, ops: seq<Batch.Op>, sequence: nat, i: nat)
    requires i < |ops|
    ensures log + Stamp(ops[..i], sequence) + [Write(sequence + i, ops[i])] == log + Stamp(ops[..i + 1], sequence)
  {
  }

  lemma FitAt(ops: seq<Batch.Op>, sequence: nat, i: nat)
    requires Fit(ops, sequence) && i < |ops|
    ensures Storable(Write(sequence + i, ops[i]))
  {
  }

  /** InsertInto: the operations of the batch up to the first bad record, each with the next sequence number. */
  method InsertInto(batch: Batch.WriteBatch, m: MemTable) returns (error: Option<Batch.Error>)
    requires m.Valid() && |batch.rep| >= Batch.HEADER_SIZE
    requires Fit(Batch.IterateSpec(batch.rep).ops, SequenceOf(batch.rep))
    modifies m, m.table, m.table.row
    ensures m.Valid()
    ensures m.log == old(m.log) + Stamp(Batch.IterateSpec(batch.rep).ops, SequenceOf(batch.rep))
    ensures Below(old(m.log), SequenceOf(batch.rep)) ==>
      Below(m.log, SequenceOf(batch.rep) + |Batch.IterateSpec(batch.rep).ops|)
    ensures error == Batch.IterateSpec(batch.rep).error
    ensures forall k :: 0 <= k < |m.table.row| ==> m.table.row[k] in old(m.table.row) || fresh(m.table.row[k])
  {
    hide *;
    var sequence := SequenceOf(batch.rep);
    var it := batch.Iterate();
    StampNone(m.log, it.ops, sequence);
    var i := 0;
    while i < |it.ops|
      invariant i <= |it.ops| && m.Valid()
      invariant m.log == old(m.log) + Stamp(it.ops[..i], sequence)
      invariant forall k :: 0 <= k < |m.table.row| ==> m.table.row[k] in old(m.table.row) || fresh(m.table.row[k])
    {
      FitAt(it.ops, sequence, i);
      StampNext(old(m.log), it.ops, sequence, i);
      m.Add(sequence + i, it.ops[i]);
      i := i + 1;
    }
    assert it.ops[..i] == it.ops;
    if Below(old(m.log), sequence) {
      BelowStamp(old(m.log), it.ops, sequence);
    }
    error := it.error;
  }

  lemma StampNone(log: seq<Write>, ops: seq<Batch.Op>, sequence: nat)
    ensures log + Stamp(ops[..0], sequence) == log
  {
  }

  // ---------- end to end ----------

  /** A batch to be written: its operations and the sequence number of the first. */
  datatype Group = Group(sequence: nat, ops: seq<Batch.Op>)

  ghost predicate Writable(g: Group) {
    Fit(g.ops, g.sequence) && |g.ops| < Batch.INT32_LIMIT
  }

  function AllWrites(groups: seq<Group>): seq<Write> {
    if groups == [] then []
    else
      var g := groups[|groups| - 1];
      AllWrites(groups[..|groups| - 1]) + Stamp(g.ops, g.sequence)
  }

  /** Each group's sequence numbers follow those of the groups before it. */
  ghost predicate InSequence(groups: seq<Group>) {
    forall i, j :: 0 <= i < j < |groups| ==> groups[i].sequence + |groups[i].ops| <= groups[j].sequence
  }

  /** A batch filled by Put and Delete, then given its sequence number. */
  method Fill(g: Group) returns (batch: Batch.WriteBatch)
    requires Writable(g)
    ensures fresh(batch) && Batch.Holds(batch.rep, g.ops) && SequenceOf(batch.rep) == g.sequence
  {
    batch := new Batch.WriteBatch();
    var i := 0;
    hide Batch.Holds;
    assert g.ops[..0] == [];
    while i < |g.ops|
      invariant i <= |g.ops| && Batch.Holds(batch.rep, g.ops[..i])
    {
      assert g.ops[i] in g.ops;
      match g.ops[i] {
        case Put(key, value) => batch.Put(key, value, g.ops[..i]);
        case Delete(key) => batch.Delete(key, g.ops[..i]);
      }
      assert g.ops[..i + 1] == g.ops[..i] + [g.ops[i]];
      i := i + 1;
    }
    assert g.ops[..i] == g.ops;
    ghost var before := batch.rep;
    HasHeader(before, g.ops);
    batch.SetSequence(g.sequence);
    Numbered(before, batch.rep, g.ops, g.sequence);
  }

  lemma HasHeader(rep: ByteSeq, ops: seq<Batch.Op>)
    requires Batch.Holds(rep, ops)
    ensures |rep| >= Batch.HEADER_SIZE
  {
  }

  lemma Numbered(before: ByteSeq, after: ByteSeq, ops: seq<Batch.Op>, sequence: nat)
    requires Batch.Holds(before, ops) && sequence <= MAX_SEQUENCE + 1 && after == Fixed(8, sequence) + before[8..]
    ensures Batch.Holds(after, ops) && SequenceOf(after) == sequence
  {
    hide Fixed, FromFixed, Batch.EncodeOps;
    assert after[..8] == Fixed(8, sequence);
    Fixed64RoundTrip(sequence);
    assert after[8..12] == before[8..12] && after[12..] == before[12..];
  }

  /** The sequence numbers of all groups increase. */
  lemma {:induction false} AllBelow(groups: seq<Group>, bound: nat)
    requires InSequence(groups) && forall g :: g in groups ==> g.sequence + |g.ops| <= bound
    ensures Below(AllWrites(groups), bound)
  {
    if groups != [] {
      var n := |groups| - 1;
      var g, before := groups[n], groups[..n];
      AllBelow(before, g.sequence);
      BelowStamp(AllWrites(before), g.ops, g.sequence);
    }
  }

  method InsertGroup(m: MemTable, g: Group)
    requires m.Valid() && Writable(g)
    modifies m, m.table, m.table.row
    ensures m.Valid() && m.log == old(m.log) + Stamp(g.ops, g.sequence)
    ensures forall k :: 0 <= k < |m.table.row| ==> m.table.row[k] in old(m.table.row) || fresh(m.table.row[k])
  {
    hide *;
    WritableFacts(g);
    var batch := Fill(g);
    HasHeader(batch.rep, g.ops);
    Batch.IterateReplays(batch.rep, g.ops);
    IterationIs(g.ops);
    var error := InsertInto(batch, m);
    assert error == None;
  }

  /** Batches with increasing sequence numbers are written, then a key is read at a snapshot.  The answer is what
      a replay of all operations up to the snapshot leaves for the key, exactly if the key compares equal to itself
      or the replay leaves nothing. */
  method WriteThenRead(cmp: (ByteSeq, ByteSeq) -> int, groups: seq<Group>, key: ByteSeq,
                       snapshot: nat) returns (answer: Answer)
    requires OrdersKeys(cmp) && InSequence(groups) && forall g :: g in groups ==> Writable(g)
    requires |key| + 8 < UINT32 && snapshot <= MAX_SEQUENCE
    ensures var right := Expected(AllWrites(groups), key, snapshot);
      answer == right <==> cmp(key, key) == 0 || right == Absent
    ensures cmp(key, key) != 0 ==> answer == Absent
    ensures Lawful(cmp) ==> answer == Expected(AllWrites(groups), key, snapshot)
  {
    OrderedEntries(cmp);
    var m := new MemTable(cmp);
    hide *;
    AllWritesNone(groups);
    var i := 0;
    while i < |groups|
      invariant i <= |groups| && m.Valid() && m.cmp == cmp && fresh(m) && fresh(m.table)
      invariant forall k :: 0 <= k < |m.table.row| ==> fresh(m.table.row[k])
      invariant m.log == AllWrites(groups[..i])
    {
      AllWritesNext(groups, i);
      InsertGroup(m, groups[i]);
      i := i + 1;
    }
    assert groups[..i] == groups;
    answer := m.Get(key, snapshot);
    AllIncreasing(groups);
    GetRefinesReplay(m.log, key, snapshot, answer);
    LawfulOrders(cmp);
  }

  lemma AllWritesNone(groups: seq<Group>)
    ensures AllWrites(groups[..0]) == []
  {
  }

  lemma AllWritesNext(groups: seq<Group>, i: nat)
    requires i < |groups|
    ensures AllWrites(groups[..i + 1]) == AllWrites(groups[..i]) + Stamp(groups[i].ops, groups[i].sequence)
  {
    assert groups[..i + 1][..i] == groups[..i];
  }

  lemma WritableFacts(g: Group)
    requires Writable(g)
    ensures Fit(g.ops, g.sequence) && |g.ops| < Batch.INT32_LIMIT
  {
  }

  lemma IterationIs(ops: seq<Batch.Op>)
    ensures Batch.Iteration(ops, None).ops == ops && Batch.Iteration(ops, None).error == None
  {
  }

  lemma {:induction false} SomeBound(groups: seq<Group>) returns (bound: nat)
    ensures forall g :: g in groups ==> g.sequence + |g.ops| <= bound
  {
    bound := 0;
    if groups != [] {
      var rest := SomeBound(groups[1..]);
      bound := Max(rest, groups[0].sequence + |groups[0].ops|);
      assert groups == [groups[0]] + groups[1..];
    }
  }

  lemma AllIncreasing(groups: seq<Group>)
    requires InSequence(groups)
    ensures Increasing(AllWrites(groups))
  {
    var bound := SomeBound(groups);
    AllBelow(groups, bound);
  }

  // ---------- the bytewise comparator ----------

  /** With the bytewise comparator a single Put is lost: a replay finds the value, Get finds nothing. */
  method BytewiseLosesPut(key: ByteSeq, value: ByteSeq, sequence: nat, snapshot: nat) returns (answer: Answer)
    requires |key| + 8 < UINT32 && |value| < UINT32 && sequence <= snapshot <= MAX_SEQUENCE
    ensures Expected([Write(sequence, Batch.Put(key, value))], key, snapshot) == Found(value)
    ensures answer == Absent
  {
    var group := Group(sequence, [Batch.Put(key, value)]);
    BytewiseOrders();
    OnePut(group, key, value);
    hide SliceCompare;
    answer := WriteThenRead(SliceCompare, [group], key, snapshot);
  }

  lemma OnePut(group: Group, key: ByteSeq, value: ByteSeq)
    requires group.ops == [Batch.Put(key, value)] && |key| + 8 < UINT32 && |value| < UINT32
    requires group.sequence <= MAX_SEQUENCE
    ensures Writable(group) && AllWrites([group]) == [Write(group.sequence, Batch.Put(key, value))]
  {
    assert [group][..0] == [];
  }

  /** Nothing that is written is ever found with the bytewise comparator, which is not lawful but orders keys. */
  lemma BytewiseFindsNothing()
    ensures OrdersKeys(SliceCompare) && StrictWeakOrder(ByEntry(SliceCompare)) && !Lawful(SliceCompare)
    ensures forall keys, key, snapshot: nat | |key| + 8 < UINT32 :: GetFrom(SliceCompare, keys, key, snapshot) == Absent
  {
    BytewiseOrders();
    OrderedEntries(SliceCompare);
    hide SliceCompare;
    assert SliceCompare([], []) != 0;
  }
}

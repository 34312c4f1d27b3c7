/** ShardedLRUCache of src/cache/cache.cpp: sixteen caches, chosen by the top four bits of the hash. */
module ShardedCache {
  import opened Bytes
  import opened CacheModel
  import opened CachePolicy
  import opened HandleTable
  import opened LruCache

  const NUM_SHARDS := 16

  function Shard(hash: nat): (i: nat)
    ensures hash < UINT32 ==> i < NUM_SHARDS
  {
    hash / 0x1000_0000
  }

  /** The hashes that belong to shard i: the i-th sixteenth of the 32-bit numbers. */
  predicate InSixteenth(hash: nat, i: nat) {
    i * 0x1000_0000 <= hash < (i + 1) * 0x1000_0000
  }

  /** Each of the sixteen shards has hashes of its own, and every hash has one shard. */
  lemma ShardIsSixteenth(hash: nat, i: nat)
    requires i < 16
    ensures InSixteenth(i * 0x1000_0000, i) && i * 0x1000_0000 < UINT32
    ensures Shard(hash) == i <==> InSixteenth(hash, i)
  {
  }

  /** The shard of the hash has taken the step, and no other has changed. */
  ghost predicate StepsOne(before: seq<Cache>, after: seq<Cache>, hash: nat, op: Op) {
    && |before| == |after| == 16
    && forall i :: 0 <= i < 16 ==> after[i] == if InSixteenth(hash, i) then Step(before[i], op) else before[i]
  }

  /** This is what the shard of the hash has for the key. */
  ghost predicate FoundInOne(shards: seq<Cache>, key: ByteSeq, hash: nat, e: Handle?) {
    |shards| == 16 && forall i :: 0 <= i < 16 && InSixteenth(hash, i) ==> e == FindCached(shards[i], key, hash)
  }

  lemma FoundIn(shards: seq<Cache>, key: ByteSeq, hash: nat, e: Handle?)
    requires |shards| == 16 && Shard(hash) < 16 && e == FindCached(shards[Shard(hash)], key, hash)
    ensures FoundInOne(shards, key, hash, e)
  {
    hide FindCached;
    forall i | 0 <= i < 16 && InSixteenth(hash, i) ensures e == FindCached(shards[i], key, hash) {
      ShardIsSixteenth(hash, i);
    }
  }

  lemma OneSteps(before: seq<Cache>, hash: nat, op: Op)
    requires |before| == 16 && !op.Prune? && OpHash(op) == hash
    ensures StepsOne(before, StepAll(before, op), hash, op)
  {
    hide Step;
    forall i | 0 <= i < 16 ensures Concerns(op, i) <==> InSixteenth(hash, i) {
      ShardIsSixteenth(hash, i);
    }
  }

  /** The capacity of one shard: a sixteenth, rounded up. */
  function PerShard(capacity: nat): (per: nat)
    ensures capacity <= NUM_SHARDS * per < capacity + NUM_SHARDS
  {
    (capacity + (NUM_SHARDS - 1)) / NUM_SHARDS
  }

  /** The hash that decides where an operation goes. */
  function OpHash(op: Op): nat {
    match op
    case Insert(e) => e.hash
    case Lookup(_, hash) => hash
    case Release(h) => h.hash
    case Erase(_, hash) => hash
    case Prune => 0
  }

  predicate Concerns(op: Op, i: nat) {
    op.Prune? || Shard(OpHash(op)) == i
  }

  function ShardOps(ops: seq<Op>, i: nat): seq<Op> {
    if ops == [] then []
    else ShardOps(ops[..|ops| - 1], i) + if Concerns(ops[|ops| - 1], i) then [ops[|ops| - 1]] else []
  }

  /** What one operation does to the sixteen states. */
  function StepAll(shards: seq<Cache>, op: Op): (after: seq<Cache>)
    ensures |after| == |shards|
  {
    seq(|shards|, i requires 0 <= i < |shards| => if Concerns(op, i) then Step(shards[i], op) else shards[i])
  }

  function RunAll(shards: seq<Cache>, ops: seq<Op>): (after: seq<Cache>)
    ensures |after| == |shards|
  {
    if ops == [] then shards else StepAll(RunAll(shards, ops[..|ops| - 1]), ops[|ops| - 1])
  }

  function Fresh(capacity: nat): (shards: seq<Cache>)
    ensures |shards| == NUM_SHARDS && forall i :: 0 <= i < |shards| ==> shards[i] == Empty(PerShard(capacity))
  {
    seq(NUM_SHARDS, i => Empty(PerShard(capacity)))
  }

  /** Each shard behaves as one cache given the operations that concern it. */
  lemma {:induction false} ShardsAreIndependent(shards: seq<Cache>, ops: seq<Op>, i: nat)
    requires i < |shards|
    ensures RunAll(shards, ops)[i] == Run(shards[i], ShardOps(ops, i))
  {
    if ops != [] {
      var init := ops[..|ops| - 1];
      ShardsAreIndependent(shards, init, i);
      var mine := ShardOps(init, i);
      if Concerns(ops[|ops| - 1], i) {
        assert (mine + [ops[|ops| - 1]])[..|mine|] == mine;
      } else {
        assert mine + [] == mine;
      }
    }
  }

  /** TotalCharge */
  function Total(shards: seq<Cache>): nat {
    if shards == [] then 0 else Usage(shards[0]) + Total(shards[1..])
  }

  lemma OneMore(n: nat, bound: nat)
    ensures (n + 1) * bound == n * bound + bound
  {
  }

  lemma {:induction false} TotalAtMost(shards: seq<Cache>, bound: nat)
    requires forall i :: 0 <= i < |shards| ==> Usage(shards[i]) <= bound
    ensures Total(shards) <= |shards| * bound
  {
    if shards != [] {
      TotalAtMost(shards[1..], bound);
      OneMore(|shards| - 1, bound);
    }
  }

  /** When every insertion finds room in its shard beside what clients hold there, the total charge stays
      within sixteen times the capacity of a shard, less than 16 above the capacity asked for. */
  lemma TotalWithinCapacity(capacity: nat, ops: seq<Op>)
    requires forall i :: 0 <= i < NUM_SHARDS ==> LegalRun(Empty(PerShard(capacity)), ShardOps(ops, i))
    requires forall i :: 0 <= i < NUM_SHARDS ==> AlwaysFits(Empty(PerShard(capacity)), ShardOps(ops, i))
    ensures Total(RunAll(Fresh(capacity), ops)) <= NUM_SHARDS * PerShard(capacity) < capacity + NUM_SHARDS
  {
    var per, after := PerShard(capacity), RunAll(Fresh(capacity), ops);
    forall i | 0 <= i < NUM_SHARDS ensures Usage(after[i]) <= per {
      var mine := ShardOps(ops, i);
      ShardsAreIndependent(Fresh(capacity), ops, i);
      WithinCapacityIffFits(per, mine);
      assert mine[..|mine|] == mine;
      assert Usage(Run(Empty(per), mine[..|mine|])) <= per;
    }
    TotalAtMost(after, per);
  }

  // ---------- the exact bound on the total ----------

  /** What each shard is given is a legal run. */
  predicate LegalShards(capacity: nat, ops: seq<Op>) {
    forall i :: 0 <= i < NUM_SHARDS ==> LegalRun(Empty(PerShard(capacity)), ShardOps(ops, i))
  }

  lemma {:induction false} ShardOpsPrefix(ops: seq<Op>, k: nat, i: nat)
    requires k <= |ops|
    ensures ShardOps(ops[..k], i) <= ShardOps(ops, i)
  {
    if k == |ops| {
      assert ops[..k] == ops;
    } else {
      ShardOpsPrefix(ops[..|ops| - 1], k, i);
      assert ops[..|ops| - 1][..k] == ops[..k];
    }
  }

  lemma LegalShardsPrefix(capacity: nat, ops: seq<Op>, k: nat)
    requires LegalShards(capacity, ops) && k <= |ops|
    ensures LegalShards(capacity, ops[..k])
  {
    hide LegalRun;
    forall i | 0 <= i < NUM_SHARDS ensures LegalRun(Empty(PerShard(capacity)), ShardOps(ops[..k], i)) {
      ShardOpsPrefix(ops, k, i);
      LegalPrefix(Empty(PerShard(capacity)), ShardOps(ops, i), |ShardOps(ops[..k], i)|);
      assert ShardOps(ops, i)[..|ShardOps(ops[..k], i)|] == ShardOps(ops[..k], i);
    }
  }

  /** A shard before an operation of the run. */
  lemma ShardReady(capacity: nat, ops: seq<Op>, k: nat, i: nat)
    requires LegalShards(capacity, ops) && k < |ops| && i < NUM_SHARDS
    ensures var s := RunAll(Fresh(capacity), ops[..k])[i];
      Inv(s) && s.capacity == PerShard(capacity) && (Concerns(ops[k], i) ==> Legal(s, ops[k]))
  {
    hide Inv, Legal, LegalRun, RunAll, Run;
    var per, mine := PerShard(capacity), ShardOps(ops[..k], i);
    LegalShardsPrefix(capacity, ops, k);
    LegalShardsPrefix(capacity, ops, k + 1);
    ShardsAreIndependent(Fresh(capacity), ops[..k], i);
    RunKeeps(per, mine);
    assert ops[..k + 1][..k] == ops[..k];
    if Concerns(ops[k], i) {
      assert ShardOps(ops[..k + 1], i) == mine + [ops[k]];
      assert (mine + [ops[k]])[..|mine|] == mine;
      LegalAt(Empty(per), mine + [ops[k]], |mine|);
    }
  }

  lemma {:induction false} TotalUpdate(shards: seq<Cache>, i: nat, s: Cache)
    requires i < |shards|
    ensures Total(shards[i := s]) == Total(shards) - Usage(shards[i]) + Usage(s)
  {
    if i > 0 {
      TotalUpdate(shards[1..], i - 1, s);
      assert shards[i := s][1..] == shards[1..][i - 1 := s];
    }
  }

  lemma {:induction false} TotalNotMore(before: seq<Cache>, after: seq<Cache>)
    requires |before| == |after| && forall i :: 0 <= i < |before| ==> Usage(after[i]) <= Usage(before[i])
    ensures Total(after) <= Total(before)
  {
    if before != [] {
      TotalNotMore(before[1..], after[1..]);
    }
  }

  /** The total after an insertion: its shard counts with what clients will hold there and the newest entries that
      find room beside it; if it does not fit, with what clients will hold alone. */
  lemma InsertTotal(shards: seq<Cache>, e: Handle)
    requires var i := Shard(e.hash); i < |shards| && Inv(shards[i]) && e !in Known(shards[i])
    ensures var i := Shard(e.hash);
      var others := Total(shards) - Usage(shards[i]);
      && Total(StepAll(shards, Insert(e))) == others + ChargeAfter(shards[i], e)
      && (!Fits(shards[i], Insert(e)) ==> Total(StepAll(shards, Insert(e))) == others + HeldAfter(shards[i], e))
  {
    var i := Shard(e.hash);
    hide Inv, Known, Step, Fits, ChargeAfter, HeldAfter, Usage;
    InsertCharge(shards[i], e);
    TotalUpdate(shards, i, Step(shards[i], Insert(e)));
    assert StepAll(shards, Insert(e)) == shards[i := Step(shards[i], Insert(e))];
  }

  /** Before an insertion: the other shards leave room for what its shard will count. */
  predicate TotalFits(shards: seq<Cache>, op: Op, bound: nat) {
    op.Insert? && Shard(op.e.hash) < |shards| ==>
      var i := Shard(op.e.hash);
      Total(shards) - Usage(shards[i]) + ChargeAfter(shards[i], op.e) <= bound
  }

  lemma StepTotal(capacity: nat, ops: seq<Op>, k: nat, bound: nat)
    requires LegalShards(capacity, ops) && k < |ops| && Total(RunAll(Fresh(capacity), ops[..k])) <= bound
    ensures Total(RunAll(Fresh(capacity), ops[..k + 1])) <= bound <==> TotalFits(RunAll(Fresh(capacity), ops[..k]), ops[k], bound)
  {
    var shards := RunAll(Fresh(capacity), ops[..k]);
    assert ops[..k + 1][..k] == ops[..k];
    assert RunAll(Fresh(capacity), ops[..k + 1]) == StepAll(shards, ops[k]);
    forall i: nat | i < NUM_SHARDS ensures Inv(shards[i]) && (Concerns(ops[k], i) ==> Legal(shards[i], ops[k])) {
      ShardReady(capacity, ops, k, i);
    }
    hide Inv, Known, Step, ChargeAfter, Usage, RunAll, LegalShards;
    if ops[k].Insert? && Shard(ops[k].e.hash) < |shards| {
      InsertTotal(shards, ops[k].e);
    } else {
      forall i: nat | i < NUM_SHARDS && Concerns(ops[k], i) ensures Usage(Step(shards[i], ops[k])) <= Usage(shards[i]) {
        OthersDoNotRaise(shards[i], ops[k]);
      }
      TotalNotMore(shards, StepAll(shards, ops[k]));
    }
  }

  ghost predicate TotalAlwaysWithin(capacity: nat, ops: seq<Op>, bound: nat) {
    forall k :: 0 <= k <= |ops| ==> Total(RunAll(Fresh(capacity), ops[..k])) <= bound
  }

  ghost predicate TotalAlwaysFits(capacity: nat, ops: seq<Op>, bound: nat) {
    forall k :: 0 <= k < |ops| ==> TotalFits(RunAll(Fresh(capacity), ops[..k]), ops[k], bound)
  }

  lemma {:induction false} TotalWithinUpTo(capacity: nat, ops: seq<Op>, bound: nat, k: nat)
    requires LegalShards(capacity, ops) && TotalAlwaysFits(capacity, ops, bound) && k <= |ops|
    ensures Total(RunAll(Fresh(capacity), ops[..k])) <= bound
  {
    if k == 0 {
      assert ops[..0] == [];
      FreshTotal(capacity);
    } else {
      hide RunAll, LegalShards, TotalFits, Total;
      TotalWithinUpTo(capacity, ops, bound, k - 1);
      StepTotal(capacity, ops, k - 1, bound);
    }
  }

  lemma FreshTotal(capacity: nat)
    ensures Total(Fresh(capacity)) == 0
  {
    forall i | 0 <= i < NUM_SHARDS ensures Usage(Fresh(capacity)[i]) <= 0 {
      SumNone();
    }
    TotalAtMost(Fresh(capacity), 0);
  }

  /** Over a whole run, for any bound: the total charge never exceeds it exactly if before every insertion the other
      shards leave room for what the insertion's shard will count. */
  lemma TotalWithinIffFits(capacity: nat, ops: seq<Op>, bound: nat)
    requires LegalShards(capacity, ops)
    ensures TotalAlwaysWithin(capacity, ops, bound) <==> TotalAlwaysFits(capacity, ops, bound)
  {
    hide RunAll, LegalShards, TotalFits, Total;
    if TotalAlwaysWithin(capacity, ops, bound) {
      forall k | 0 <= k < |ops| ensures TotalFits(RunAll(Fresh(capacity), ops[..k]), ops[k], bound) {
        StepTotal(capacity, ops, k, bound);
      }
    }
    if TotalAlwaysFits(capacity, ops, bound) {
      forall k | 0 <= k <= |ops| ensures Total(RunAll(Fresh(capacity), ops[..k])) <= bound {
        TotalWithinUpTo(capacity, ops, bound, k);
      }
    }
  }

  /** The insertions before the k-th operation find room in their shards. */
  ghost predicate FitsUpTo(capacity: nat, ops: seq<Op>, k: nat)
    requires k <= |ops|
  {
    forall i :: 0 <= i < NUM_SHARDS ==> AlwaysFits(Empty(PerShard(capacity)), ShardOps(ops[..k], i))
  }

  lemma FitsUpToPrefix(capacity: nat, ops: seq<Op>, j: nat, k: nat)
    requires j <= k <= |ops| && FitsUpTo(capacity, ops, k)
    ensures FitsUpTo(capacity, ops, j)
  {
    hide Fits;
    forall i | 0 <= i < NUM_SHARDS ensures AlwaysFits(Empty(PerShard(capacity)), ShardOps(ops[..j], i)) {
      var mine, more := ShardOps(ops[..j], i), ShardOps(ops[..k], i);
      assert ops[..k][..j] == ops[..j];
      ShardOpsPrefix(ops[..k], j, i);
      assert forall n :: 0 <= n < |mine| ==> mine[..n] == more[..n];
    }
  }

  /** Up to the first insertion that does not fit in its shard the total is within the bound; after it, exactly if
      the other shards leave room for what clients will hold in that one. */
  lemma FirstMisfit(capacity: nat, ops: seq<Op>, k: nat)
    requires LegalShards(capacity, ops) && k < |ops| && FitsUpTo(capacity, ops, k)
    requires ops[k].Insert? && ops[k].e.hash < UINT32
    requires !Fits(RunAll(Fresh(capacity), ops[..k])[Shard(ops[k].e.hash)], ops[k])
    ensures var shards, i := RunAll(Fresh(capacity), ops[..k]), Shard(ops[k].e.hash);
      && (forall j :: 0 <= j <= k ==> Total(RunAll(Fresh(capacity), ops[..j])) <= NUM_SHARDS * PerShard(capacity))
      && Total(RunAll(Fresh(capacity), ops[..k + 1])) == Total(shards) - Usage(shards[i]) + HeldAfter(shards[i], ops[k].e)
  {
    var shards, i := RunAll(Fresh(capacity), ops[..k]), Shard(ops[k].e.hash);
    LegalShardsPrefix(capacity, ops, k);
    ShardReady(capacity, ops, k, i);
    assert ops[..k + 1][..k] == ops[..k];
    assert RunAll(Fresh(capacity), ops[..k + 1]) == StepAll(shards, ops[k]);
    hide RunAll, Fits, HeldAfter, Inv, Known, AlwaysFits, LegalRun;
    forall j | 0 <= j <= k ensures Total(RunAll(Fresh(capacity), ops[..j])) <= NUM_SHARDS * PerShard(capacity) {
      LegalShardsPrefix(capacity, ops, j);
      FitsUpToPrefix(capacity, ops, j, k);
      TotalWithinCapacity(capacity, ops[..j]);
    }
    InsertTotal(shards, ops[k].e);
  }

  lemma OneInsertLegal(e: Handle)
    ensures LegalShards(1, [Insert(e)])
  {
    hide LegalRun;
    LegalNoneOrOne(e);
    forall i | 0 <= i < NUM_SHARDS ensures LegalRun(Empty(1), ShardOps([Insert(e)], i)) {
      OneShardOp(Insert(e), i);
    }
  }

  lemma LegalNoneOrOne(e: Handle)
    ensures LegalRun(Empty(1), []) && LegalRun(Empty(1), [Insert(e)])
  {
    assert [Insert(e)][..0] == [];
  }

  lemma OneShardOp(op: Op, i: nat)
    ensures ShardOps([op], i) == if Concerns(op, i) then [op] else []
  {
    assert [op][..0] == [];
    hide Concerns;
    assert ShardOps([op], i) == ShardOps([op][..0], i) + if Concerns(op, i) then [op] else [];
  }

  /** An insertion that does not fit in its shard need not take the total above the bound. */
  lemma NoRoomYetWithinTotal(e: Handle)
    requires 1 < e.charge <= NUM_SHARDS && e.hash < UINT32
    ensures LegalShards(1, [Insert(e)]) && !Fits(Fresh(1)[Shard(e.hash)], Insert(e))
    ensures Total(RunAll(Fresh(1), [Insert(e)])) == e.charge <= NUM_SHARDS * PerShard(1)
  {
    var shards := Fresh(1);
    assert [Insert(e)][..0] == [];
    assert RunAll(shards, [Insert(e)]) == StepAll(shards, Insert(e));
    OneInsertLegal(e);
    hide LegalShards, StepAll, RunAll, ChargeAfter;
    FreshTotal(1);
    InsertTotal(shards, e);
  }

  /** That nothing is held does not suffice: a released entry larger than the whole cache stays in it. */
  lemma NothingHeldYetOverTotal(e: Handle)
    requires e.charge > NUM_SHARDS && e.hash < UINT32
    ensures var after := RunAll(Fresh(1), [Insert(e), Release(e)]);
      && (forall i :: 0 <= i < NUM_SHARDS ==> after[i].pins == multiset{})
      && Total(after) > NUM_SHARDS * PerShard(1)
  {
    var ops := [Insert(e), Release(e)];
    var after, s := RunAll(Fresh(1), ops), Shard(e.hash);
    forall i | 0 <= i < NUM_SHARDS ensures after[i] == Run(Empty(1), if i == s then ops else []) {
      ShardsAreIndependent(Fresh(1), ops, i);
      TwoShardOps(ops, i);
    }
    NothingHeldYetOverCapacity(e);
    SumOne(e);
    TotalAtLeast(after, s);
  }

  lemma TwoShardOps(ops: seq<Op>, i: nat)
    requires |ops| == 2 && !ops[0].Prune? && !ops[1].Prune? && OpHash(ops[0]) == OpHash(ops[1])
    ensures ShardOps(ops, i) == if i == Shard(OpHash(ops[0])) then ops else []
  {
    assert ops[..1] == [ops[0]] && ops == [ops[0]] + [ops[1]];
    OneShardOp(ops[0], i);
    hide Shard;
    assert ShardOps(ops, i) == ShardOps(ops[..1], i) + if Concerns(ops[1], i) then [ops[1]] else [];
  }

  lemma {:induction false} TotalAtLeast(shards: seq<Cache>, i: nat)
    requires i < |shards|
    ensures Total(shards) >= Usage(shards[i])
  {
    if i > 0 {
      TotalAtLeast(shards[1..], i - 1);
    }
  }

  /** A shard, and the objects that it alone may change. */
  ghost predicate Owns(part: set<object>, c: LRUCache)
    reads c, part
  {
    && c in part && c.table in part && c.table.list in part && c.lru in part && c.inUse in part
    && Known(c.State()) <= part && c.Valid()
  }

  lemma OwnsFacts(part: set<object>, c: LRUCache)
    requires Owns(part, c)
    ensures c in part && c.table in part && c.table.list in part && c.lru in part && c.inUse in part
    ensures Known(c.State()) <= part && c.Valid() && Inv(c.State())
    ensures forall k :: 0 <= k < |c.lruList| ==> c.lruList[k] in part
    ensures forall k :: 0 <= k < |c.inUseList| ==> c.inUseList[k] in part
  {
    c.Oldest();
    forall k | 0 <= k < |c.lruList| ensures c.lruList[k] in part {
      assert c.lruList[k] in Known(c.State());
    }
    forall k | 0 <= k < |c.inUseList| ensures c.inUseList[k] in part {
      assert c.inUseList[k] in Known(c.State());
    }
  }

  lemma OwnsFrom(part: set<object>, c: LRUCache)
    requires c in part && c.table in part && c.table.list in part && c.lru in part && c.inUse in part
    requires Known(c.State()) <= part && c.Valid()
    ensures Owns(part, c)
  {
  }

  lemma StaysKnown(s: Cache, op: Op)
    requires Inv(s)
    requires match op case Insert(e) => e !in Known(s) case Release(h) => h in s.pins case _ => true
    ensures Known(Step(s, op)) == Known(s) + if op.Insert? then {op.e} else {}
  {
    StepKeeps(s, op);
  }

  lemma HeldIsKnown(s: Cache, h: Handle)
    requires h in s.pins
    ensures h in Known(s)
  {
  }

  method NewShard(capacity: nat) returns (c: LRUCache, ghost part: set<object>)
    ensures fresh(part) && c in part && Owns(part, c) && c.State() == Empty(capacity)
  {
    hide *;
    EmptyFacts(capacity);
    c := new LRUCache(capacity);
    part := {c, c.table, c.table.list, c.lru, c.inUse};
    OwnsFrom(part, c);
  }

  // One operation on the shard c, which owns the objects in part.

  method LookupIn(c: LRUCache, key: ByteSeq, hash: nat, ghost part: set<object>) returns (e: Handle?)
    requires Owns(part, c)
    modifies part
    ensures Owns(part, c) && c.State() == Step(old(c.State()), Op.Lookup(key, hash))
    ensures e == FindCached(old(c.State()), key, hash)
  {
    hide *;
    OwnsFacts(part, c);
    StaysKnown(c.State(), Op.Lookup(key, hash));
    e := c.Lookup(key, hash);
    OwnsFrom(part, c);
  }

  method ReleaseIn(c: LRUCache, h: Handle, ghost part: set<object>)
    requires Owns(part, c) && h in c.State().pins
    modifies part
    ensures Owns(part, c) && c.State() == Step(old(c.State()), Op.Release(h))
  {
    hide *;
    OwnsFacts(part, c);
    HeldIsKnown(c.State(), h);
    StaysKnown(c.State(), Op.Release(h));
    c.Release(h);
    OwnsFrom(part, c);
  }

  method EraseIn(c: LRUCache, key: ByteSeq, hash: nat, ghost part: set<object>)
    requires Owns(part, c)
    modifies part
    ensures Owns(part, c) && c.State() == Step(old(c.State()), Op.Erase(key, hash))
  {
    hide *;
    OwnsFacts(part, c);
    StaysKnown(c.State(), Op.Erase(key, hash));
    c.Erase(key, hash);
    OwnsFrom(part, c);
  }

  method PruneIn(c: LRUCache, ghost part: set<object>)
    requires Owns(part, c)
    modifies part
    ensures Owns(part, c) && c.State() == Step(old(c.State()), Op.Prune)
  {
    hide *;
    OwnsFacts(part, c);
    StaysKnown(c.State(), Op.Prune);
    c.Prune();
    OwnsFrom(part, c);
  }

  method InsertIn(c: LRUCache, key: ByteSeq, hash: nat, value: int, charge: nat, ghost part: set<object>)
    returns (e: Handle, ghost grown: set<object>)
    requires Owns(part, c)
    modifies part
    ensures part <= grown && fresh(grown - part) && Owns(grown, c)
    ensures fresh(e) && e.key == key && e.hash == hash && e.value == value && e.charge == charge
    ensures c.State() == Step(old(c.State()), Op.Insert(e))
  {
    hide *;
    ghost var s := c.State();
    OwnsFacts(part, c);
    e := c.Insert(key, hash, value, charge);
    StaysKnown(s, Op.Insert(e));
    grown := part + {e, c.table.list};
    OwnsFrom(grown, c);
  }

  lemma PruneAll(before: seq<Cache>, after: seq<Cache>)
    requires |after| == |before| && forall i :: 0 <= i < |before| ==> after[i] == Step(before[i], Op.Prune)
    ensures after == StepAll(before, Op.Prune)
  {
    hide Step;
  }

  ghost function StatesOf(q: seq<LRUCache>): seq<Cache>
    reads q
  {
    if q == [] then [] else [q[0].State()] + StatesOf(q[1..])
  }

  lemma {:induction false} StatesOfAre(q: seq<LRUCache>)
    ensures |StatesOf(q)| == |q| && forall i :: 0 <= i < |q| ==> StatesOf(q)[i] == q[i].State()
  {
    if q != [] {
      StatesOfAre(q[1..]);
      forall i | 0 < i < |q| ensures StatesOf(q)[i] == q[i].State() {
        assert q[i] == q[1..][i - 1];
      }
    }
  }

  class ShardedLRUCache {
    const shards: seq<LRUCache>
    const hashOf: ByteSeq -> nat    // Hash, a deterministic function
    var lastId: nat
    ghost var parts: seq<set<object>>

    ghost predicate Valid()
      reads this, set i, o | 0 <= i < |parts| && o in parts[i] :: o
    {
      && |shards| == NUM_SHARDS == |parts| && (forall key :: hashOf(key) < UINT32)
      && (forall i :: 0 <= i < NUM_SHARDS ==> shards[i] in parts[i] && this !in parts[i] && Owns(parts[i], shards[i]))
      && (forall i, j :: 0 <= i < j < NUM_SHARDS ==> parts[i] !! parts[j])
    }

    /** What the shards hold. */
    ghost function States(): (s: seq<Cache>)
      reads shards
    {
      StatesOf(shards)
    }

    lemma StatesAre()
      ensures |States()| == |shards| && forall i :: 0 <= i < |shards| ==> States()[i] == shards[i].State()
    {
      StatesOfAre(shards);
    }

    method Lookup(key: ByteSeq) returns (e: Handle?)
      requires Valid()
      modifies parts[Shard(hashOf(key))]
      ensures Valid()
      ensures States() == StepAll(old(States()), Op.Lookup(key, hashOf(key)))
      ensures StepsOne(old(States()), States(), hashOf(key), Op.Lookup(key, hashOf(key)))
      ensures Shard(hashOf(key)) < |shards|
      ensures e == FindCached(old(shards[Shard(hashOf(key))].State()), key, hashOf(key))
      ensures FoundInOne(old(States()), key, hashOf(key), e)
    {
      var hash := hashOf(key);
      ghost var before := States();
      StatesAre();
      hide Owns, Step, States, FindCached;
      var i := Shard(hash);
      e := LookupIn(shards[i], key, hash, parts[i]);
      StatesAre();
      assert States() == StepAll(before, Op.Lookup(key, hash));
      OneSteps(before, hash, Op.Lookup(key, hash));
      FoundIn(before, key, hash, e);
    }

    method Erase(key: ByteSeq)
      requires Valid()
      modifies parts[Shard(hashOf(key))]
      ensures Valid()
      ensures States() == StepAll(old(States()), Op.Erase(key, hashOf(key)))
      ensures StepsOne(old(States()), States(), hashOf(key), Op.Erase(key, hashOf(key)))
    {
      var hash := hashOf(key);
      ghost var before := States();
      StatesAre();
      hide Owns, Step, States;
      var i := Shard(hash);
      EraseIn(shards[i], key, hash, parts[i]);
      StatesAre();
      assert States() == StepAll(before, Op.Erase(key, hash));
      OneSteps(before, hash, Op.Erase(key, hash));
    }

    /** A handle goes back to the shard that its hash names, which gave it out. */
    method Release(h: Handle)
      requires Valid() && h.hash < UINT32 && h in shards[Shard(h.hash)].State().pins
      modifies parts[Shard(h.hash)]
      ensures Valid()
      ensures States() == StepAll(old(States()), Op.Release(h))
      ensures StepsOne(old(States()), States(), h.hash, Op.Release(h))
    {
      ghost var before := States();
      StatesAre();
      hide Owns, Step, States;
      var i := Shard(h.hash);
      ReleaseIn(shards[i], h, parts[i]);
      StatesAre();
      assert States() == StepAll(before, Op.Release(h));
      OneSteps(before, h.hash, Op.Release(h));
    }

    method Insert(key: ByteSeq, value: int, charge: nat) returns (e: Handle)
      requires Valid()
      modifies this`parts, parts[Shard(hashOf(key))]
      ensures Valid() && fresh(e) && e.key == key && e.hash == hashOf(key) && e.value == value && e.charge == charge
      ensures States() == StepAll(old(States()), Op.Insert(e))
      ensures StepsOne(old(States()), States(), hashOf(key), Op.Insert(e))
    {
      var hash := hashOf(key);
      ghost var before := States();
      StatesAre();
      hide Owns, Step, States;
      var i := Shard(hash);
      ghost var grown;
      e, grown := InsertIn(shards[i], key, hash, value, charge, parts[i]);
      parts := parts[i := grown];
      StatesAre();
      assert States() == StepAll(before, Op.Insert(e));
      OneSteps(before, hash, Op.Insert(e));
    }

    /** What remains to be added. */
    ghost function TotalFrom(i: nat): nat
      reads shards
    {
      if i < |shards| then Total(StatesOf(shards[i..])) else 0
    }

    method TotalCharge() returns (total: nat)
      requires Valid()
      ensures total == Total(States())
    {
      hide *;
      total := 0;
      var i := 0;
      Shape();
      while i < NUM_SHARDS
        invariant i <= NUM_SHARDS && total + TotalFrom(i) == Total(States())
      {
        UsageIs(i);
        total := total + shards[i].usage;
        i := i + 1;
      }
    }

    lemma Shape()
      requires Valid()
      ensures |shards| == NUM_SHARDS == |parts| && NUM_SHARDS > 0 && States() == StatesOf(shards)
      ensures TotalFrom(0) == Total(States()) && TotalFrom(NUM_SHARDS) == 0
    {
      assert shards[0..] == shards;
    }

    lemma UsageIs(i: nat)
      requires Valid() && i < NUM_SHARDS
      ensures TotalFrom(i) == shards[i].usage + TotalFrom(i + 1)
    {
      OwnsFacts(parts[i], shards[i]);
      shards[i].ValidFacts();
      var q := shards[i..];
      assert q[0] == shards[i];
      assert q[1..] == shards[i + 1..];
      var r := StatesOf(shards[i + 1..]);
      assert ([q[0].State()] + r)[1..] == r;
    }

    method PruneShard(i: nat)
      requires Valid() && i < NUM_SHARDS
      modifies parts[i]
      ensures Valid() && parts == old(parts) && shards[i].State() == Step(old(shards[i].State()), Op.Prune)
      ensures forall j :: 0 <= j < NUM_SHARDS && j != i ==> shards[j].State() == old(shards[j].State())
    {
      hide Owns, Step;
      PruneIn(shards[i], parts[i]);
    }

    method Prune()
      requires Valid()
      modifies set i, o | 0 <= i < |parts| && o in parts[i] :: o
      ensures Valid() && States() == StepAll(old(States()), Op.Prune)
    {
      hide *;
      Shape();
      ghost var before := States();
      StatesAre();
      var i := 0;
      while i < NUM_SHARDS
        invariant i <= NUM_SHARDS && Valid() && parts == old(parts)
        invariant forall j :: 0 <= j < NUM_SHARDS ==> shards[j].State() == if j < i then Step(before[j], Op.Prune) else before[j]
      {
        PruneShard(i);
        i := i + 1;
      }
      StatesAre();
      PruneAll(before, States());
    }

    method NewId() returns (id: nat)
      modifies this`lastId
      ensures id == lastId == old(lastId) + 1
    {
      lastId := lastId + 1;
      id := lastId;
    }

    constructor (capacity: nat, hashOf: ByteSeq -> nat)
      requires forall key :: hashOf(key) < UINT32
      ensures Valid() && States() == Fresh(capacity) && this.hashOf == hashOf
    {
      hide Owns;
      var q: seq<LRUCache> := [];
      ghost var p: seq<set<object>> := [];
      while |q| < NUM_SHARDS
        invariant |q| == |p| <= NUM_SHARDS
        invariant forall i :: 0 <= i < |q| ==> q[i] in p[i] && Owns(p[i], q[i]) && fresh(p[i])
        invariant forall i, j :: 0 <= i < j < |q| ==> p[i] !! p[j]
        invariant forall i :: 0 <= i < |q| ==> q[i].State() == Empty(PerShard(capacity))
      {
        var c, part := NewShard(PerShard(capacity));
        q, p := q + [c], p + [part];
      }
      shards, parts, lastId, this.hashOf := q, p, 0, hashOf;
      new;
      StatesAre();
    }
  }
}

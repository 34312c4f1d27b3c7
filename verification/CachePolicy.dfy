/** What the eviction policy of one shard guarantees over whole runs: the order of the lru list, and the bound
    on the total charge. */
module CachePolicy {
  import opened Bytes
  import opened CacheModel
  import opened HandleTable

  // ---------- the lru list is in the order in which its entries were let go ----------

  /** op lets go of the last reference to h that a client has. */
  predicate Frees(s: Cache, op: Op, h: Handle) {
    op == Release(h) && s.pins[h] == 1
  }

  /** The number of the last operation of the run that freed h, or -1. */
  function FreedAt(s: Cache, ops: seq<Op>, h: Handle): int {
    if ops == [] then -1
    else
      var n := |ops| - 1;
      if Frees(Run(s, ops[..n]), ops[n], h) then n else FreedAt(s, ops[..n], h)
  }

  ghost predicate ByRecency(s: Cache, ops: seq<Op>, q: seq<Handle>) {
    && (forall i :: 0 <= i < |q| ==> 0 <= FreedAt(s, ops, q[i]))
    && (forall i, j :: 0 <= i < j < |q| ==> FreedAt(s, ops, q[i]) < FreedAt(s, ops, q[j]))
  }

  lemma {:induction false} FreedBefore(s: Cache, ops: seq<Op>, h: Handle)
    ensures FreedAt(s, ops, h) < |ops|
  {
    if ops != [] {
      FreedBefore(s, ops[..|ops| - 1], h);
    }
  }

  lemma ByRecencyCut(s: Cache, ops: seq<Op>, q: seq<Handle>, k: nat)
    requires ByRecency(s, ops, q) && k < |q|
    ensures ByRecency(s, ops, Cut(q, k))
  {
    hide FreedAt;
    var c := Cut(q, k);
    assert forall i :: 0 <= i < |c| ==> c[i] == q[if i < k then i else i + 1];
  }

  lemma ByRecencyWithout(s: Cache, ops: seq<Op>, q: seq<Handle>, h: Handle)
    requires ByRecency(s, ops, q) && Distinct(q)
    ensures ByRecency(s, ops, Without(q, h))
  {
    hide ByRecency;
    if h in q {
      var k :| 0 <= k < |q| && q[k] == h;
      WithoutIsCut(q, k);
      ByRecencyCut(s, ops, q, k);
    } else {
      WithoutAbsent(q, h);
    }
  }

  lemma ByRecencyFrom(s: Cache, ops: seq<Op>, q: seq<Handle>, n: nat)
    requires ByRecency(s, ops, q) && n <= |q|
    ensures ByRecency(s, ops, q[n..])
  {
    hide FreedAt;
    var c := q[n..];
    assert forall i :: 0 <= i < |c| ==> c[i] == q[n + i];
  }

  /** An operation that frees nothing in q leaves the order of q as it was. */
  lemma ByRecencyLater(s: Cache, ops: seq<Op>, q: seq<Handle>)
    requires ops != [] && ByRecency(s, ops[..|ops| - 1], q)
    requires forall h :: h in q ==> !Frees(Run(s, ops[..|ops| - 1]), ops[|ops| - 1], h)
    ensures ByRecency(s, ops, q)
  {
    hide Run, Frees;
    var n := |ops| - 1;
    forall i | 0 <= i < |q| ensures FreedAt(s, ops, q[i]) == FreedAt(s, ops[..n], q[i]) {
      assert q[i] in q;
    }
  }

  lemma ByRecencyAppend(s: Cache, ops: seq<Op>, q: seq<Handle>, h: Handle)
    requires ByRecency(s, ops, q) && ops != [] && FreedAt(s, ops, h) == |ops| - 1
    requires forall x :: x in q ==> FreedAt(s, ops, x) < |ops| - 1
    ensures ByRecency(s, ops, q + [h])
  {
    hide FreedAt;
  }

  /** The entry that joins the lru list in a step, if one does. */
  function Joining(s: Cache, op: Op): seq<Handle> {
    if op.Release? && Frees(s, op, op.h) && op.h in s.inUse then [op.h] else []
  }

  ghost predicate Remains(s0: Cache, ops: seq<Op>, before: seq<Handle>, q: seq<Handle>) {
    ByRecency(s0, ops, q) && forall h :: h in q ==> h in before
  }

  lemma RemainsWithout(s0: Cache, ops: seq<Op>, q: seq<Handle>, h: Handle)
    requires ByRecency(s0, ops, q) && Distinct(q)
    ensures Remains(s0, ops, q, Without(q, h))
  {
    ByRecencyWithout(s0, ops, q, h);
    WithoutElements(q, h);
  }

  lemma RemainsFrom(s0: Cache, ops: seq<Op>, before: seq<Handle>, q: seq<Handle>, n: nat)
    requires Remains(s0, ops, before, q) && n <= |q|
    ensures Remains(s0, ops, before, q[n..])
  {
    ByRecencyFrom(s0, ops, q, n);
  }

  lemma InsertLru(s: Cache, e: Handle, s0: Cache, ops: seq<Op>)
    requires Inv(s) && e !in Known(s) && ByRecency(s0, ops, s.lru)
    ensures Remains(s0, ops, s.lru, Step(s, Insert(e)).lru)
  {
    var t, was := Admit(s, e), FindCached(s, e.key, e.hash);
    AdmitLru(s, e);
    if s.capacity > 0 && was != null {
      RemainsWithout(s0, ops, s.lru, was);
    }
    EvictsShortestPrefix(t);
    assert Remains(s0, ops, s.lru, s.lru);
    hide Inv, Remains, ByRecency, Known, FindCached, Admit, Evict, Without;
    var n :| EvictedFirst(t, Evict(t), n);
    RemainsFrom(s0, ops, s.lru, t.lru, n);
  }

  /** What one operation does to the lru list: entries leave it, or a freed one joins it at the end. */
  lemma StepLru(s: Cache, op: Op, s0: Cache, ops: seq<Op>) returns (q: seq<Handle>)
    requires Inv(s) && Legal(s, op) && ByRecency(s0, ops, s.lru)
    ensures Remains(s0, ops, s.lru, q) && Step(s, op).lru == q + Joining(s, op)
  {
    q := if Joining(s, op) == [] then Step(s, op).lru else s.lru;
    assert Joining(s, op) == [] ==> q + Joining(s, op) == q;
    hide ByRecency, Known, Usage, FindCached, Without;
    match op
    case Insert(e) =>
      InsertLru(s, e, s0, ops);
    case Lookup(key, hash) =>
      var h := FindCached(s, key, hash);
      if h != null {
        RemainsWithout(s0, ops, s.lru, h);
      }
    case Release(h) =>
    case Erase(key, hash) =>
      var h := FindCached(s, key, hash);
      if h != null {
        RemainsWithout(s0, ops, s.lru, h);
      }
    case Prune =>
      ClearsAll(s);
      RemainsFrom(s0, ops, s.lru, s.lru, |s.lru|);
  }

  lemma AdmitLru(s: Cache, e: Handle)
    requires Inv(s) && e !in Known(s)
    ensures var was := FindCached(s, e.key, e.hash);
      Inv(Admit(s, e)) && Admit(s, e).lru == if s.capacity > 0 && was != null then Without(s.lru, was) else s.lru
  {
    hide Without, Find;
    if s.capacity > 0 {
      AdmitKeeps(s, e);
    } else {
      AdmitUncached(s, e);
    }
  }

  /** In every reachable state the lru list is in the order in which its entries last became unreferenced. */
  lemma {:induction false} LruIsByRecency(capacity: nat, ops: seq<Op>)
    requires LegalRun(Empty(capacity), ops)
    ensures ByRecency(Empty(capacity), ops, Run(Empty(capacity), ops).lru)
  {
    if ops != [] {
      var n, s0 := |ops| - 1, Empty(capacity);
      var s := Run(s0, ops[..n]);
      hide ByRecency, Step, Legal, Inv, Joining, Known, Remains;
      LegalPrefix(s0, ops, n);
      LruIsByRecency(capacity, ops[..n]);
      RunKeeps(capacity, ops[..n]);
      LegalAt(s0, ops, n);
      var q := StepLru(s, ops[n], s0, ops[..n]);
      StillByRecency(s0, ops, s, q);
    }
  }

  lemma StillByRecency(s0: Cache, ops: seq<Op>, s: Cache, q: seq<Handle>)
    requires ops != [] && s == Run(s0, ops[..|ops| - 1]) && Inv(s) && Remains(s0, ops[..|ops| - 1], s.lru, q)
    ensures ByRecency(s0, ops, q + Joining(s, ops[|ops| - 1]))
  {
    hide ByRecency, Known, Usage, Step;
    var n, op := |ops| - 1, ops[|ops| - 1];
    forall h | h in q ensures !Frees(s, op, h) && FreedAt(s0, ops, h) < n {
      FreedBefore(s0, ops[..n], h);
    }
    ByRecencyLater(s0, ops, q);
    if Joining(s, op) == [] {
      assert q + Joining(s, op) == q;
    } else {
      ByRecencyAppend(s0, ops, q, op.h);
    }
  }

  // ---------- the total charge ----------

  /** Before the call: what clients hold, without the entry that is replaced, leaves room for the new one. */
  predicate Fits(s: Cache, op: Op) {
    op.Insert? && s.capacity > 0 ==> HeldAfter(s, op.e) <= s.capacity
  }

  /** What clients hold once e has taken the place of the entry with its key. */
  function HeldAfter(s: Cache, e: Handle): int {
    var was := FindCached(s, e.key, e.hash);
    Sum(s.inUse) + e.charge - if was != null && was in s.inUse then was.charge else 0
  }

  lemma AdmitHeld(s: Cache, e: Handle)
    requires Inv(s) && e !in Known(s) && s.capacity > 0
    ensures Sum(Admit(s, e).inUse) == HeldAfter(s, e)
  {
    FindCachedIs(s, e.key, e.hash);
    var was, q := FindCached(s, e.key, e.hash), s.inUse + [e];
    hide FindCached, Sum, Without, Distinct;
    Appended(s.inUse, e);
    if was != null {
      NotCached(s, e);
      Removed(q, was);
    }
  }

  lemma SumSuffix(q: seq<Handle>, n: nat)
    requires n <= |q|
    ensures Sum(q[n..]) == Sum(q) - Sum(q[..n]) >= 0
  {
    SumConcat(q[..n], q[n..]);
    assert q == q[..n] + q[n..];
  }

  /** After an insertion the total charge is within the capacity exactly if what clients hold is. */
  lemma InsertWithinCapacity(s: Cache, e: Handle)
    requires Inv(s) && e !in Known(s)
    ensures Usage(Step(s, Insert(e))) <= s.capacity <==> Fits(s, Insert(e))
  {
    var t := Admit(s, e);
    if s.capacity == 0 {
      AdmitUncached(s, e);
    } else {
      AdmitKeeps(s, e);
      AdmitHeld(s, e);
      EvictsShortestPrefix(t);
      hide Admit, Evict, Known, Inv, Cached, HeldAfter, Sum;
      var n :| EvictedFirst(t, Evict(t), n);
      SumSuffix(t.lru, n);
      SumNone();
      AdmitSameCapacity(s, e);
    }
  }

  lemma SumNone()
    ensures Sum([]) == 0
  {
  }

  /** The charge of the newest entries of a list that stay when there is this much room. */
  function Kept(q: seq<Handle>, room: int): nat {
    if q == [] || Sum(q) <= room then Sum(q) else Kept(q[1..], room)
  }

  /** The total charge after an insertion, from what is known before it: what clients hold, and the newest other
      entries that find room beside it. */
  function ChargeAfter(s: Cache, e: Handle): int {
    var was, held := FindCached(s, e.key, e.hash), HeldAfter(s, e);
    if s.capacity == 0 then Usage(s)
    else held + Kept(if was == null then s.lru else Without(s.lru, was), s.capacity - held)
  }

  lemma EvictsFirst(s: Cache) returns (t: Cache)
    requires Inv(s) && Usage(s) > s.capacity && s.lru != []
    ensures t == s.(lru := s.lru[1..], deleted := s.deleted + [s.lru[0]]) && Inv(t) && Evict(s) == Evict(t)
  {
    t := Drop(s, s.lru[0]);
    FirstDropped(s);
    hide Sound, Known, Cached, UniqueIds, Usage, Drop;
    FirstIsCached(s);
    DropKeeps(s, s.lru[0]);
    UniqueIfFewer(Cached(s), Cached(t));
  }

  lemma {:induction false} EvictedCharge(s: Cache)
    requires Inv(s)
    ensures Usage(Evict(s)) == Sum(s.inUse) + Kept(s.lru, s.capacity - Sum(s.inUse))
    decreases |s.lru|
  {
    hide Inv;
    if Usage(s) > s.capacity && s.lru != [] {
      var t := EvictsFirst(s);
      EvictedCharge(t);
      hide Sum, Evict;
    }
  }

  lemma {:induction false} NoneKept(q: seq<Handle>, room: int)
    requires room < 0
    ensures Kept(q, room) == 0
  {
    if q != [] {
      NoneKept(q[1..], room);
    }
  }

  /** The total charge after an insertion; one that does not fit leaves exactly what clients hold. */
  lemma InsertCharge(s: Cache, e: Handle)
    requires Inv(s) && e !in Known(s)
    ensures Usage(Step(s, Insert(e))) == ChargeAfter(s, e)
    ensures !Fits(s, Insert(e)) ==> Usage(Step(s, Insert(e))) == HeldAfter(s, e)
  {
    var t, held := Admit(s, e), HeldAfter(s, e);
    AdmitLru(s, e);
    EvictedCharge(t);
    if s.capacity == 0 {
      AdmitUncached(s, e);
    } else {
      hide Inv, Known, Evict, FindCached, Sum, Without, Admit, HeldAfter;
      AdmitHeld(s, e);
      AdmitSameCapacity(s, e);
      if held > s.capacity {
        NoneKept(t.lru, s.capacity - held);
      }
    }
  }

  /** No other operation raises the total charge. */
  lemma OthersDoNotRaise(s: Cache, op: Op)
    requires Inv(s) && Legal(s, op) && !op.Insert?
    ensures Usage(Step(s, op)) <= Usage(s)
  {
    hide Known, Cached, FindCached, Usage, Drop, Pin, Unpin, Sound;
    match op
    case Lookup(key, hash) =>
      FindCachedIs(s, key, hash);
      if FindCached(s, key, hash) != null {
        PinKeeps(s, FindCached(s, key, hash));
      }
    case Release(h) =>
      UnpinKeeps(s, h);
    case Erase(key, hash) =>
      FindCachedIs(s, key, hash);
      DropKeeps(s, FindCached(s, key, hash));
    case Prune =>
      ClearKeeps(s);
  }

  ghost predicate AlwaysWithin(s: Cache, ops: seq<Op>) {
    forall k :: 0 <= k <= |ops| ==> Usage(Run(s, ops[..k])) <= s.capacity
  }

  ghost predicate AlwaysFits(s: Cache, ops: seq<Op>) {
    forall k :: 0 <= k < |ops| ==> Fits(Run(s, ops[..k]), ops[k])
  }

  lemma StepWithin(capacity: nat, ops: seq<Op>, k: nat)
    requires LegalRun(Empty(capacity), ops) && k < |ops| && Usage(Run(Empty(capacity), ops[..k])) <= capacity
    ensures Usage(Run(Empty(capacity), ops[..k + 1])) <= capacity <==> Fits(Run(Empty(capacity), ops[..k]), ops[k])
  {
    var s0 := Empty(capacity);
    var s := Run(s0, ops[..k]);
    assert ops[..k + 1][..k] == ops[..k];
    assert Run(s0, ops[..k + 1]) == Step(s, ops[k]);
    LegalPrefix(s0, ops, k);
    RunKeeps(capacity, ops[..k]);
    hide Known, Step, Run, Usage, Inv, HeldAfter;
    LegalAt(s0, ops, k);
    if ops[k].Insert? {
      InsertWithinCapacity(s, ops[k].e);
    } else {
      OthersDoNotRaise(s, ops[k]);
    }
  }

  /** Over a whole run: the total charge never exceeds the capacity exactly if every insertion finds room
      beside what clients hold. */
  lemma WithinCapacityIffFits(capacity: nat, ops: seq<Op>)
    requires LegalRun(Empty(capacity), ops)
    ensures AlwaysWithin(Empty(capacity), ops) <==> AlwaysFits(Empty(capacity), ops)
  {
    hide Run, LegalRun, Fits, Usage;
    var s0 := Empty(capacity);
    if AlwaysWithin(s0, ops) {
      forall k | 0 <= k < |ops| ensures Fits(Run(s0, ops[..k]), ops[k]) {
        StepWithin(capacity, ops, k);
      }
    }
    if AlwaysFits(s0, ops) {
      forall k | 0 <= k <= |ops| ensures Usage(Run(s0, ops[..k])) <= capacity {
        WithinUpTo(capacity, ops, k);
      }
    }
  }

  lemma {:induction false} WithinUpTo(capacity: nat, ops: seq<Op>, k: nat)
    requires LegalRun(Empty(capacity), ops) && AlwaysFits(Empty(capacity), ops) && k <= |ops|
    ensures Usage(Run(Empty(capacity), ops[..k])) <= capacity
  {
    if k == 0 {
      assert ops[..0] == [];
    } else {
      hide Run, LegalRun, Fits, Usage;
      WithinUpTo(capacity, ops, k - 1);
      StepWithin(capacity, ops, k - 1);
    }
  }

  /** Releasing the last handle evicts nothing: an entry too large for the cache stays, held by nobody, and the
      total charge stays above the capacity. */
  lemma NothingHeldYetOverCapacity(e: Handle)
    requires e.charge > 1
    ensures var ops := [Insert(e), Release(e)];
      LegalRun(Empty(1), ops) && Run(Empty(1), ops) == Cache(1, [e], [], multiset{}, []) && Usage(Run(Empty(1), ops)) > 1
  {
    var ops, s0, t := [Insert(e), Release(e)], Empty(1), Cache(1, [], [e], multiset{e}, []);
    SumOne(e);
    assert Step(s0, Insert(e)) == t by {
      assert FindCached(s0, e.key, e.hash) == null;
      assert Admit(s0, e) == t by {
        assert [] + [e] == [e];
      }
    }
    assert Step(t, Release(e)) == Cache(1, [e], [], multiset{}, []) by {
      WithoutIsCut([e], 0);
    }
    assert ops[..0] == [] && ops[..1] == [Insert(e)] && ops[..1][..0] == [];
    hide Step;
    assert Run(s0, []) == s0;
    assert Run(s0, ops[..1]) == t;
    assert Run(s0, ops) == Step(t, Release(e));
  }
}

/** One shard of the cache of src/cache/cache.cpp as a value: what its operations do to the two lists, to
    the handles held by clients and to the entries given to their deleters. */
module CacheModel {
  import opened Bytes
  import opened HandleTable

  datatype Cache = Cache(
    capacity: nat,
    lru: seq<Handle>,        // the lru_ list, oldest first
    inUse: seq<Handle>,      // the in_use_ list
    pins: multiset<Handle>,  // each entry as often as clients hold it
    deleted: seq<Handle>)    // the entries passed to their deleters, in order

  function Elements(q: seq<Handle>): set<Handle> {
    set h | h in q
  }

  /** The entries of the table. */
  function Cached(s: Cache): set<Handle> {
    Elements(s.lru) + Elements(s.inUse)
  }

  /** Every entry the cache ever made. */
  function Known(s: Cache): set<Handle> {
    Cached(s) + (set h | h in s.pins) + Elements(s.deleted)
  }

  /** The reference count: the clients' references and the cache's own. */
  function Refs(s: Cache, h: Handle): nat {
    s.pins[h] + if h in Cached(s) then 1 else 0
  }

  function Sum(q: seq<Handle>): nat {
    if q == [] then 0 else q[0].charge + Sum(q[1..])
  }

  function Usage(s: Cache): nat {
    Sum(s.lru) + Sum(s.inUse)
  }

  function Without(q: seq<Handle>, h: Handle): seq<Handle> {
    if q == [] then [] else (if q[0] == h then [] else [q[0]]) + Without(q[1..], h)
  }

  /** The first entry with the key and hash. */
  function Find(q: seq<Handle>, key: ByteSeq, hash: nat): Handle? {
    if q == [] then null else if Matches(q[0], key, hash) then q[0] else Find(q[1..], key, hash)
  }

  // ---------- the operations ----------

  function Empty(capacity: nat): Cache {
    Cache(capacity, [], [], multiset{}, [])
  }

  /** Ref: a client takes hold of an entry. */
  function Pin(s: Cache, h: Handle): Cache {
    if h in s.lru then s.(lru := Without(s.lru, h), inUse := s.inUse + [h], pins := s.pins + multiset{h})
    else s.(pins := s.pins + multiset{h})
  }

  /** Unref: a client lets an entry go. */
  function Unpin(s: Cache, h: Handle): Cache {
    var t := s.(pins := s.pins - multiset{h});
    if t.pins[h] > 0 then t
    else if h in s.inUse then t.(inUse := Without(s.inUse, h), lru := s.lru + [h])
    else t.(deleted := s.deleted + [h])
  }

  /** FinishErase: an entry leaves the cache, and lives on only while a client holds it. */
  function Drop(s: Cache, h: Handle?): Cache {
    if h == null then s
    else s.(lru := Without(s.lru, h), inUse := Without(s.inUse, h),
            deleted := if s.pins[h] == 0 then s.deleted + [h] else s.deleted)
  }

  /** The eviction loop of Insert. */
  function Evict(s: Cache): Cache
    decreases |s.lru|
  {
    if Usage(s) > s.capacity && s.lru != [] then (WithoutShorter(s.lru, s.lru[0]); Evict(Drop(s, s.lru[0]))) else s
  }

  function Clear(s: Cache): Cache
    decreases |s.lru|
  {
    if s.lru != [] then (WithoutShorter(s.lru, s.lru[0]); Clear(Drop(s, s.lru[0]))) else s
  }

  function FindCached(s: Cache, key: ByteSeq, hash: nat): Handle? {
    Find(s.lru + s.inUse, key, hash)
  }

  function Join(s: Cache, e: Handle): Cache {
    s.(inUse := s.inUse + [e], pins := s.pins + multiset{e})
  }

  /** An entry is added for a client, in the place of the one with its key. */
  function Admit(s: Cache, e: Handle): Cache {
    if s.capacity > 0 then Drop(Join(s, e), FindCached(s, e.key, e.hash))
    else s.(pins := s.pins + multiset{e})
  }

  datatype Op =
    | Insert(e: Handle)
    | Lookup(key: ByteSeq, hash: nat)
    | Release(h: Handle)
    | Erase(key: ByteSeq, hash: nat)
    | Prune

  function Step(s: Cache, op: Op): Cache {
    match op
    case Insert(e) => Evict(Admit(s, e))
    case Lookup(key, hash) =>
      var h := FindCached(s, key, hash);
      if h == null then s else Pin(s, h)
    case Release(h) => Unpin(s, h)
    case Erase(key, hash) => Drop(s, FindCached(s, key, hash))
    case Prune => Clear(s)
  }

  /** Insert makes a new entry; only a handle that is held is released. */
  predicate Legal(s: Cache, op: Op) {
    match op
    case Insert(e) => e !in Known(s)
    case Release(h) => h in s.pins
    case _ => true
  }

  function Run(s: Cache, ops: seq<Op>): Cache {
    if ops == [] then s else Step(Run(s, ops[..|ops| - 1]), ops[|ops| - 1])
  }

  predicate LegalRun(s: Cache, ops: seq<Op>) {
    forall k :: 0 <= k < |ops| ==> Legal(Run(s, ops[..k]), ops[k])
  }

  // ---------- sequences ----------

  lemma {:induction false} WithoutShorter(q: seq<Handle>, h: Handle)
    ensures |Without(q, h)| <= |q| && (h in q ==> |Without(q, h)| < |q|)
  {
    if q != [] {
      WithoutShorter(q[1..], h);
    }
  }

  lemma {:induction false} WithoutElements(q: seq<Handle>, h: Handle)
    ensures forall x {:trigger x in q} {:trigger x in Without(q, h)} :: x in Without(q, h) <==> x in q && x != h
  {
    if q != [] {
      WithoutElements(q[1..], h);
    }
  }

  lemma {:induction false} WithoutAbsent(q: seq<Handle>, h: Handle)
    requires h !in q
    ensures Without(q, h) == q
  {
    if q != [] {
      WithoutAbsent(q[1..], h);
    }
  }

  /** In a list without repetitions, what unlinking one node leaves. */
  lemma {:induction false} WithoutIsCut(q: seq<Handle>, k: nat)
    requires Distinct(q) && k < |q|
    ensures Without(q, q[k]) == Cut(q, k)
  {
    if k == 0 {
      WithoutAbsent(q[1..], q[0]);
    } else {
      WithoutIsCut(q[1..], k - 1);
      assert Cut(q, k) == [q[0]] + Cut(q[1..], k - 1);
    }
  }

  lemma {:induction false} SumConcat(p: seq<Handle>, q: seq<Handle>)
    ensures Sum(p + q) == Sum(p) + Sum(q)
  {
    if p == [] {
      assert p + q == q;
    } else {
      SumConcat(p[1..], q);
      assert (p + q)[1..] == p[1..] + q;
    }
  }

  lemma SumOne(h: Handle)
    ensures Sum([h]) == h.charge
  {
    assert [h][1..] == [];
  }

  lemma SumCut(q: seq<Handle>, k: nat)
    requires k < |q|
    ensures Sum(Cut(q, k)) == Sum(q) - q[k].charge
  {
    assert q == q[..k] + ([q[k]] + q[k + 1..]);
    SumConcat(q[..k], [q[k]] + q[k + 1..]);
    SumConcat([q[k]], q[k + 1..]);
    SumOne(q[k]);
    SumConcat(q[..k], q[k + 1..]);
  }

  lemma SumWithout(q: seq<Handle>, h: Handle)
    requires Distinct(q)
    ensures Sum(Without(q, h)) == Sum(q) - if h in q then h.charge else 0
  {
    if h in q {
      var k :| 0 <= k < |q| && q[k] == h;
      WithoutIsCut(q, k);
      SumCut(q, k);
    } else {
      WithoutAbsent(q, h);
    }
  }

  lemma WithoutDistinct(q: seq<Handle>, h: Handle)
    requires Distinct(q)
    ensures Distinct(Without(q, h))
  {
    if h in q {
      var k :| 0 <= k < |q| && q[k] == h;
      WithoutIsCut(q, k);
    } else {
      WithoutAbsent(q, h);
    }
  }

  lemma {:induction false} FindIsMember(q: seq<Handle>, key: ByteSeq, hash: nat)
    ensures var h := Find(q, key, hash);
      && (h == null ==> forall x :: x in q ==> !Matches(x, key, hash))
      && (h != null ==> h in q && Matches(h, key, hash))
  {
    if q != [] && !Matches(q[0], key, hash) {
      FindIsMember(q[1..], key, hash);
    }
  }

  // ---------- what every operation keeps ----------

  /** Every entry is at most once in the two lists; those of lru are not held, those of inUse are; the
      deleted ones are neither cached nor held, and none was deleted twice. */
  ghost predicate Sound(s: Cache) {
    && Distinct(s.lru) && Distinct(s.inUse) && (forall h :: h in s.lru ==> h !in s.inUse)
    && (forall h :: h in s.lru ==> s.pins[h] == 0)
    && (forall h :: h in s.inUse ==> s.pins[h] > 0)
    && Distinct(s.deleted)
    && (forall h :: h in s.deleted ==> h !in s.lru && h !in s.inUse && s.pins[h] == 0)
    && (s.capacity == 0 ==> s.lru == [] && s.inUse == [])
  }

  ghost predicate Inv(s: Cache) {
    Sound(s) && UniqueIds(Cached(s))
  }

  lemma FindCachedIs(s: Cache, key: ByteSeq, hash: nat)
    ensures var h := FindCached(s, key, hash);
      && (h == null ==> forall x :: x in Cached(s) ==> !Matches(x, key, hash))
      && (h != null ==> h in Cached(s) && Matches(h, key, hash))
  {
    FindIsMember(s.lru + s.inUse, key, hash);
  }

  lemma Removed(q: seq<Handle>, h: Handle)
    requires Distinct(q)
    ensures Distinct(Without(q, h)) && Sum(Without(q, h)) == Sum(q) - if h in q then h.charge else 0
    ensures forall x {:trigger x in q} {:trigger x in Without(q, h)} :: x in Without(q, h) <==> x in q && x != h
  {
    WithoutElements(q, h);
    WithoutDistinct(q, h);
    SumWithout(q, h);
  }

  lemma Appended(q: seq<Handle>, h: Handle)
    requires Distinct(q) && h !in q
    ensures Distinct(q + [h]) && Sum(q + [h]) == Sum(q) + h.charge
    ensures forall x {:trigger x in q} {:trigger x in q + [h]} :: x in q + [h] <==> x in q || x == h
  {
    SumConcat(q, [h]);
    SumOne(h);
  }

  lemma PinKeeps(s: Cache, h: Handle)
    requires Sound(s) && h in Cached(s)
    ensures Sound(Pin(s, h)) && Cached(Pin(s, h)) == Cached(s) && Known(Pin(s, h)) == Known(s)
    ensures Usage(Pin(s, h)) == Usage(s)
  {
    hide Without, Sum, Distinct;
    var t := Pin(s, h);
    Removed(s.lru, h);
    if h in s.lru {
      Appended(s.inUse, h);
    }
    assert Distinct(t.lru) && Distinct(t.inUse) && Distinct(t.deleted);
  }

  /** Unref of a held entry of the table, when no client holds it any more. */
  lemma UnpinToLru(s: Cache, h: Handle)
    requires Sound(s) && s.pins[h] == 1 && h in s.inUse
    ensures Sound(Unpin(s, h)) && Cached(Unpin(s, h)) == Cached(s) && Known(Unpin(s, h)) == Known(s)
    ensures Usage(Unpin(s, h)) == Usage(s)
  {
    hide Without, Sum, Distinct;
    var t := Unpin(s, h);
    Removed(s.inUse, h);
    Appended(s.lru, h);
    assert Distinct(t.lru) && Distinct(t.inUse) && Distinct(t.deleted);
  }

  lemma UnpinKeeps(s: Cache, h: Handle)
    requires Sound(s) && h in s.pins
    ensures Sound(Unpin(s, h)) && Cached(Unpin(s, h)) == Cached(s) && Known(Unpin(s, h)) == Known(s)
    ensures Usage(Unpin(s, h)) == Usage(s)
  {
    if s.pins[h] == 1 && h in s.inUse {
      UnpinToLru(s, h);
    } else {
      hide Without, Sum, Distinct;
      var t := Unpin(s, h);
      if s.pins[h] == 1 {
        Appended(s.deleted, h);
      }
      assert Distinct(t.lru) && Distinct(t.inUse) && Distinct(t.deleted);
    }
  }

  lemma DropKeeps(s: Cache, h: Handle?)
    requires Sound(s) && (h != null ==> h in Cached(s))
    ensures Sound(Drop(s, h)) && Cached(Drop(s, h)) == Cached(s) - Only(h) && Known(Drop(s, h)) == Known(s)
    ensures Usage(Drop(s, h)) == Usage(s) - if h == null then 0 else h.charge
  {
    hide Without, Sum, Distinct;
    if h != null {
      var t := Drop(s, h);
      Removed(s.lru, h);
      Removed(s.inUse, h);
      if h !in s.pins {
        Appended(s.deleted, h);
      }
      assert Distinct(t.lru) && Distinct(t.inUse) && Distinct(t.deleted);
    }
  }

  lemma JoinKeeps(s: Cache, e: Handle)
    requires Sound(s) && e !in Known(s) && s.capacity > 0
    ensures Sound(Join(s, e)) && Cached(Join(s, e)) == Cached(s) + {e} && Known(Join(s, e)) == Known(s) + {e}
    ensures Usage(Join(s, e)) == Usage(s) + e.charge
  {
    hide Without, Sum, Distinct;
    Appended(s.inUse, e);
    var t := Join(s, e);
    assert Distinct(t.lru) && Distinct(t.inUse) && Distinct(t.deleted);
  }

  function Charge(h: Handle?): nat {
    if h == null then 0 else h.charge
  }

  lemma AdmitKeeps(s: Cache, e: Handle)
    requires Inv(s) && e !in Known(s) && s.capacity > 0
    ensures Inv(Admit(s, e)) && Known(Admit(s, e)) == Known(s) + {e}
    ensures var was := FindCached(s, e.key, e.hash);
      Cached(Admit(s, e)) == Cached(s) - Only(was) + {e} && Usage(Admit(s, e)) == Usage(s) + e.charge - Charge(was)
  {
    hide Sound, Usage, Known, Drop, Join, FindCached, Cached;
    FindCachedIs(s, e.key, e.hash);
    var was := FindCached(s, e.key, e.hash);
    JoinKeeps(s, e);
    NotCached(s, e);
    DropKeeps(Join(s, e), was);
    StillUnique(Cached(s), was, e);
  }

  lemma NotCached(s: Cache, e: Handle)
    requires e !in Known(s)
    ensures e !in Cached(s)
  {
  }

  lemma AdmitUncached(s: Cache, e: Handle)
    requires Inv(s) && e !in Known(s) && s.capacity == 0
    ensures Inv(Admit(s, e)) && Known(Admit(s, e)) == Known(s) + {e} && Usage(Admit(s, e)) == Usage(s)
  {
  }

  lemma UniqueIfFewer(entries: set<Handle>, fewer: set<Handle>)
    requires UniqueIds(entries) && fewer <= entries
    ensures UniqueIds(fewer)
  {
  }

  // ---------- eviction ----------

  lemma FirstDropped(s: Cache)
    requires Sound(s) && s.lru != []
    ensures var t := Drop(s, s.lru[0]);
      t == s.(lru := s.lru[1..], deleted := s.deleted + [s.lru[0]])
  {
    var h := s.lru[0];
    WithoutIsCut(s.lru, 0);
    WithoutAbsent(s.inUse, h);
    assert Cut(s.lru, 0) == s.lru[1..];
  }

  lemma {:induction false} EvictKeeps(s: Cache)
    requires Inv(s)
    ensures Inv(Evict(s)) && Known(Evict(s)) == Known(s) && Cached(Evict(s)) <= Cached(s)
    decreases |s.lru|
  {
    if Usage(s) > s.capacity && s.lru != [] {
      hide Sound, Usage, Known, Cached;
      var h := s.lru[0];
      FirstIsCached(s);
      DropKeeps(s, h);
      UniqueIfFewer(Cached(s), Cached(s) - Only(h));
      FirstDropped(s);
      EvictKeeps(Drop(s, h));
    }
  }

  lemma FirstIsCached(s: Cache)
    requires s.lru != []
    ensures s.lru[0] in Cached(s)
  {
  }

  /** t is s without the first n entries of its lru list, given to their deleters in order; these suffice,
      if any do, to come down to the capacity, and fewer do not. */
  ghost predicate EvictedFirst(s: Cache, t: Cache, n: nat) {
    && n <= |s.lru|
    && t == s.(lru := s.lru[n..], deleted := s.deleted + s.lru[..n])
    && Usage(t) == Usage(s) - Sum(s.lru[..n])
    && (n < |s.lru| ==> Usage(t) <= s.capacity)
    && (forall m :: 0 <= m < n ==> Usage(s) - Sum(s.lru[..m]) > s.capacity)
  }

  lemma EvictedOneMore(s: Cache, u: Cache, t: Cache, k: nat)
    requires s.lru != [] && u == s.(lru := s.lru[1..], deleted := s.deleted + [s.lru[0]])
    requires Usage(u) == Usage(s) - s.lru[0].charge && Usage(s) > s.capacity && EvictedFirst(u, t, k)
    ensures EvictedFirst(s, t, k + 1)
  {
    hide Usage;
    assert s.deleted + s.lru[..k + 1] == u.deleted + u.lru[..k];
    assert s.lru[k + 1..] == u.lru[k..];
    forall m | 0 <= m <= |u.lru| ensures Sum(s.lru[..m + 1]) == s.lru[0].charge + Sum(u.lru[..m]) {
      assert s.lru[..m + 1][1..] == u.lru[..m];
    }
    forall m | 0 <= m < k + 1 ensures Usage(s) - Sum(s.lru[..m]) > s.capacity {
      if m > 0 {
        assert Usage(u) - Sum(u.lru[..m - 1]) > s.capacity;
      }
    }
  }

  /** Insert evicts exactly the shortest oldest-first prefix of the lru list that suffices. */
  lemma {:induction false} EvictsShortestPrefix(s: Cache)
    requires Inv(s)
    ensures exists n :: EvictedFirst(s, Evict(s), n)
    decreases |s.lru|
  {
    hide Known, Cached;
    if Usage(s) > s.capacity && s.lru != [] {
      hide Sound, UniqueIds;
      var h, t := s.lru[0], Drop(s, s.lru[0]);
      FirstIsCached(s);
      DropKeeps(s, h);
      UniqueIfFewer(Cached(s), Cached(t));
      FirstDropped(s);
      EvictsShortestPrefix(t);
      var k :| EvictedFirst(t, Evict(t), k);
      EvictedOneMore(s, t, Evict(s), k);
    } else {
      assert s.lru[0..] == s.lru && s.deleted + s.lru[..0] == s.deleted;
      assert EvictedFirst(s, Evict(s), 0);
    }
  }

  /** Prune empties the lru list, oldest first. */
  lemma {:induction false} ClearsAll(s: Cache)
    requires Sound(s)
    ensures Clear(s) == s.(lru := [], deleted := s.deleted + s.lru)
    decreases |s.lru|
  {
    hide Sound, Known, Cached, Drop;
    if s.lru != [] {
      var t := Drop(s, s.lru[0]);
      FirstIsCached(s);
      DropKeeps(s, s.lru[0]);
      FirstDropped(s);
      ClearsAll(t);
      assert s.deleted + s.lru == t.deleted + t.lru;
    } else {
      assert s.deleted + s.lru == s.deleted;
    }
  }

  lemma {:induction false} ClearKeeps(s: Cache)
    requires Inv(s)
    ensures Inv(Clear(s)) && Known(Clear(s)) == Known(s) && Usage(Clear(s)) <= Usage(s)
    decreases |s.lru|
  {
    if s.lru != [] {
      hide Sound, Usage, Known, Cached;
      var h := s.lru[0];
      FirstIsCached(s);
      DropKeeps(s, h);
      UniqueIfFewer(Cached(s), Cached(s) - Only(h));
      FirstDropped(s);
      ClearKeeps(Drop(s, h));
    }
  }

  // ---------- runs ----------

  lemma StepKeeps(s: Cache, op: Op)
    requires Inv(s) && Legal(s, op)
    ensures Inv(Step(s, op)) && Known(Step(s, op)) == Known(s) + Made(op)
    ensures Step(s, op).capacity == s.capacity
  {
    hide Sound, Usage, Known, Cached, FindCached, Evict, Clear, Admit, Drop, UniqueIds;
    match op
    case Insert(e) =>
      if s.capacity > 0 {
        AdmitKeeps(s, e);
      } else {
        AdmitUncached(s, e);
      }
      EvictKeeps(Admit(s, e));
      EvictSameCapacity(Admit(s, e));
      AdmitSameCapacity(s, e);
    case Lookup(key, hash) =>
      FindCachedIs(s, key, hash);
      if FindCached(s, key, hash) != null {
        PinKeeps(s, FindCached(s, key, hash));
      }
    case Release(h) =>
      UnpinKeeps(s, h);
    case Erase(key, hash) =>
      var h := FindCached(s, key, hash);
      FindCachedIs(s, key, hash);
      DropKeeps(s, h);
      UniqueIfFewer(Cached(s), Cached(s) - Only(h));
      DropSameCapacity(s, h);
    case Prune =>
      ClearKeeps(s);
      ClearsAll(s);
  }

  lemma {:induction false} EvictSameCapacity(s: Cache)
    ensures Evict(s).capacity == s.capacity
    decreases |s.lru|
  {
    if Usage(s) > s.capacity && s.lru != [] {
      WithoutShorter(s.lru, s.lru[0]);
      EvictSameCapacity(Drop(s, s.lru[0]));
    }
  }

  lemma AdmitSameCapacity(s: Cache, e: Handle)
    ensures Admit(s, e).capacity == s.capacity
  {
  }

  lemma DropSameCapacity(s: Cache, h: Handle?)
    ensures Drop(s, h).capacity == s.capacity
  {
  }

  function Made(op: Op): set<Handle> {
    if op.Insert? then {op.e} else {}
  }

  function Inserted(ops: seq<Op>): set<Handle> {
    if ops == [] then {} else Inserted(ops[..|ops| - 1]) + Made(ops[|ops| - 1])
  }

  lemma LegalPrefix(s: Cache, ops: seq<Op>, n: nat)
    requires LegalRun(s, ops) && n <= |ops|
    ensures LegalRun(s, ops[..n])
  {
    forall k | 0 <= k < n ensures Legal(Run(s, ops[..n][..k]), ops[..n][k]) {
      assert ops[..n][..k] == ops[..k];
    }
  }

  lemma {:induction false} RunKeeps(capacity: nat, ops: seq<Op>)
    requires LegalRun(Empty(capacity), ops)
    ensures var s := Run(Empty(capacity), ops);
      Inv(s) && Known(s) == Inserted(ops) && s.capacity == capacity
  {
    if ops != [] {
      hide Inv, Step, Known, LegalRun;
      var n := |ops| - 1;
      LegalPrefix(Empty(capacity), ops, n);
      RunKeeps(capacity, ops[..n]);
      LegalAt(Empty(capacity), ops, n);
      StepKeeps(Run(Empty(capacity), ops[..n]), ops[n]);
    }
  }

  lemma LegalAt(s: Cache, ops: seq<Op>, n: nat)
    requires LegalRun(s, ops) && n < |ops|
    ensures Legal(Run(s, ops[..n]), ops[n])
  {
  }

  /** In every reachable state an entry is on the list its reference count says, and it has been given to its
      deleter, once, exactly if its count is 0. */
  lemma CountsDecide(capacity: nat, ops: seq<Op>, h: Handle)
    requires LegalRun(Empty(capacity), ops) && h in Inserted(ops)
    ensures var s := Run(Empty(capacity), ops);
      && (h in s.lru <==> h in Cached(s) && Refs(s, h) == 1)
      && (h in s.inUse <==> h in Cached(s) && Refs(s, h) >= 2)
      && (h in s.deleted <==> Refs(s, h) == 0)
      && Distinct(s.deleted)
  {
    RunKeeps(capacity, ops);
  }

  /** When clients have given everything back, clearing the lru list leaves every entry ever inserted with its
      deleter called exactly once. */
  lemma AllDeletedOnce(capacity: nat, ops: seq<Op>)
    requires LegalRun(Empty(capacity), ops) && Run(Empty(capacity), ops).pins == multiset{}
    ensures var s := Run(Empty(capacity), ops);
      s.inUse == [] && Distinct(s.deleted + s.lru) && Elements(s.deleted + s.lru) == Inserted(ops)
  {
    RunKeeps(capacity, ops);
    hide Run, LegalRun, Inserted, Known, Elements, Distinct, UniqueIds;
    NothingHeld(Run(Empty(capacity), ops));
  }

  lemma FirstIn(q: seq<Handle>)
    ensures q == [] || q[0] in q
  {
  }

  lemma NothingHeld(s: Cache)
    requires Sound(s) && s.pins == multiset{}
    ensures s.inUse == [] && Distinct(s.deleted + s.lru) && Known(s) == Elements(s.deleted + s.lru)
  {
    FirstIn(s.inUse);
    var q := s.deleted + s.lru;
    forall j, k | 0 <= j < k < |q| ensures q[j] != q[k] {
      assert j < |s.deleted| ==> q[j] in s.deleted;
      assert k >= |s.deleted| ==> q[k] in s.lru;
    }
  }
}

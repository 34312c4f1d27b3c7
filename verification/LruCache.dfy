/** LRUCache of src/cache/cache.cpp, in place: two circular doubly linked lists, a hash table and counts. */
module LruCache {
  import opened Bytes
  import opened CacheModel
  import opened HandleTable

  // ---------- circular lists ----------

  function NextIn(head: Handle, q: seq<Handle>, k: nat): Handle {
    if k + 1 < |q| then q[k + 1] else head
  }

  function PrevIn(head: Handle, q: seq<Handle>, k: nat): Handle {
    if 0 < k <= |q| then q[k - 1] else head
  }

  /** The list with the given sentinel holds q, oldest first. */
  ghost predicate Ring(head: Handle, q: seq<Handle>)
    reads head`next, head`prev, q`next, q`prev
  {
    && head.next == (if q == [] then head else q[0])
    && head.prev == (if q == [] then head else q[|q| - 1])
    && forall k :: 0 <= k < |q| ==> q[k].next == NextIn(head, q, k) && q[k].prev == PrevIn(head, q, k)
  }

  /** LRU_Remove */
  method Unlink(ghost head: Handle, e: Handle, ghost q: seq<Handle>, ghost k: nat)
    requires Ring(head, q) && Distinct(q) && head !in q && k < |q| && e == q[k]
    modifies NextIn(head, q, k)`prev, PrevIn(head, q, k)`next
    ensures Ring(head, Cut(q, k))
  {
    hide Distinct;
    Neighbours(head, q, k);
    assert e.next == NextIn(head, q, k) && e.prev == PrevIn(head, q, k);
    e.next.prev := e.prev;
    e.prev.next := e.next;
    CutRing(head, q, k);
  }

  lemma CutRing(head: Handle, q: seq<Handle>, k: nat)
    requires k < |q|
    requires NextIn(head, q, k).prev == PrevIn(head, q, k) && PrevIn(head, q, k).next == NextIn(head, q, k)
    requires k > 0 ==> head.next == q[0]
    requires k < |q| - 1 ==> head.prev == q[|q| - 1]
    requires forall j :: 0 <= j < |q| && j != k && j != k - 1 ==> q[j].next == NextIn(head, q, j)
    requires forall j :: 0 <= j < |q| && j != k && j != k + 1 ==> q[j].prev == PrevIn(head, q, j)
    ensures Ring(head, Cut(q, k))
  {
    var c := Cut(q, k);
    forall j | 0 <= j < |c| ensures c[j].next == NextIn(head, c, j) && c[j].prev == PrevIn(head, c, j) {
      var i := if j < k then j else j + 1;
      assert c[j] == q[i];
    }
  }

  lemma Neighbours(head: Handle, q: seq<Handle>, k: nat)
    requires Distinct(q) && head !in q && k < |q|
    ensures forall j :: 0 <= j < |q| && j != k + 1 ==> q[j] != NextIn(head, q, k)
    ensures forall j :: 0 <= j < |q| && j != k - 1 ==> q[j] != PrevIn(head, q, k)
  {
  }

  /** LRU_Append */
  method Append(head: Handle, e: Handle, ghost q: seq<Handle>)
    requires Ring(head, q) && Distinct(q) && head !in q && e !in q && e != head
    modifies head`prev, PrevIn(head, q, |q|)`next, e`next, e`prev
    ensures Ring(head, q + [e])
  {
    ApartFromLast(head, q);
    hide Distinct;
    e.next := head;
    e.prev := head.prev;
    e.prev.next := e;
    e.next.prev := e;
    AppendRing(head, q, e);
  }

  lemma ApartFromLast(head: Handle, q: seq<Handle>)
    requires Distinct(q) && head !in q
    ensures forall j :: 0 <= j < |q| - 1 ==> q[j] != PrevIn(head, q, |q|)
  {
  }

  lemma AppendRing(head: Handle, q: seq<Handle>, e: Handle)
    requires head.prev == e && e.next == head && e.prev == PrevIn(head, q, |q|) && PrevIn(head, q, |q|).next == e
    requires q != [] ==> head.next == q[0]
    requires forall j :: 0 <= j < |q| - 1 ==> q[j].next == NextIn(head, q, j)
    requires forall j :: 0 <= j < |q| ==> q[j].prev == PrevIn(head, q, j)
    ensures Ring(head, q + [e])
  {
  }

  /** The two lists hold l and u. */
  ghost predicate Rings(lru: Handle, inUse: Handle, l: seq<Handle>, u: seq<Handle>)
    reads lru`next, lru`prev, inUse`next, inUse`prev, l`next, l`prev, u`next, u`prev
  {
    && lru != inUse && lru !in l && lru !in u && inUse !in l && inUse !in u
    && Distinct(l) && Distinct(u) && (forall h :: h in l ==> h !in u)
    && Ring(lru, l) && Ring(inUse, u)
  }

  lemma {:induction false} WithoutFrom(q: seq<Handle>, e: Handle)
    ensures forall k :: 0 <= k < |Without(q, e)| ==> Without(q, e)[k] in q
  {
    if q != [] {
      WithoutFrom(q[1..], e);
      var rest := Without(q[1..], e);
      assert Without(q, e) == (if q[0] == e then [] else [q[0]]) + rest;
      assert forall x :: x in q[1..] ==> x in q;
      assert forall k :: 0 <= k < |rest| ==> rest[k] in q;
    }
  }

  lemma RingsSwapped(lru: Handle, inUse: Handle, l: seq<Handle>, u: seq<Handle>)
    requires Rings(lru, inUse, l, u)
    ensures Rings(inUse, lru, u, l)
  {
  }

  /** LRU_Remove of an entry of the first list. */
  method UnlinkOne(ghost head: Handle, ghost other: Handle, e: Handle, ghost q: seq<Handle>, ghost r: seq<Handle>)
    requires Rings(head, other, q, r) && e in q
    modifies head`next, head`prev, q`next, q`prev
    ensures Rings(head, other, Without(q, e), r)
  {
    hide Ring, Distinct, Without;
    Removed(q, e);
    ghost var k :| 0 <= k < |q| && q[k] == e;
    WithoutIsCut(q, k);
    assert NextIn(head, q, k) in q + [head] && PrevIn(head, q, k) in q + [head];
    Unlink(head, e, q, k);
    assert Ring(other, r);
    assert Distinct(Without(q, e));
  }

  /** LRU_Remove of an entry that is on one of the lists. */
  method UnlinkAny(ghost lru: Handle, ghost inUse: Handle, e: Handle, ghost l: seq<Handle>, ghost u: seq<Handle>)
    requires Rings(lru, inUse, l, u) && (e in l || e in u)
    modifies lru`next, lru`prev, inUse`next, inUse`prev, l`next, l`prev, u`next, u`prev
    ensures Rings(lru, inUse, Without(l, e), Without(u, e))
  {
    ghost var here := e in l;
    assert here ==> e !in u;
    hide *;
    RingsSwapped(lru, inUse, l, u);
    WithoutAbsent(if here then u else l, e);
    UnlinkOne(if here then lru else inUse, if here then inUse else lru, e, if here then l else u, if here then u else l);
    if !here {
      RingsSwapped(inUse, lru, Without(u, e), l);
    }
  }

  /** LRU_Append to one of the two lists. */
  method AppendTo(head: Handle, ghost other: Handle, e: Handle, ghost q: seq<Handle>, ghost r: seq<Handle>)
    requires Rings(head, other, q, r) && e != head && e != other && e !in q && e !in r
    modifies head`prev, head`next, q`next, e`next, e`prev
    ensures Rings(head, other, q + [e], r)
  {
    hide Ring, Distinct;
    Appended(q, e);
    assert PrevIn(head, q, |q|) in q + [head];
    Append(head, e, q);
    assert Ring(other, r);
  }

  /** LRU_Remove from one list, then LRU_Append to the other. */
  method Move(ghost from: Handle, to: Handle, e: Handle, ghost p: seq<Handle>, ghost q: seq<Handle>)
    requires Rings(from, to, p, q) && e in p
    modifies from`next, from`prev, to`next, to`prev, p`next, p`prev, q`next, q`prev
    ensures Rings(from, to, Without(p, e), q + [e])
  {
    Removed(p, e);
    hide Ring, Distinct, Without;
    UnlinkOne(from, to, e, p, q);
    RingsSwapped(from, to, Without(p, e), q);
    AppendTo(to, from, e, q, Without(p, e));
    RingsSwapped(to, from, q + [e], Without(p, e));
  }

  /** Sound, to be proved as one fact. */
  ghost predicate IsSound(s: Cache) {
    Sound(s) == true
  }

  /** in_cache and refs are what the state says. */
  ghost predicate Counted(s: Cache)
    reads Known(s)`inCache, Known(s)`refs
  {
    forall h :: h in Known(s) ==> h.inCache == (h in Cached(s)) && h.refs == Refs(s, h)
  }

  /** What the table finds is what the state has under the key. */
  lemma IsFound(s: Cache, key: ByteSeq, hash: nat, e: Handle?)
    requires UniqueIds(Cached(s))
    requires e != null ==> e in Cached(s) && Matches(e, key, hash)
    requires e == null ==> forall h :: h in Cached(s) ==> !Matches(h, key, hash)
    ensures e == FindCached(s, key, hash) && (e != null ==> e in s.lru || e in s.inUse)
    ensures Step(s, Op.Lookup(key, hash)) == (if e == null then s else Pin(s, e))
    ensures Step(s, Op.Erase(key, hash)) == Drop(s, e)
  {
    FindCachedIs(s, key, hash);
  }

  /** Everything the state knows is allocated. */
  lemma KnownAllocated(s: Cache)
    ensures forall h :: h in Known(s) ==> allocated(h)
  {
  }

  lemma SoundIs(s: Cache)
    ensures IsSound(s) == Sound(s)
  {
  }

  lemma OnlyIs(e: Handle?)
    ensures Only(e) == if e == null then {} else {e}
  {
  }

  lemma EmptyFacts(capacity: nat)
    ensures Empty(capacity) == Cache(capacity, [], [], multiset{}, []) && IsSound(Empty(capacity)) && Usage(Empty(capacity)) == 0
    ensures Known(Empty(capacity)) == {} && Cached(Empty(capacity)) - Only(null) == {} && Counted(Empty(capacity))
  {
  }

  lemma EmptyRings(lru: Handle, inUse: Handle)
    requires lru != inUse && lru.next == lru && lru.prev == lru && inUse.next == inUse && inUse.prev == inUse
    ensures Rings(lru, inUse, [], [])
  {
  }

  lemma MatchIs(r: Handle?, e: Handle, entries: set<Handle>)
    requires r != null ==> SameId(r, e)
    requires r == null ==> forall h :: h in entries ==> !SameId(h, e)
    ensures r != null ==> Matches(r, e.key, e.hash)
    ensures r == null ==> forall h :: h in entries ==> !Matches(h, e.key, e.hash)
  {
  }

  lemma AdmitIs(s: Cache, e: Handle)
    requires s.capacity > 0
    ensures Admit(s, e) == Drop(Join(s, e), FindCached(s, e.key, e.hash))
  {
  }

  lemma AdmitLists(s: Cache, e: Handle, t: Cache)
    requires t == Drop(Join(s, e), FindCached(s, e.key, e.hash))
    ensures forall k :: 0 <= k < |t.lru| ==> t.lru[k] in s.lru
    ensures forall k :: 0 <= k < |t.inUse| ==> t.inUse[k] in s.inUse + [e]
  {
    var was := FindCached(s, e.key, e.hash);
    if was != null {
      assert t.lru == Without(s.lru, was) && t.inUse == Without(s.inUse + [e], was);
      hide *;
      WithoutFrom(s.lru, was);
      WithoutFrom(s.inUse + [e], was);
    }
  }

  lemma InsertIs(s: Cache, e: Handle)
    ensures Step(s, Op.Insert(e)) == Evict(Admit(s, e))
  {
  }

  lemma EraseIs(s: Cache, key: ByteSeq, hash: nat)
    ensures Step(s, Op.Erase(key, hash)) == Drop(s, FindCached(s, key, hash))
  {
  }

  lemma EvictStep(s: Cache)
    ensures s.lru != [] && Usage(s) > s.capacity ==> Evict(s) == Evict(Drop(s, s.lru[0]))
    ensures s.lru == [] || Usage(s) <= s.capacity ==> Evict(s) == s
    ensures Clear(s) == if s.lru != [] then Clear(Drop(s, s.lru[0])) else s
    ensures Step(s, Op.Prune) == Clear(s)
  {
  }

  class LRUCache {
    const capacity: nat
    var usage: nat
    const lru: Handle            // the sentinel of the list of entries no client holds, oldest first
    const inUse: Handle          // the sentinel of the list of entries held by clients
    const table: Table
    var deleted: seq<Handle>     // the calls of deleters, in order
    ghost var lruList: seq<Handle>
    ghost var inUseList: seq<Handle>
    ghost var pins: multiset<Handle>

    ghost function State(): Cache
      reads this`lruList, this`inUseList, this`pins, this`deleted
    {
      Cache(capacity, lruList, inUseList, pins, deleted)
    }

    /** The representation of s, with the entry `gone` already out of the table.  (An equality, so that callers
        prove it as one fact.) */
    ghost predicate Represents(s: Cache, gone: Handle?)
      reads this, table, table.list, lru, inUse, Known(s)
    {
      (s == State() && Sound(s) && usage == Usage(s)
       && lru !in Known(s) && inUse !in Known(s) && Rings(lru, inUse, lruList, inUseList)
       && Counted(s)
       && table.entries == Cached(s) - Only(gone) && table.Valid()) == true
    }

    /** The lists and the table are well formed, whatever the counts; again as one fact. */
    ghost predicate Listed()
      reads this`lruList, this`inUseList, table, table.list, table.entries`nextHash
      reads lru`next, lru`prev, inUse`next, inUse`prev, lruList`next, lruList`prev, inUseList`next, inUseList`prev
    {
      (Rings(lru, inUse, lruList, inUseList) && table.Valid()) == true
    }

    lemma ListedIs()
      ensures Listed() == (Rings(lru, inUse, lruList, inUseList) && table.Valid())
    {
    }

    ghost predicate Valid()
      reads this, table, table.list, lru, inUse, Known(State())
    {
      Represents(State(), null)
    }

    lemma Facts(s: Cache, gone: Handle?)
      requires Represents(s, gone)
      ensures s == Cache(capacity, lruList, inUseList, pins, deleted) && Sound(s) && usage == Usage(s)
      ensures lru !in Known(s) && inUse !in Known(s) && Rings(lru, inUse, lruList, inUseList) && Listed()
      ensures Counted(s) && table.entries == Cached(s) - Only(gone) && table.Valid() && UniqueIds(table.entries)
      ensures Cached(s) - Only(null) == Cached(s)
    {
    }

    lemma RepresentsFrom(s: Cache, gone: Handle?)
      requires s == Cache(capacity, lruList, inUseList, pins, deleted) && IsSound(s) && usage == Usage(s)
      requires lru !in Known(s) && inUse !in Known(s) && Listed() && table.entries == Cached(s) - Only(gone)
      requires forall h :: h in Known(s) ==> h.inCache == (h in Cached(s)) && h.refs == Refs(s, h)
      ensures s == State() && Represents(s, gone) && (gone == null ==> Valid())
    {
      hide Sound, Usage, Known, Cached, Rings, Table.Valid, Refs;
    }

    lemma ValidFacts()
      requires Valid()
      ensures Represents(State(), null)
      ensures Sound(State()) && IsSound(State())
      ensures usage == Usage(State()) && State() == Cache(capacity, lruList, inUseList, pins, deleted)
      ensures lru !in Known(State()) && inUse !in Known(State()) && Listed() && Rings(lru, inUse, lruList, inUseList)
      ensures Counted(State()) && table.entries == Cached(State()) && table.Valid() && UniqueIds(table.entries)
      ensures forall h :: h in Cached(State()) ==> h in lruList || h in inUseList
      ensures forall h :: h in Known(State()) ==> h.inCache == (h in Cached(State())) && h.refs == Refs(State(), h)
    {
    }

    constructor (capacity: nat)
      ensures Valid() && State() == Empty(capacity)
      ensures fresh(lru) && fresh(inUse) && fresh(table) && fresh(table.list)
    {
      var l := new Handle([], 0, 0, 0);
      var u := new Handle([], 0, 0, 0);
      this.capacity, usage, deleted := capacity, 0, [];
      lru, inUse := l, u;
      table := new Table();
      lruList, inUseList, pins := [], [], multiset{};
      new;
      hide *;
      lru.next, lru.prev := lru, lru;
      inUse.next, inUse.prev := inUse, inUse;
      EmptyFacts(capacity);
      EmptyRings(lru, inUse);
      ListedIs();
      RepresentsFrom(Empty(capacity), null);
    }

    /** Ref: a client takes hold of an entry. */
    method Ref(e: Handle)
      requires Listed()
      requires e.inCache && e.refs == 1 ==> e in lruList
      modifies this`lruList, this`inUseList, e`refs
      modifies lru`next, lru`prev, inUse`next, inUse`prev, lruList`next, lruList`prev, inUseList`next, inUseList`prev
      ensures Listed() && e.refs == old(e.refs) + 1
      ensures lruList == if e.inCache && old(e.refs) == 1 then Without(old(lruList), e) else old(lruList)
      ensures inUseList == if e.inCache && old(e.refs) == 1 then old(inUseList) + [e] else old(inUseList)
    {
      hide Rings, Table.Valid;
      if e.refs == 1 && e.inCache {
        Move(lru, inUse, e, lruList, inUseList);
        lruList, inUseList := Without(lruList, e), inUseList + [e];
      }
      e.refs := e.refs + 1;
    }

    /** Unref: a reference to an entry is given up. */
    method Unref(e: Handle)
      requires Listed() && e.refs > 0
      requires e.inCache && e.refs == 2 ==> e in inUseList
      modifies this`lruList, this`inUseList, this`deleted, e`refs
      modifies lru`next, lru`prev, inUse`next, inUse`prev, lruList`next, lruList`prev, inUseList`next, inUseList`prev
      ensures Listed() && e.refs == old(e.refs) - 1
      ensures deleted == if e.refs == 0 then old(deleted) + [e] else old(deleted)
      ensures lruList == if e.inCache && e.refs == 1 then old(lruList) + [e] else old(lruList)
      ensures inUseList == if e.inCache && e.refs == 1 then Without(old(inUseList), e) else old(inUseList)
    {
      hide Rings, Table.Valid;
      e.refs := e.refs - 1;
      if e.refs == 0 {
        deleted := deleted + [e];
      } else if e.inCache && e.refs == 1 {
        RingsSwapped(lru, inUse, lruList, inUseList);
        Move(inUse, lru, e, inUseList, lruList);
        lruList, inUseList := lruList + [e], Without(inUseList, e);
        RingsSwapped(inUse, lru, inUseList, lruList);
      }
    }

    /** The table found e: Ref. */
    method Hold(e: Handle)
      requires Valid() && e in Cached(State())
      modifies this, lru, inUse, lruList, inUseList
      ensures Valid() && State() == Pin(old(State()), e)
    {
      hide *;
      ghost var s, t := State(), Pin(State(), e);
      HoldFacts(s, e);
      KnownAllocated(s);
      pins := pins + multiset{e};
      Ref(e);
      RepresentsFrom(t, null);
    }

    method Lookup(key: ByteSeq, hash: nat) returns (e: Handle?)
      requires Valid()
      modifies this, lru, inUse, lruList, inUseList
      ensures Valid() && State() == Step(old(State()), Op.Lookup(key, hash)) && e == FindCached(old(State()), key, hash)
    {
      hide *;
      ghost var s := State();
      ValidFacts();
      KnownAllocated(s);
      e := table.Lookup(key, hash);
      IsFound(s, key, hash, e);
      if e != null {
        Hold(e);
      }
    }

    lemma PinCounts(s: Cache, e: Handle)
      requires Sound(s) && Counted(s) && e in Cached(s)
      ensures (e.refs == 1 && e.inCache <==> e in s.lru) && (e in s.lru || e in s.inUse) && e in Known(s)
      ensures forall h :: h in Known(s) ==> h.inCache == (h in Cached(s))
      ensures forall h :: h in Known(s) ==> h.refs + (if h == e then 1 else 0) == Refs(Pin(s, e), h)
      ensures var l, u := if e in s.lru then Without(s.lru, e) else s.lru, if e in s.lru then s.inUse + [e] else s.inUse;
        Pin(s, e) == Cache(s.capacity, l, u, s.pins + multiset{e}, s.deleted)
    {
      PinKeeps(s, e);
    }

    lemma HoldFacts(s: Cache, e: Handle)
      requires Valid() && s == State() && e in Cached(s)
      ensures s == Cache(capacity, lruList, inUseList, pins, deleted) && usage == Usage(s)
      ensures lru !in Known(s) && inUse !in Known(s) && Listed() && table.entries == Cached(s) - Only(null)
      ensures (e.refs == 1 && e.inCache <==> e in s.lru) && (e in s.lru || e in s.inUse) && e in Known(s)
      ensures forall h :: h in Known(s) ==> h.inCache == (h in Cached(s))
      ensures forall h :: h in Known(s) ==> h.refs + (if h == e then 1 else 0) == Refs(Pin(s, e), h)
      ensures var l, u := if e in s.lru then Without(s.lru, e) else s.lru, if e in s.lru then s.inUse + [e] else s.inUse;
        Pin(s, e) == Cache(s.capacity, l, u, s.pins + multiset{e}, s.deleted)
      ensures var t := Pin(s, e);
        IsSound(t) && Cached(t) == Cached(s) && Known(t) == Known(s) && Usage(t) == Usage(s)
    {
      hide *;
      ValidFacts();
      OnlyIs(null);
      PinKeeps(s, e);
      PinCounts(s, e);
      SoundIs(Pin(s, e));
    }

    method Release(h: Handle)
      requires Valid() && h in State().pins
      modifies this, h, lru, inUse, lruList, inUseList
      ensures Valid() && State() == Step(old(State()), Op.Release(h))
    {
      hide *;
      ghost var s, t := State(), Unpin(State(), h);
      ReleaseFacts(s, h);
      KnownAllocated(s);
      pins := pins - multiset{h};
      Unref(h);
      RepresentsFrom(t, null);
    }

    lemma UnpinCounts(s: Cache, h: Handle)
      requires Sound(s) && Counted(s) && h in s.pins
      ensures h in Known(s) && h.refs > 0 && (h.inCache && h.refs == 2 ==> h in s.inUse)
      ensures forall x :: x in Known(s) ==> x.inCache == (x in Cached(s))
      ensures forall x :: x in Known(s) ==> x.refs == Refs(Unpin(s, h), x) + if x == h then 1 else 0
      ensures var freed := h.inCache && h.refs == 2;
        Unpin(s, h) == Cache(s.capacity, if freed then s.lru + [h] else s.lru, if freed then Without(s.inUse, h) else s.inUse,
                             s.pins - multiset{h}, if h.refs == 1 then s.deleted + [h] else s.deleted)
      ensures Step(s, Op.Release(h)) == Unpin(s, h)
    {
      UnpinKeeps(s, h);
    }

    lemma ReleaseFacts(s: Cache, h: Handle)
      requires Valid() && s == State() && h in s.pins
      ensures s == Cache(capacity, lruList, inUseList, pins, deleted) && usage == Usage(s)
      ensures lru !in Known(s) && inUse !in Known(s) && Listed() && table.entries == Cached(s) - Only(null)
      ensures h in Known(s) && h.refs > 0 && (h.inCache && h.refs == 2 ==> h in s.inUse)
      ensures forall x :: x in Known(s) ==> x.inCache == (x in Cached(s))
      ensures forall x :: x in Known(s) ==> x.refs == Refs(Unpin(s, h), x) + if x == h then 1 else 0
      ensures var freed := h.inCache && h.refs == 2;
        Unpin(s, h) == Cache(s.capacity, if freed then s.lru + [h] else s.lru, if freed then Without(s.inUse, h) else s.inUse,
                             s.pins - multiset{h}, if h.refs == 1 then s.deleted + [h] else s.deleted)
      ensures var t := Unpin(s, h);
        Step(s, Op.Release(h)) == t && IsSound(t) && Cached(t) == Cached(s) && Known(t) == Known(s) && Usage(t) == Usage(s)
    {
      hide *;
      ValidFacts();
      OnlyIs(null);
      UnpinKeeps(s, h);
      UnpinCounts(s, h);
      SoundIs(Unpin(s, h));
    }

    /** The part of FinishErase before the reference is given up. */
    method LeaveList(e: Handle)
      requires Listed() && (e in lruList || e in inUseList)
      modifies this`lruList, this`inUseList, e`inCache
      modifies lru`next, lru`prev, inUse`next, inUse`prev, lruList`next, lruList`prev, inUseList`next, inUseList`prev
      ensures Listed() && !e.inCache
      ensures lruList == Without(old(lruList), e) && inUseList == Without(old(inUseList), e)
      ensures forall k :: 0 <= k < |lruList| ==> lruList[k] in old(lruList)
      ensures forall k :: 0 <= k < |inUseList| ==> inUseList[k] in old(inUseList)
    {
      hide Rings, Table.Valid, Without;
      WithoutFrom(lruList, e);
      WithoutFrom(inUseList, e);
      UnlinkAny(lru, inUse, e, lruList, inUseList);
      lruList, inUseList := Without(lruList, e), Without(inUseList, e);
      e.inCache := false;
    }

    /** FinishErase of an entry that the table has given up. */
    method FinishErase(e: Handle?)
      requires Represents(State(), e) && (e != null ==> e in Cached(State()))
      modifies this, lru, inUse, lruList, inUseList
      ensures Valid() && State() == Drop(old(State()), e) && table.list == old(table.list)
    {
      hide *;
      ghost var s, t := State(), Drop(State(), e);
      if e != null {
        EraseFacts(s, e);
        KnownAllocated(s);
        usage := usage - e.charge;
        LeaveList(e);
        Unref(e);
        RepresentsFrom(t, null);
      } else {
        NothingErased(s);
      }
    }

    lemma NothingErased(s: Cache)
      requires Represents(s, null)
      ensures Valid() && s == State() && Drop(s, null) == s
    {
    }

    lemma DropCounts(s: Cache, e: Handle)
      requires Sound(s) && Counted(s) && e in Cached(s)
      ensures e in Known(s) && (e in s.lru || e in s.inUse) && e.refs > 0 && Usage(s) >= e.charge
      ensures forall x :: x in Known(s) ==> (x.inCache && x != e) == (x in Cached(Drop(s, e)))
      ensures forall x :: x in Known(s) ==> x.refs == Refs(Drop(s, e), x) + if x == e then 1 else 0
      ensures Drop(s, e) == Cache(s.capacity, Without(s.lru, e), Without(s.inUse, e), s.pins,
                                  if e.refs == 1 then s.deleted + [e] else s.deleted)
    {
      DropKeeps(s, e);
    }

    lemma EraseFacts(s: Cache, e: Handle)
      requires Represents(s, e) && e in Cached(s)
      ensures s == Cache(capacity, lruList, inUseList, pins, deleted) && usage == Usage(s)
      ensures lru !in Known(s) && inUse !in Known(s) && Listed() && table.entries == Cached(Drop(s, e)) - Only(null)
      ensures e in Known(s) && (e in s.lru || e in s.inUse) && e.refs > 0 && usage >= e.charge
      ensures forall x :: x in Known(s) ==> (x.inCache && x != e) == (x in Cached(Drop(s, e)))
      ensures forall x :: x in Known(s) ==> x.refs == Refs(Drop(s, e), x) + if x == e then 1 else 0
      ensures Drop(s, e) == Cache(s.capacity, Without(s.lru, e), Without(s.inUse, e), s.pins,
                                  if e.refs == 1 then s.deleted + [e] else s.deleted)
      ensures var t := Drop(s, e);
        IsSound(t) && Known(t) == Known(s) && Usage(t) == Usage(s) - e.charge
    {
      hide *;
      Facts(s, e);
      DropKeeps(s, e);
      DropCounts(s, e);
      SoundIs(Drop(s, e));
      OnlyIs(null);
    }

    /** The entry with the key leaves the table and then the cache. */
    method RemoveAndFinish(key: ByteSeq, hash: nat)
      requires Valid()
      modifies this, table, table.list, lru, inUse, lruList, inUseList
      ensures Valid() && State() == Drop(old(State()), FindCached(old(State()), key, hash)) && table.list == old(table.list)
    {
      hide *;
      ghost var s := State();
      ValidFacts();
      KnownAllocated(s);
      var e := table.Remove(key, hash);
      IsFound(s, key, hash, e);
      OnlyIs(e);
      ListedIs();
      RepresentsFrom(s, e);
      FinishErase(e);
    }

    method Erase(key: ByteSeq, hash: nat)
      requires Valid()
      modifies this, table, table.list, lru, inUse, lruList, inUseList
      ensures Valid() && State() == Step(old(State()), Op.Erase(key, hash)) && table.list == old(table.list)
    {
      hide *;
      EraseIs(State(), key, hash);
      RemoveAndFinish(key, hash);
    }

    lemma Oldest()
      requires Valid()
      ensures lru.next == (if lruList == [] then lru else lruList[0]) && lru !in lruList
      ensures lruList == State().lru && inUseList == State().inUse && usage == Usage(State()) && Inv(State())
      ensures lruList != [] ==> var h := lruList[0];
        FindCached(State(), h.key, h.hash) == h && Drop(State(), h).lru == lruList[1..] && Drop(State(), h).inUse == inUseList
    {
      if lruList != [] {
        FirstDropped(State());
        FindCachedIs(State(), lruList[0].key, lruList[0].hash);
      }
    }

    /** One turn of the loops of Insert and Prune. */
    method EraseOldest()
      requires Valid() && lruList != []
      modifies this, table, table.list, lru, inUse, lruList, inUseList
      ensures Valid() && State() == Drop(old(State()), old(lruList)[0]) && table.list == old(table.list)
      ensures lruList == old(lruList)[1..] && inUseList == old(inUseList)
    {
      hide *;
      Oldest();
      var e := lru.next;
      RemoveAndFinish(e.key, e.hash);
      StateFields();
    }

    lemma StateFields()
      ensures lruList == State().lru && inUseList == State().inUse && State().capacity == capacity
    {
    }

    /** The loop at the end of Insert. */
    method EvictToCapacity()
      requires Valid()
      modifies this, table, table.list, lru, inUse, lruList, inUseList
      ensures Valid() && State() == Evict(old(State())) && table.list == old(table.list)
    {
      hide *;
      Oldest();
      ghost var s, n := State(), 0;
      while usage > capacity && lru.next != lru
        invariant Valid() && Evict(State()) == Evict(s) && table.list == old(table.list)
        invariant n <= |old(lruList)| && lruList == old(lruList)[n..] && inUseList == old(inUseList)
        invariant lru.next == if lruList == [] then lru else lruList[0]
        decreases |lruList|
      {
        Oldest();
        StateFields();
        EvictStep(State());
        EraseOldest();
        n := n + 1;
        Oldest();
      }
      Oldest();
      StateFields();
      EvictStep(State());
    }

    method Prune()
      requires Valid()
      modifies this, table, table.list, lru, inUse, lruList, inUseList
      ensures Valid() && State() == Step(old(State()), Op.Prune) && table.list == old(table.list)
    {
      hide *;
      Oldest();
      ghost var s, n := State(), 0;
      while lru.next != lru
        invariant Valid() && Clear(State()) == Clear(s) && table.list == old(table.list)
        invariant n <= |old(lruList)| && lruList == old(lruList)[n..] && inUseList == old(inUseList)
        invariant lru.next == if lruList == [] then lru else lruList[0]
        decreases |lruList|
      {
        Oldest();
        StateFields();
        EvictStep(State());
        EraseOldest();
        n := n + 1;
        Oldest();
      }
      Oldest();
      StateFields();
      EvictStep(State());
      EvictStep(s);
    }

    /** The cache takes its own reference to a new entry and puts it at the newest end of the in-use list. */
    method JoinList(e: Handle)
      requires Listed() && e !in lruList && e !in inUseList && e != lru && e != inUse
      modifies this`inUseList, inUse`next, inUse`prev, inUseList`next, e`next, e`prev, e`refs, e`inCache
      ensures Listed() && inUseList == old(inUseList) + [e] && e.refs == old(e.refs) + 1 && e.inCache
    {
      hide Rings, Table.Valid;
      RingsSwapped(lru, inUse, lruList, inUseList);
      e.refs := e.refs + 1;
      e.inCache := true;
      AppendTo(inUse, lru, e, inUseList, lruList);
      inUseList := inUseList + [e];
      RingsSwapped(inUse, lru, inUseList, lruList);
    }

    /** Insert, before the table is told. */
    method JoinEntry(e: Handle)
      requires Valid() && e !in Known(State()) && e != lru && e != inUse && e.refs == 1 && capacity > 0
      modifies this, e, lru, inUse, lruList, inUseList
      ensures Represents(State(), e) && State() == Join(old(State()), e) && table.list == old(table.list)
    {
      hide *;
      ghost var s, t := State(), Join(State(), e);
      JoinFacts(s, e);
      KnownAllocated(s);
      pins := pins + multiset{e};
      usage := usage + e.charge;
      JoinList(e);
      OnlyIs(e);
      RepresentsFrom(t, e);
    }

    /** The new entry goes into the table, and the one it replaces there leaves the cache. */
    method TellTable(ghost s: Cache, e: Handle)
      requires Represents(State(), e) && State() == Join(s, e) && Cached(State()) == Cached(s) + {e} && e !in Cached(s)
      modifies this, e, table, table.list, lru, inUse, lruList, inUseList
      ensures Valid() && State() == Drop(old(State()), FindCached(s, e.key, e.hash))
      ensures table.list == old(table.list) || fresh(table.list)
    {
      hide *;
      ghost var t := State();
      TellFacts(t, e);
      KnownAllocated(t);
      var r := table.Insert(e);
      MatchIs(r, e, Cached(s));
      IsFound(s, e.key, e.hash, r);
      OnlyIs(r);
      ListedIs();
      RepresentsFrom(t, r);
      FinishErase(r);
    }

    lemma TellFacts(t: Cache, e: Handle)
      requires Represents(t, e) && e in Cached(t)
      ensures t == Cache(capacity, lruList, inUseList, pins, deleted) && IsSound(t) && usage == Usage(t)
      ensures lru !in Known(t) && inUse !in Known(t) && Listed() && Rings(lru, inUse, lruList, inUseList)
      ensures table.entries == Cached(t) - {e} && table.Valid() && UniqueIds(table.entries)
      ensures forall h :: h in Known(t) ==> h.inCache == (h in Cached(t)) && h.refs == Refs(t, h)
      ensures forall h :: h in Cached(t) ==> h in lruList || h in inUseList
    {
    }

    /** The first half of Insert. */
    method Enter(e: Handle)
      requires Valid() && e !in Known(State()) && e != lru && e != inUse && e.refs == 1 && capacity > 0
      modifies this, e, table, table.list, lru, inUse, lruList, inUseList
      ensures Valid() && State() == Admit(old(State()), e)
      ensures forall k :: 0 <= k < |lruList| ==> lruList[k] in old(lruList)
      ensures forall k :: 0 <= k < |inUseList| ==> inUseList[k] in old(inUseList) + [e]
      ensures table.list == old(table.list) || fresh(table.list)
    {
      hide *;
      ghost var s, t := State(), Join(State(), e);
      EnterFacts(s, e);
      JoinEntry(e);
      StateFields();
      TellTable(s, e);
      AdmitIs(s, e);
      AdmitLists(s, e, State());
      StateFields();
    }

    lemma EnterFacts(s: Cache, e: Handle)
      requires Valid() && s == State() && e !in Known(s) && capacity > 0
      ensures s.capacity > 0 && UniqueIds(Cached(s)) && e !in Cached(s) && Cached(Join(s, e)) == Cached(s) + {e}
      ensures Join(s, e).lru == lruList && Join(s, e).inUse == inUseList + [e] && s.lru == lruList && s.inUse == inUseList
    {
      JoinKeeps(s, e);
    }

    lemma JoinCounts(s: Cache, e: Handle)
      requires Sound(s) && Counted(s) && e !in Known(s) && s.capacity > 0
      ensures forall x :: x in Known(s) ==> x.inCache == (x in Cached(s)) && x.refs == Refs(Join(s, e), x)
      ensures Refs(Join(s, e), e) == 2
      ensures Join(s, e) == Cache(s.capacity, s.lru, s.inUse + [e], s.pins + multiset{e}, s.deleted)
      ensures e !in s.lru && e !in s.inUse && e !in Cached(s)
    {
      JoinKeeps(s, e);
    }

    lemma JoinFacts(s: Cache, e: Handle)
      requires Valid() && s == State() && e !in Known(s) && capacity > 0
      ensures s == Cache(capacity, lruList, inUseList, pins, deleted) && usage == Usage(s)
      ensures lru !in Known(s) && inUse !in Known(s) && Listed() && table.entries == Cached(s)
      ensures forall x :: x in Known(s) ==> x.inCache == (x in Cached(s)) && x.refs == Refs(Join(s, e), x)
      ensures Refs(Join(s, e), e) == 2
      ensures IsSound(Join(s, e)) && Cached(Join(s, e)) == Cached(s) + {e} && Known(Join(s, e)) == Known(s) + {e}
      ensures Usage(Join(s, e)) == Usage(s) + e.charge
      ensures Join(s, e) == Cache(s.capacity, s.lru, s.inUse + [e], s.pins + multiset{e}, s.deleted)
      ensures e !in s.lru && e !in s.inUse && e !in Cached(s)
    {
      hide *;
      ValidFacts();
      StateFields();
      JoinCounts(s, e);
      JoinKeeps(s, e);
      SoundIs(Join(s, e));
    }

    /** Insert when the capacity is 0: the entry belongs to the client only. */
    method GiveOnly(e: Handle)
      requires Valid() && e !in Known(State()) && e != lru && e != inUse && e.refs == 1 && !e.inCache && capacity == 0
      modifies this`pins, e`next
      ensures Valid() && State() == Admit(old(State()), e)
    {
      hide *;
      ghost var s, t := State(), Admit(State(), e);
      ValidFacts();
      GiveFacts(s, e);
      KnownAllocated(s);
      e.next := null;
      pins := pins + multiset{e};
      RepresentsFrom(t, null);
    }

    lemma GiveFacts(s: Cache, e: Handle)
      requires Valid() && s == State() && e !in Known(s) && capacity == 0
      ensures var t := s.(pins := s.pins + multiset{e});
        Admit(s, e) == t && IsSound(t) && Cached(t) == Cached(s) && Known(t) == Known(s) + {e} && Usage(t) == Usage(s)
      ensures forall x :: x in Known(s) ==> x.inCache == (x in Cached(s)) && x.refs == Refs(Admit(s, e), x)
      ensures Refs(Admit(s, e), e) == 1 && lruList == [] && inUseList == [] && e !in Cached(s)
      ensures Cached(s) - Only(null) == Cached(s)
    {
      hide Rings, Table.Valid, Distinct, FindCached;
    }

    method Insert(key: ByteSeq, hash: nat, value: int, charge: nat) returns (e: Handle)
      requires Valid()
      modifies this, table, table.list, lru, inUse, lruList, inUseList
      ensures Valid() && fresh(e) && e.key == key && e.hash == hash && e.value == value && e.charge == charge
      ensures e !in Known(old(State())) && State() == Step(old(State()), Op.Insert(e))
      ensures table.list == old(table.list) || fresh(table.list)
    {
      hide *;
      ghost var s := State();
      KnownAllocated(s);
      e := new Handle(key, hash, value, charge);
      if capacity > 0 {
        Enter(e);
      } else {
        GiveOnly(e);
      }
      InsertIs(s, e);
      EvictToCapacity();
    }

    /** The destructor, which asserts that no cached entry is held: every entry on the lru list is deleted. */
    method Destroy()
      requires Valid() && inUseList == []
      modifies this, lru, inUse, lruList
      ensures deleted == old(deleted) + old(lruList)
    {
      hide *;
      DestroyFacts();
      var e := lru.next;
      ghost var q, i: nat := lruList, 0;
      assert forall k :: 0 <= k < |q| ==> q[k] != lru;
      while e != lru
        invariant i <= |q| && e == (if i < |q| then q[i] else lru) && lruList == q == old(lruList) && inUseList == []
        invariant Listed() && deleted == old(deleted) + q[..i]
        invariant forall k :: i <= k < |q| ==> q[k].refs == 1 && q[k].inCache
        decreases |q| - i
      {
        ListNode(i);
        var next := e.next;
        e.inCache := false;
        Unref(e);
        i := i + 1;
        e := next;
      }
      assert q[..i] == q;
    }

    lemma DestroyFacts()
      requires Valid()
      ensures Listed() && lru.next == (if lruList == [] then lru else lruList[0]) && deleted + lruList[..0] == deleted
      ensures forall k :: 0 <= k < |lruList| ==> lruList[k].refs == 1 && lruList[k].inCache && lruList[k] != lru
    {
      forall k | 0 <= k < |lruList| ensures lruList[k].refs == 1 && lruList[k].inCache && lruList[k] != lru {
        assert lruList[k] in Known(State());
      }
    }

    /** What the list knows about its node i. */
    lemma ListNode(i: nat)
      requires Listed() && i < |lruList|
      ensures lruList[i].next == (if i + 1 < |lruList| then lruList[i + 1] else lru)
      ensures forall k :: 0 <= k < |lruList| && k != i ==> lruList[k] != lruList[i]
      ensures lruList[..i + 1] == lruList[..i] + [lruList[i]]
    {
    }
  }
}

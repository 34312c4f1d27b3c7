/** What each operation of a shard does, in terms of the entries themselves: which are on which list, in which order,
    held how often and deleted. */
module CacheOps {
  import opened Bytes
  import opened CacheModel
  import opened HandleTable

  predicate Has(h: Handle, key: ByteSeq, hash: nat) {
    h.key == key && h.hash == hash
  }

  /** A list without the entries that have the key and hash, in the same order. */
  function Others(q: seq<Handle>, key: ByteSeq, hash: nat): seq<Handle> {
    if q == [] then [] else (if Has(q[0], key, hash) then [] else [q[0]]) + Others(q[1..], key, hash)
  }

  /** Those that have them. */
  function Those(q: seq<Handle>, key: ByteSeq, hash: nat): seq<Handle> {
    if q == [] then [] else (if Has(q[0], key, hash) then [q[0]] else []) + Those(q[1..], key, hash)
  }

  lemma {:induction false} OthersElements(q: seq<Handle>, key: ByteSeq, hash: nat)
    ensures forall x :: x in Others(q, key, hash) <==> x in q && !Has(x, key, hash)
  {
    if q != [] {
      OthersElements(q[1..], key, hash);
    }
  }

  /** If only h has them, to leave those out is to leave h out. */
  lemma {:induction false} OnlyOne(q: seq<Handle>, h: Handle, key: ByteSeq, hash: nat)
    requires Distinct(q) && Has(h, key, hash) && forall x :: x in q && Has(x, key, hash) ==> x == h
    ensures Without(q, h) == Others(q, key, hash)
    ensures Those(q, key, hash) == if h in q then [h] else []
  {
    if q != [] {
      assert forall x :: x in q[1..] ==> x in q;
      OnlyOne(q[1..], h, key, hash);
      if q[0] == h {
        assert h !in q[1..];
      }
    }
  }

  lemma {:induction false} NoneHas(q: seq<Handle>, key: ByteSeq, hash: nat)
    requires forall x :: x in q ==> !Has(x, key, hash)
    ensures Others(q, key, hash) == q && Those(q, key, hash) == []
  {
    if q != [] {
      assert q[0] in q && forall x :: x in q[1..] ==> x in q;
      NoneHas(q[1..], key, hash);
    }
  }

  /** The one entry of the table with the key and hash, if there is one. */
  lemma FoundIsOnly(s: Cache, key: ByteSeq, hash: nat)
    requires Inv(s)
    ensures var h := FindCached(s, key, hash);
      if h == null then
        && Others(s.lru, key, hash) == s.lru && Others(s.inUse, key, hash) == s.inUse
        && Those(s.lru, key, hash) == [] && forall x :: x in s.lru || x in s.inUse ==> !Has(x, key, hash)
      else
        && Has(h, key, hash) && (h in s.lru || h in s.inUse)
        && Without(s.lru, h) == Others(s.lru, key, hash) && Without(s.inUse, h) == Others(s.inUse, key, hash)
        && Those(s.lru, key, hash) == if s.pins[h] == 0 then [h] else []
  {
    FindCachedIs(s, key, hash);
    hide FindCached, Without;
    var h := FindCached(s, key, hash);
    if h == null {
      forall x | x in s.lru || x in s.inUse ensures !Has(x, key, hash) {
        assert x in Cached(s);
      }
      NoneHas(s.lru, key, hash);
      NoneHas(s.inUse, key, hash);
    } else {
      forall x | x in Cached(s) && Has(x, key, hash) ensures x == h {
        assert SameId(x, h);
      }
      OnlyOne(s.lru, h, key, hash);
      OnlyOne(s.inUse, h, key, hash);
    }
  }

  // ---------- Lookup ----------

  /** What is returned is the entry with the key, or null.  A miss changes nothing.  A hit is held once more, is among the entries in use, and leaves the lru list. */
  lemma LookupMeans(s: Cache, key: ByteSeq, hash: nat)
    requires Inv(s)
    ensures var t, h := Step(s, Lookup(key, hash)), FindCached(s, key, hash);
      if forall x :: x in s.lru || x in s.inUse ==> !Has(x, key, hash) then h == null && t == s
      else
        && h != null && Has(h, key, hash) && (h in s.lru || h in s.inUse) && t.pins == s.pins + multiset{h}
        && t.lru == Others(s.lru, key, hash) && t.inUse == (if h in s.inUse then s.inUse else s.inUse + [h])
        && t.deleted == s.deleted && t.capacity == s.capacity
  {
    FoundIsOnly(s, key, hash);
    hide FindCached, Without, Others, Those;
    var h := FindCached(s, key, hash);
    if h != null {
      if h in s.inUse {
        WithoutAbsent(s.lru, h);
      }
      assert Has(h, key, hash);
    }
  }

  // ---------- Release ----------

  /** One reference less.  With the last one an entry of the table joins the lru list as the newest, and any other is
      deleted. */
  lemma ReleaseMeans(s: Cache, h: Handle)
    requires Inv(s) && h in s.pins
    ensures var t := Step(s, Release(h));
      && t.pins == s.pins - multiset{h} && t.capacity == s.capacity
      && (s.pins[h] > 1 ==> t.lru == s.lru && t.inUse == s.inUse && t.deleted == s.deleted)
      && (s.pins[h] == 1 && h in s.inUse ==>
            && t.lru == s.lru + [h] && t.deleted == s.deleted
            && forall x :: x in t.inUse <==> x in s.inUse && x != h)
      && (s.pins[h] == 1 && h !in s.inUse ==> t.lru == s.lru && t.inUse == s.inUse && t.deleted == s.deleted + [h])
  {
    WithoutElements(s.inUse, h);
    hide Without;
  }

  // ---------- Erase ----------

  /** Nothing in the table has the key any more; all else stays, in order; and what is erased is deleted at once
      exactly if nobody holds it. */
  lemma EraseMeans(s: Cache, key: ByteSeq, hash: nat)
    requires Inv(s)
    ensures var t := Step(s, Erase(key, hash));
      && t.lru == Others(s.lru, key, hash) && t.inUse == Others(s.inUse, key, hash)
      && t.pins == s.pins && t.capacity == s.capacity && t.deleted == s.deleted + Those(s.lru, key, hash)
  {
    FoundIsOnly(s, key, hash);
    hide FindCached, Without, Others, Those;
    AppendNothing(s.deleted);
  }

  // ---------- Insert ----------

  /** The new entry is held once.  Without a capacity nothing else changes.  Otherwise it takes the place of the entry
      with its key; then the shortest prefix of the other entries of the lru list that suffices, or all of them if none
      does, is deleted, oldest first. */
  ghost predicate Inserted(s: Cache, e: Handle, t: Cache) {
    && t.pins == s.pins + multiset{e} && t.capacity == s.capacity
    && (s.capacity == 0 ==> t.lru == s.lru && t.inUse == s.inUse && t.deleted == s.deleted)
    && (s.capacity > 0 ==>
          var others := Others(s.lru, e.key, e.hash);
          && t.inUse == Others(s.inUse, e.key, e.hash) + [e]
          && exists n: nat {:trigger EvictsFirst(others, t.inUse, s.capacity, n)} ::
               && EvictsFirst(others, t.inUse, s.capacity, n)
               && t.lru == others[n..]
               && t.deleted == s.deleted + Those(s.lru, e.key, e.hash) + others[..n])
  }

  ghost predicate EvictsFirst(q: seq<Handle>, held: seq<Handle>, capacity: nat, n: nat) {
    && n <= |q|
    && (n < |q| ==> Sum(q[n..]) + Sum(held) <= capacity)
    && forall m :: 0 <= m < n ==> Sum(q[m..]) + Sum(held) > capacity
  }

  lemma InsertMeans(s: Cache, e: Handle)
    requires Inv(s) && e !in Known(s)
    ensures Inserted(s, e, Step(s, Insert(e)))
  {
    if s.capacity == 0 {
      assert Evict(Admit(s, e)) == Admit(s, e);
    } else {
      AdmitMeans(s, e);
      AdmitKeeps(s, e);
      AdmitSameCapacity(s, e);
      var t := Admit(s, e);
      EvictsShortestPrefix(t);
      hide Admit, Evict, Known, Inv, Others, Those, Sum;
      var n :| EvictedFirst(t, Evict(t), n);
      FirstEvicted(t, Evict(t), n);
    }
  }

  lemma AdmitMeans(s: Cache, e: Handle)
    requires Inv(s) && e !in Known(s) && s.capacity > 0
    ensures var t := Admit(s, e);
      && t.pins == s.pins + multiset{e} && t.lru == Others(s.lru, e.key, e.hash)
      && t.inUse == Others(s.inUse, e.key, e.hash) + [e]
      && t.deleted == s.deleted + Those(s.lru, e.key, e.hash)
  {
    FoundIsOnly(s, e.key, e.hash);
    NotCached(s, e);
    hide FindCached, Without, Others, Those;
    var h := FindCached(s, e.key, e.hash);
    AppendNothing(s.deleted);
    if h != null {
      WithoutLast(s.inUse, e, h);
    }
  }

  lemma {:induction false} WithoutLast(q: seq<Handle>, e: Handle, h: Handle)
    requires e != h
    ensures Without(q + [e], h) == Without(q, h) + [e]
  {
    if q == [] {
      assert q + [e] == [e] && [e][1..] == [];
    } else {
      assert (q + [e])[1..] == q[1..] + [e];
      WithoutLast(q[1..], e, h);
    }
  }

  lemma FirstEvicted(s: Cache, t: Cache, n: nat)
    requires EvictedFirst(s, t, n)
    ensures EvictsFirst(s.lru, s.inUse, s.capacity, n) && t.inUse == s.inUse && t.pins == s.pins
    ensures t.lru == s.lru[n..] && t.deleted == s.deleted + s.lru[..n]
  {
    hide Sum;
    forall m | 0 <= m <= |s.lru| ensures Sum(s.lru[m..]) == Sum(s.lru) - Sum(s.lru[..m]) {
      SumConcat(s.lru[..m], s.lru[m..]);
      assert s.lru == s.lru[..m] + s.lru[m..];
    }
  }
}

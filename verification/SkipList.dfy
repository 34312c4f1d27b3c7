/** src/data_structure/skip_list.h as a linked structure.  The height of a new node, random in the
    program, is a parameter; the comparator is any function whose "less than" is a strict weak order. */
module SkipList {
  import opened Bytes
  import opened Towers

  const MAX_HEIGHT := 12

  // ---------- the order and the sorted sequence ----------

  predicate Less<K>(cmp: (K, K) -> int, a: K, b: K) {
    cmp(a, b) < 0
  }

  predicate Comparable<K>(cmp: (K, K) -> int, a: K, b: K) {
    Less(cmp, a, b) || Less(cmp, b, a)
  }

  /** The searches rely on no more than this. */
  ghost predicate StrictWeakOrder<K(!new)>(cmp: (K, K) -> int) {
    && (forall a, b :: Less(cmp, a, b) ==> !Less(cmp, b, a))
    && (forall a, b, c :: Less(cmp, a, b) && Less(cmp, b, c) ==> Less(cmp, a, c))
    && (forall a, b, c :: !Less(cmp, a, b) && !Less(cmp, b, c) ==> !Less(cmp, a, c))
    && (forall a, b :: cmp(a, b) == 0 ==> !Less(cmp, b, a))
  }

  /** No key comes after one that it is less than. */
  ghost predicate Sorted<K>(cmp: (K, K) -> int, keys: seq<K>) {
    forall i, j :: 0 <= i < j < |keys| ==> !Less(cmp, keys[j], keys[i])
  }

  ghost predicate StrictlySorted<K>(cmp: (K, K) -> int, keys: seq<K>) {
    forall i, j :: 0 <= i < j < |keys| ==> Less(cmp, keys[i], keys[j])
  }

  /** How many leading keys are less than the target. */
  function Rank<K>(cmp: (K, K) -> int, keys: seq<K>, target: K): (r: nat)
    ensures r <= |keys|
    ensures forall i :: 0 <= i < r ==> Less(cmp, keys[i], target)
    ensures r < |keys| ==> !Less(cmp, keys[r], target)
  {
    if keys == [] || !Less(cmp, keys[0], target) then 0 else 1 + Rank(cmp, keys[1..], target)
  }

  /** In a sorted sequence the keys less than a target are exactly the first ones. */
  lemma RankSplits<K(!new)>(cmp: (K, K) -> int, keys: seq<K>, target: K, i: nat)
    requires StrictWeakOrder(cmp) && Sorted(cmp, keys) && i < |keys|
    ensures Less(cmp, keys[i], target) <==> i < Rank(cmp, keys, target)
  {
    var r := Rank(cmp, keys, target);
    if r < i {
      assert !Less(cmp, keys[i], keys[r]);
    }
  }

  /** The rank of a listed key is the first position with a key that it is not ordered with; its own, if there
      is no other such key. */
  lemma RankOfMember<K(!new)>(cmp: (K, K) -> int, keys: seq<K>, i: nat)
    requires StrictWeakOrder(cmp) && Sorted(cmp, keys) && i < |keys|
    ensures Rank(cmp, keys, keys[i]) <= i
    ensures StrictlySorted(cmp, keys) ==> Rank(cmp, keys, keys[i]) == i
  {
    RankSplits(cmp, keys, keys[i], i);
    var r := Rank(cmp, keys, keys[i]);
    var first, own := keys[r], keys[i];
    assert StrictlySorted(cmp, keys) && r < i ==> Less(cmp, first, own);
  }

  lemma InsertKeepsSorted<K(!new)>(cmp: (K, K) -> int, keys: seq<K>, key: K)
    requires StrictWeakOrder(cmp) && Sorted(cmp, keys)
    ensures Sorted(cmp, InsertAt(keys, Rank(cmp, keys, key), key))
  {
    var r := Rank(cmp, keys, key);
    forall i | 0 <= i < |keys| ensures if i < r then !Less(cmp, key, keys[i]) else !Less(cmp, keys[i], key) {
      RankSplits(cmp, keys, key, i);
    }
  }

  lemma InsertKeepsStrict<K(!new)>(cmp: (K, K) -> int, keys: seq<K>, key: K)
    requires StrictWeakOrder(cmp) && Sorted(cmp, keys) && StrictlySorted(cmp, keys)
    requires forall k :: k in keys ==> Comparable(cmp, k, key)
    ensures StrictlySorted(cmp, InsertAt(keys, Rank(cmp, keys, key), key))
  {
    var r := Rank(cmp, keys, key);
    forall i | 0 <= i < |keys| ensures if i < r then Less(cmp, keys[i], key) else Less(cmp, key, keys[i]) {
      RankSplits(cmp, keys, key, i);
      assert keys[i] in keys;
    }
  }

  // ---------- the structure ----------

  class Node<K> {
    const key: K
    var next: seq<Node?<K>>

    constructor (key: K, height: nat)
      ensures this.key == key && next == seq(height, i => null)
    {
      this.key := key;
      next := seq(height, i => null);
    }
  }

  ghost function At<K>(row: seq<Node<K>>, m: nat): Node?<K> {
    if m < |row| then row[m] else null
  }

  /** Every tower's pointers, up to its given height, lead to the next tower of the level. */
  ghost predicate Linked<K>(row: seq<Node<K>>, heights: seq<nat>)
    reads row
  {
    && |heights| == |row|
    && (forall j :: 0 <= j < |row| ==> heights[j] <= |row[j].next|)
    && (forall j, l :: 0 <= j < |row| && 0 <= l < heights[j] ==> row[j].next[l] == At(row, Link(heights, l, j)))
  }

  ghost function KeysOf<K>(nodes: seq<Node<K>>): (keys: seq<K>)
    ensures |keys| == |nodes|
  {
    seq(|nodes|, i requires 0 <= i < |nodes| => nodes[i].key)
  }

  /** A search for `place` has come down to this: on level l it stood on the last tower before the place. */
  ghost predicate FoundOn(heights: seq<nat>, l: nat, at: nat, place: nat) {
    at < place <= |heights| && heights[at] > l && Link(heights, l, at) >= place
  }

  ghost predicate AllFound(heights: seq<nat>, at: seq<nat>, from: nat, place: nat) {
    forall l :: from <= l < |at| ==> FoundOn(heights, l, at[l], place)
  }

  /** The pointers a search leaves in `prev` are to the towers it went down on. */
  ghost predicate Recorded<T>(prev: seq<T>, row: seq<T>, at: seq<nat>, from: nat) {
    |at| == |prev| && forall l :: from <= l < |at| ==> at[l] < |row| && prev[l] == row[at[l]]
  }

  lemma NothingFoundYet<T>(heights: seq<nat>, at: seq<nat>, place: nat, prev: seq<T>, row: seq<T>)
    ensures AllFound(heights, at, |at|, place)
    ensures |at| == |prev| ==> Recorded(prev, row, at, |at|)
  {
  }

  lemma GoDown(heights: seq<nat>, at: seq<nat>, level: nat, c: nat, place: nat, m: nat)
    requires level < |at| && AllFound(heights, at, level + 1, place)
    requires c < place <= m <= |heights| && heights[c] > level && m == Link(heights, level, c)
    ensures AllFound(heights, at[level := c], level, place)
  {
    hide Link;
  }

  lemma GoDownRecorded<T>(prev: seq<T>, row: seq<T>, at: seq<nat>, level: nat, c: nat)
    requires level < |at| && Recorded(prev, row, at, level + 1) && c < |row|
    ensures Recorded(prev[level := row[c]], row, at[level := c], level)
  {
  }

  lemma SearchGrows<T>(heights: seq<nat>, at: seq<nat>, place: nat, prev: seq<T>, row: seq<T>, head: T)
    requires AllFound(heights, at, 0, place) && Recorded(prev, row, at, 0)
    requires FoundOn(heights, |at|, 0, place) && row != [] && row[0] == head
    ensures AllFound(heights, at + [0], 0, place) && Recorded(prev + [head], row, at + [0], 0)
  {
    hide FoundOn;
  }

  /** One turn of Insert's last loop: two pointer stores link the new node x on one level. */
  method LinkOnLevel<K>(x: Node<K>, before: Node<K>, level: nat, ghost row: seq<Node<K>>, ghost heights: seq<nat>,
                        ghost p: nat, ghost at: nat)
    requires Linked(row, heights) && Distinct(row)
    requires p < |row| && row[p] == x && heights[p] == level && level < |x.next|
    requires at < p < Link(heights, level, at) && heights[at] > level && row[at] == before
    modifies x, before
    ensures Linked(row, heights[p := level + 1])
    ensures |x.next| == old(|x.next|)
  {
    hide Link;
    LinkLevel(heights, p, level, at);
    x.next := x.next[level := before.next[level]];
    before.next := before.next[level := x];
  }

  /** Where Insert will link the new tower at p: on each level, right after the tower a search found. */
  ghost predicate Places<T>(row: seq<T>, heights: seq<nat>, prev: seq<T>, at: seq<nat>, from: nat, p: nat) {
    && |heights| == |row| && |at| == |prev|
    && forall l :: from <= l < |at| ==>
         at[l] < p < |row| && heights[at[l]] > l && p < Link(heights, l, at[l]) && prev[l] == row[at[l]]
  }

  /** The last loop of Insert, bottom-up. */
  method LinkTower<K>(x: Node<K>, height: nat, prev: seq<Node<K>>, ghost row: seq<Node<K>>, ghost flat: seq<nat>,
                      ghost p: nat, ghost at: seq<nat>)
    requires |flat| == |row| && Linked(row, flat) && Distinct(row)
    requires p < |row| == |flat| && row[p] == x && flat[p] == 0 && height == |x.next| <= |prev| == |at|
    requires Places(row, flat, prev, at, 0, p)
    modifies row
    ensures Linked(row, flat[p := height])
  {
    hide Linked, Link, Places;
    ghost var h := flat;
    for i := 0 to height
      invariant h == flat[p := i] && Linked(row, h) && |x.next| == height
      invariant Places(row, h, prev, at, i, p)
    {
      PlacesNext(row, h, prev, at, i, p);
      LinkOnLevel(x, prev[i], i, row, h, p, at[i]);
      h := h[p := i + 1];
    }
  }

  lemma PlacesNext<T>(row: seq<T>, heights: seq<nat>, prev: seq<T>, at: seq<nat>, level: nat, p: nat)
    requires Places(row, heights, prev, at, level, p) && level < |at| && p < |row| && heights[p] == level
    ensures at[level] < p < Link(heights, level, at[level]) && heights[at[level]] > level && prev[level] == row[at[level]]
    ensures Places(row, heights[p := level + 1], prev, at, level + 1, p)
  {
    hide Link;
    var after := heights[p := level + 1];
    LinkLevel(heights, p, level, at[level]);
    forall l | level + 1 <= l < |at| ensures after[at[l]] > l && p < Link(after, l, at[l]) {
      assert Link(after, l, at[l]) == Link(heights, l, at[l]);
    }
  }

  lemma DistinctInserted<T>(s: seq<T>, p: nat, x: T)
    requires Distinct(s) && x !in s && p <= |s|
    ensures Distinct(InsertAt(s, p, x))
  {
    assert forall i :: 0 <= i < |s| ==> s[i] != x;
  }

  lemma LinkedInserted<K>(row: seq<Node<K>>, heights: seq<nat>, p: nat, x: Node<K>)
    requires Linked(row, heights) && p <= |row|
    ensures Linked(InsertAt(row, p, x), InsertAt(heights, p, 0))
  {
    hide Link;
    var row', flat := InsertAt(row, p, x), InsertAt(heights, p, 0);
    forall j, l | 0 <= j < |row'| && 0 <= l < flat[j] ensures row'[j].next[l] == At(row', Link(flat, l, j)) {
      var k := if j < p then j else j - 1;
      InsertFlat(heights, l, k, p);
      assert row[k].next[l] == At(row, Link(heights, l, k));
    }
  }

  lemma KeysInserted<K>(row: seq<Node<K>>, p: nat, x: Node<K>)
    requires 0 < p <= |row|
    ensures KeysOf(InsertAt(row, p, x)[1..]) == InsertAt(KeysOf(row[1..]), p - 1, x.key)
  {
  }

  lemma HeightsInserted(heights: seq<nat>, p: nat, height: nat)
    requires p <= |heights|
    ensures InsertAt(heights, p, 0)[p := height] == InsertAt(heights, p, height)
  {
  }

  lemma Inserted<T>(s: seq<T>, p: nat, x: T)
    requires 0 < p <= |s|
    ensures InsertAt(s, p, x)[p] == x
    ensures Distinct(s) && x !in s ==> Distinct(InsertAt(s, p, x))
    ensures forall y :: y in InsertAt(s, p, x) ==> y == x || y in s
  {
    if x !in s && Distinct(s) {
      DistinctInserted(s, p, x);
    }
  }

  lemma PlacesKept<T>(row: seq<T>, heights: seq<nat>, prev: seq<T>, at: seq<nat>, p: nat, x: T)
    requires |heights| == |row| && p <= |row|
    requires AllFound(heights, at, 0, p) && Recorded(prev, row, at, 0)
    ensures Places(InsertAt(row, p, x), InsertAt(heights, p, 0), prev, at, 0, p)
  {
    hide Link;
    forall l | 0 <= l < |at| ensures
      var row', flat := InsertAt(row, p, x), InsertAt(heights, p, 0);
      at[l] < p && flat[at[l]] > l && p < Link(flat, l, at[l]) && prev[l] == row'[at[l]]
    {
      assert FoundOn(heights, l, at[l], p);
      PlaceKept(heights, p, l, at[l]);
    }
  }

  /** The head is as tall as can be, every other tower between one level and the height in use. */
  ghost predicate Shape<K>(row: seq<Node<K>>, heights: seq<nat>, head: Node<K>, maxHeight: nat) {
    && |row| == |heights| && row != [] && row[0] == head && Distinct(row)
    && 1 <= maxHeight <= MAX_HEIGHT && heights[0] == MAX_HEIGHT
    && (forall j :: 0 < j < |row| ==> 1 <= heights[j] <= maxHeight)
  }

  lemma ShapeInserted<K>(row: seq<Node<K>>, heights: seq<nat>, head: Node<K>, maxHeight: nat, p: nat, x: Node<K>,
                         height: nat)
    requires Shape(row, heights, head, maxHeight) && x !in row && 0 < p <= |row| && 1 <= height <= maxHeight
    ensures Shape(InsertAt(row, p, x), InsertAt(heights, p, height), head, maxHeight)
  {
    hide Distinct;
    DistinctInserted(row, p, x);
  }

  class SkipList<K(!new)> {
    const cmp: (K, K) -> int
    const head: Node<K>
    var maxHeight: nat
    ghost var row: seq<Node<K>>      // the head, then the nodes in list order
    ghost var heights: seq<nat>

    /** The keys in the list, in order. */
    ghost function Keys(): seq<K>
      reads this
      requires row != []
    {
      KeysOf(row[1..])
    }

    ghost predicate Valid()
      reads this, row
    {
      && Shape(row, heights, head, maxHeight) && Linked(row, heights)
      && StrictWeakOrder(cmp) && Sorted(cmp, Keys())
    }

    /** Position in the row of the first node not less than the target. */
    ghost function Place(target: K): (p: nat)
      reads this
      requires row != []
      ensures 1 <= p <= |row|
    {
      Rank(cmp, Keys(), target) + 1
    }

    lemma PlaceSplits(target: K, j: nat)
      requires Valid() && 0 < j < |row|
      ensures Less(cmp, row[j].key, target) <==> j < Place(target)
    {
      RankSplits(cmp, Keys(), target, j - 1);
    }

    constructor (cmp: (K, K) -> int, headKey: K)
      requires StrictWeakOrder(cmp)
      ensures Valid() && fresh(row) && Keys() == [] && this.cmp == cmp
    {
      this.cmp := cmp;
      var h := new Node(headKey, MAX_HEIGHT);
      head := h;
      maxHeight := 1;
      row := [h];
      heights := [MAX_HEIGHT];
    }

    /** What a search standing on tower c sees on a level. */
    lemma LookAhead(c: nat, level: nat, target: K) returns (m: nat)
      requires Valid() && c < |row| && heights[c] > level
      ensures c < m <= |row| && m == Link(heights, level, c)
      ensures level < |row[c].next| && row[c].next[level] == At(row, m)
      ensures m < |row| ==> row[m] != head && heights[m] > level && (Less(cmp, row[m].key, target) <==> m < Place(target))
      ensures level == 0 ==> m == c + 1
    {
      m := Link(heights, level, c);
      if m < |row| {
        hide Place, Keys, StrictWeakOrder, Sorted, Linked;
        PlaceSplits(target, m);
      }
    }

    lemma RowFacts()
      requires Valid()
      ensures |row| > 0 && |heights| == |row| && row[0] == head && heights[0] == MAX_HEIGHT && 1 <= maxHeight <= MAX_HEIGHT
    {
    }

    /** FindGreaterOrEqual.  `prev` holds, for every level in use, the last node before the place; the
        callers that pass a null pointer for it ignore it. */
    method FindGreaterOrEqual(key: K) returns (found: Node?<K>, prev: seq<Node<K>>, ghost at: seq<nat>)
      requires Valid()
      ensures found == At(row, Place(key))
      ensures |at| == maxHeight && AllFound(heights, at, 0, Place(key))
      ensures Recorded(prev, row, at, 0)
    {
      RowFacts();
      hide Link, Place, Keys, Valid, AllFound, Recorded;
      var x, level := head, maxHeight - 1;
      ghost var c: nat, place: nat := 0, Place(key);
      at, prev := seq(maxHeight, i => 0), seq(maxHeight, i => head);
      NothingFoundYet(heights, at, place, prev, row);
      while true
        invariant 0 <= level < maxHeight && c < place && x == row[c] && heights[c] > level
        invariant |at| == |prev| == maxHeight
        invariant AllFound(heights, at, level + 1, place) && Recorded(prev, row, at, level + 1)
        decreases level, |row| - c
      {
        ghost var m := LookAhead(c, level, key);
        var next := x.next[level];
        if next != null && cmp(next.key, key) < 0 {
          x, c := next, m;
        } else {
          GoDown(heights, at, level, c, place, m);
          GoDownRecorded(prev, row, at, level, c);
          prev, at := prev[level := x], at[level := c];
          if level == 0 {
            return next, prev, at;
          }
          level := level - 1;
        }
      }
    }

    /** The part of Insert that raises max_height_: above the height in use the head comes before. */
    method RaiseMaxHeight(height: nat, prev: seq<Node<K>>, ghost at: seq<nat>, ghost place: nat)
      returns (prev': seq<Node<K>>, ghost at': seq<nat>)
      requires Valid() && height <= MAX_HEIGHT && 0 < place <= |row|
      requires |at| == maxHeight && AllFound(heights, at, 0, place) && Recorded(prev, row, at, 0)
      modifies `maxHeight
      ensures Valid() && maxHeight == if height > old(maxHeight) then height else old(maxHeight)
      ensures |at'| == maxHeight && AllFound(heights, at', 0, place) && Recorded(prev', row, at', 0)
    {
      prev', at' := prev, at;
      if height > maxHeight {
        RowFacts();
        hide Keys, Sorted, StrictWeakOrder, AllFound, FoundOn, Recorded, Linked;
        for i := maxHeight to height
          invariant Valid() && maxHeight == old(maxHeight)
          invariant |at'| == i && AllFound(heights, at', 0, place) && Recorded(prev', row, at', 0)
        {
          HeadFound(i, place);
          SearchGrows(heights, at', place, prev', row, head);
          prev', at' := prev' + [head], at' + [0];
        }
        maxHeight := height;
      }
    }

    /** Insert asserts that the key does not compare equal to the first one not less than it.  A key that is not
        ordered with some others comes to stand before them. */
    method Insert(key: K, height: nat)
      requires Valid() && 1 <= height <= MAX_HEIGHT
      requires var r := Rank(cmp, Keys(), key); r < |Keys()| ==> cmp(key, Keys()[r]) != 0
      modifies this, row
      ensures Valid()
      ensures Keys() == InsertAt(old(Keys()), Rank(cmp, old(Keys()), key), key)
      ensures exists x: Node<K> :: fresh(x) && row == InsertAt(old(row), old(Place(key)), x)
      ensures heights == InsertAt(old(heights), old(Place(key)), height)
    {
      ghost var place := Place(key);
      RowFacts();
      NotEqual(key);
      InsertKeepsSorted(cmp, Keys(), key);
      hide Keys, Place, Valid, Sorted, StrictWeakOrder, AllFound, FoundOn, Link, Recorded, Linked, InsertAt,
           Distinct, KeysOf, Shape, Less, Comparable, At, Rank;
      var next, prev, at := FindGreaterOrEqual(key);
      assert next == null || cmp(key, next.key) != 0;
      prev, at := RaiseMaxHeight(height, prev, at, place);
      var x := new Node(key, height);
      Splice(x, height, prev, at, place);
    }

    /** The loop of Insert that links the new node, seen from the whole list. */
    method Splice(x: Node<K>, height: nat, prev: seq<Node<K>>, ghost at: seq<nat>, ghost place: nat)
      requires Valid() && x !in row && |x.next| == height && 1 <= height <= maxHeight
      requires |at| == maxHeight && AllFound(heights, at, 0, place) && Recorded(prev, row, at, 0)
      requires 0 < place <= |row| && Sorted(cmp, InsertAt(Keys(), place - 1, x.key))
      modifies this, row, x
      ensures Valid()
      ensures row == InsertAt(old(row), place, x) && heights == InsertAt(old(heights), place, height)
      ensures Keys() == InsertAt(old(Keys()), place - 1, x.key)
    {
      hide Place, Sorted, StrictWeakOrder, AllFound, FoundOn, Link, Recorded, Linked, InsertAt, Distinct, KeysOf, Shape;
      ghost var row', flat := PlanInsert(x, height, prev, at, place);
      assert forall k :: 0 <= k < |row'| ==> row'[k] in row || row'[k] == x;
      LinkTower(x, height, prev, row', flat, place, at);
      heights := flat[place := height];
      row := row';
    }

    /** The row before the new node is linked on any level, and what linking it there will establish. */
    lemma PlanInsert(x: Node<K>, height: nat, prev: seq<Node<K>>, at: seq<nat>, place: nat)
      returns (row': seq<Node<K>>, flat: seq<nat>)
      requires Valid() && x !in row && |x.next| == height && 1 <= height <= maxHeight && 0 < place <= |row|
      requires |at| == maxHeight && AllFound(heights, at, 0, place) && Recorded(prev, row, at, 0)
      ensures row' == InsertAt(row, place, x) && |flat| == |row'|
      ensures place < |row'| && row'[place] == x && flat[place] == 0
      ensures Linked(row', flat) && Distinct(row') && Places(row', flat, prev, at, 0, place)
      ensures flat[place := height] == InsertAt(heights, place, height) && |prev| == |at|
      ensures Shape(row', flat[place := height], head, maxHeight)
      ensures KeysOf(row'[1..]) == InsertAt(Keys(), place - 1, x.key)
      ensures forall y :: y in row' ==> y == x || y in row
    {
      hide Sorted, StrictWeakOrder, AllFound, FoundOn, Link, Linked, KeysOf;
      row', flat := InsertAt(row, place, x), InsertAt(heights, place, 0);
      RowFacts();
      ShapeInserted(row, heights, head, maxHeight, place, x, height);
      LinkedInserted(row, heights, place, x);
      KeysInserted(row, place, x);
      HeightsInserted(heights, place, height);
      PlacesKept(row, heights, prev, at, place, x);
      Inserted(row, place, x);
    }

    lemma NotEqual(key: K)
      requires Valid() && var r := Rank(cmp, Keys(), key); r < |Keys()| ==> cmp(key, Keys()[r]) != 0
      ensures Place(key) < |row| ==> cmp(key, row[Place(key)].key) != 0
    {
    }

    /** Above the height in use there is only the head. */
    lemma HeadFound(level: nat, place: nat)
      requires Valid() && maxHeight <= level < MAX_HEIGHT && 0 < place <= |row|
      ensures FoundOn(heights, level, 0, place)
    {
      hide Place, Keys, Sorted, StrictWeakOrder, Link;
      LinkIs(heights, level, 0, |row|);
    }

    /** FindLessThan: the last node less than the key, or the head. */
    method FindLessThan(key: K) returns (x: Node<K>)
      requires Valid()
      ensures x == row[Place(key) - 1]
    {
      RowFacts();
      hide Link, Place, Keys, Valid;
      x := head;
      var level := maxHeight - 1;
      ghost var c: nat, place: nat := 0, Place(key);
      while true
        invariant 0 <= level < maxHeight && c < place && x == row[c] && heights[c] > level
        decreases level, |row| - c
      {
        ghost var m := LookAhead(c, level, key);
        var next := x.next[level];
        if next == null || cmp(next.key, key) >= 0 {
          if level == 0 {
            return;
          } else {
            level := level - 1;
          }
        } else {
          x, c := next, m;
        }
      }
    }

    /** FindLast: the last node, or the head. */
    method FindLast() returns (x: Node<K>)
      requires Valid()
      ensures x == row[|row| - 1]
    {
      RowFacts();
      hide Link, Place, Keys, Valid;
      x := head;
      var level := maxHeight - 1;
      ghost var c: nat := 0;
      while true
        invariant 0 <= level < maxHeight && c < |row| && x == row[c] && heights[c] > level
        decreases level, |row| - c
      {
        ghost var m := LookAhead(c, level, x.key);
        var next := x.next[level];
        if next == null {
          if level == 0 {
            return;
          } else {
            level := level - 1;
          }
        } else {
          x, c := next, m;
        }
      }
    }

    /** Contains looks at the first key not less than the one sought.  It finds a key that compares equal
        wherever it is, if no two keys in the list are unordered, or if the comparator returns 0 for any two keys
        it does not order. */
    method Contains(key: K) returns (found: bool)
      requires Valid()
      ensures var r := Rank(cmp, Keys(), key); found <==> r < |Keys()| && cmp(key, Keys()[r]) == 0
      ensures StrictlySorted(cmp, Keys()) || ThreeWay(cmp) ==> (found <==> exists k :: k in Keys() && cmp(key, k) == 0)
    {
      var x, _, _ := FindGreaterOrEqual(key);
      found := x != null && cmp(key, x.key) == 0;
      EqualIsAtPlace(key);
    }

    lemma EqualIsAtPlace(key: K)
      requires Valid()
      ensures StrictlySorted(cmp, Keys()) || ThreeWay(cmp) ==>
        forall i :: 0 <= i < |Keys()| && cmp(key, Keys()[i]) == 0 ==>
          var r := Rank(cmp, Keys(), key); r < |Keys()| && cmp(key, Keys()[r]) == 0
    {
      hide Linked;
      if StrictlySorted(cmp, Keys()) || ThreeWay(cmp) {
        forall i | 0 <= i < |Keys()| && cmp(key, Keys()[i]) == 0
          ensures var r := Rank(cmp, Keys(), key); r < |Keys()| && cmp(key, Keys()[r]) == 0
        {
          EqualHasItsRank(cmp, Keys(), key, i);
        }
      }
    }
  }

  /** Keys that are not ordered compare equal. */
  ghost predicate ThreeWay<K(!new)>(cmp: (K, K) -> int) {
    forall a, b :: cmp(a, b) == 0 <==> !Comparable(cmp, a, b)
  }

  lemma EqualHasItsRank<K(!new)>(cmp: (K, K) -> int, keys: seq<K>, key: K, i: nat)
    requires StrictWeakOrder(cmp) && Sorted(cmp, keys) && i < |keys| && cmp(key, keys[i]) == 0
    requires StrictlySorted(cmp, keys) || ThreeWay(cmp)
    ensures var r := Rank(cmp, keys, key); r < |keys| && cmp(key, keys[r]) == 0
  {
    var r := Rank(cmp, keys, key);
    RankSplits(cmp, keys, key, i);
    assert !Less(cmp, key, keys[i]);
    if r < i {
      assert !Less(cmp, keys[i], keys[r]);
    }
  }

  // ---------- iterators ----------

  class Iterator<K(!new)> {
    const list: SkipList<K>
    var node: Node?<K>

    /** The iterator is on the key with index i; with i = |Keys()| it is not valid. */
    ghost predicate On(i: nat)
      reads this, list, list.row
    {
      list.Valid() && i <= |list.Keys()| && node == At(list.row, i + 1)
    }

    constructor (list: SkipList<K>)
      requires list.Valid()
      ensures this.list == list && On(|list.Keys()|)
    {
      this.list := list;
      node := null;
    }

    predicate Valid()
      reads this
    {
      node != null
    }

    method Key() returns (key: K)
      requires Valid() && exists i: nat :: On(i)
      ensures forall i: nat :: On(i) ==> i < |list.Keys()| && key == list.Keys()[i]
    {
      key := node.key;
    }

    method Next(ghost i: nat)
      requires On(i) && Valid()
      modifies this
      ensures i < |list.Keys()| && On(i + 1)
    {
      hide StrictWeakOrder, Sorted, KeysOf, Link;
      ghost var m := list.LookAhead(i + 1, 0, node.key);
      node := node.next[0];
    }

    /** Prev goes to the last key less than the current one, and leaves the valid positions if there is none; in a
        list without unordered keys that is the position before. */
    method Prev(ghost i: nat)
      requires On(i) && Valid()
      modifies this
      ensures i < |list.Keys()|
      ensures var r := Rank(list.cmp, list.Keys(), list.Keys()[i]); On(if r == 0 then |list.Keys()| else r - 1)
      ensures StrictlySorted(list.cmp, list.Keys()) ==> On(if i == 0 then |list.Keys()| else i - 1)
    {
      PrevPlace(i);
      hide StrictWeakOrder, Sorted, StrictlySorted, KeysOf, Link, Linked, Rank;
      node := list.FindLessThan(node.key);
      if node == list.head {
        node := null;
      }
    }

    lemma PrevPlace(i: nat)
      requires On(i) && Valid()
      ensures i < |list.Keys()| && list.Keys()[i] == node.key
      ensures list.Place(node.key) == Rank(list.cmp, list.Keys(), node.key) + 1 <= i + 1
      ensures StrictlySorted(list.cmp, list.Keys()) ==> Rank(list.cmp, list.Keys(), node.key) == i
    {
      RankOfMember(list.cmp, list.Keys(), i);
    }

    /** Seek: the first key not less than the target. */
    method Seek(target: K)
      requires list.Valid()
      modifies this
      ensures On(Rank(list.cmp, list.Keys(), target))
    {
      hide StrictWeakOrder, Sorted, KeysOf, Link, Linked, Rank;
      var found, _, _ := list.FindGreaterOrEqual(target);
      node := found;
    }

    method SeekToFirst()
      requires list.Valid()
      modifies this
      ensures On(0)
    {
      hide StrictWeakOrder, Sorted, KeysOf, Link;
      ghost var m := list.LookAhead(0, 0, list.head.key);
      node := list.head.next[0];
    }

    method SeekToLast()
      requires list.Valid()
      modifies this
      ensures On(if list.Keys() == [] then 0 else |list.Keys()| - 1)
    {
      hide StrictWeakOrder, Sorted, KeysOf, Link, Linked;
      node := list.FindLast();
      if node == list.head {
        node := null;
      }
    }
  }

  // ---------- levels ----------

  /** The keys of the towers that reach a level. */
  function OnLevel<K>(keys: seq<K>, heights: seq<nat>, level: nat): (r: seq<K>)
    requires |keys| == |heights|
    decreases |keys|
  {
    if keys == [] then []
    else if heights[0] > level then [keys[0]] + OnLevel(keys[1..], heights[1..], level)
    else OnLevel(keys[1..], heights[1..], level)
  }

  ghost predicate Subsequence<K>(a: seq<K>, b: seq<K>) {
    a == [] || (b != [] && (Subsequence(a, b[1..]) || (a[0] == b[0] && Subsequence(a[1..], b[1..]))))
  }

  /** Each level is a subsequence of the one below. */
  lemma {:induction false} LevelsNest<K>(keys: seq<K>, heights: seq<nat>, level: nat)
    requires |keys| == |heights|
    ensures Subsequence(OnLevel(keys, heights, level + 1), OnLevel(keys, heights, level))
    decreases |keys|
  {
    if keys != [] {
      LevelsNest(keys[1..], heights[1..], level);
      if OnLevel(keys[1..], heights[1..], level + 1) != [] || heights[0] <= level + 1 {
        DropFirst(OnLevel(keys[1..], heights[1..], level + 1), OnLevel(keys[1..], heights[1..], level), keys[0]);
      }
    }
  }

  lemma DropFirst<K>(a: seq<K>, b: seq<K>, x: K)
    requires Subsequence(a, b)
    ensures Subsequence(a, [x] + b) && Subsequence([x] + a, [x] + b)
  {
    assert ([x] + b)[1..] == b && ([x] + a)[1..] == a;
  }

  /** Every key is on the lowest level ... */
  lemma {:induction false} LowestLevel<K>(keys: seq<K>, heights: seq<nat>)
    requires |keys| == |heights| && forall i :: 0 <= i < |heights| ==> heights[i] >= 1
    ensures OnLevel(keys, heights, 0) == keys
    decreases |keys|
  {
    if keys != [] {
      LowestLevel(keys[1..], heights[1..]);
    }
  }

  /** ... and every level is sorted. */
  lemma {:induction false} LevelsSorted<K(!new)>(cmp: (K, K) -> int, keys: seq<K>, heights: seq<nat>, level: nat)
    requires |keys| == |heights|
    ensures Sorted(cmp, keys) ==> Sorted(cmp, OnLevel(keys, heights, level))
    ensures StrictlySorted(cmp, keys) ==> StrictlySorted(cmp, OnLevel(keys, heights, level))
    ensures forall k :: k in OnLevel(keys, heights, level) ==> k in keys
    decreases |keys|
  {
    if keys != [] {
      LevelsSorted(cmp, keys[1..], heights[1..], level);
      forall k | k in keys[1..]
        ensures Sorted(cmp, keys) ==> !Less(cmp, k, keys[0])
        ensures StrictlySorted(cmp, keys) ==> Less(cmp, keys[0], k)
      {
        var i :| 0 <= i < |keys[1..]| && keys[1..][i] == k;
        assert keys[i + 1] == k;
      }
    }
  }

  lemma {:induction false} OnLevelSkips<K>(keys: seq<K>, heights: seq<nat>, level: nat, c: nat, m: nat)
    requires |heights| == |keys| + 1 && c < m <= |heights|
    requires forall k :: c < k < m ==> heights[k] <= level
    requires m < |heights| ==> heights[m] > level
    ensures OnLevel(keys[c..], heights[c + 1..], level)
         == if m < |heights| then [keys[m - 1]] + OnLevel(keys[m..], heights[m + 1..], level) else []
    decreases m - c
  {
    if c < |keys| {
      assert keys[c..][1..] == keys[c + 1..] && heights[c + 1..][1..] == heights[c + 2..];
      if c + 1 < m {
        OnLevelSkips(keys, heights, level, c + 1, m);
      }
    }
  }

  /** The keys of a level that stand after tower c. */
  ghost function After<K(!new)>(list: SkipList<K>, c: nat, level: nat): seq<K>
    reads list, list.row
    requires list.Valid() && c < |list.row|
  {
    OnLevel(list.Keys()[c..], list.heights[c + 1..], level)
  }

  lemma AfterStep<K(!new)>(list: SkipList<K>, c: nat, level: nat) returns (m: nat)
    requires list.Valid() && c < |list.row| && list.heights[c] > level
    ensures c < m <= |list.row| && level < |list.row[c].next| && list.row[c].next[level] == At(list.row, m)
    ensures m < |list.row| ==>
      list.heights[m] > level && After(list, c, level) == [list.row[m].key] + After(list, m, level)
    ensures m == |list.row| ==> After(list, c, level) == []
  {
    hide StrictWeakOrder, Sorted, Link, OnLevel;
    m := list.LookAhead(c, level, list.head.key);
    OnLevelSkips(list.Keys(), list.heights, level, c, m);
  }

  /** Following the pointers of a level from a tower visits exactly the keys that After names. */
  method LevelKeys<K(!new)>(list: SkipList<K>, x: Node<K>, level: nat, ghost c: nat) returns (keys: seq<K>)
    requires list.Valid() && c < |list.row| && x == list.row[c] && list.heights[c] > level
    ensures keys == After(list, c, level)
    decreases |list.row| - c
  {
    hide SkipList.Valid, After;
    ghost var m := AfterStep(list, c, level);
    var next := x.next[level];
    if next == null {
      return [];
    }
    var rest := LevelKeys(list, next, level, m);
    keys := [next.key] + rest;
  }

  /** From the head that is the whole level. */
  lemma WholeLevel<K(!new)>(list: SkipList<K>, level: nat)
    requires list.Valid() && level < MAX_HEIGHT
    ensures list.row[0] == list.head && list.heights[0] > level && |list.heights| == |list.Keys()| + 1
    ensures After(list, 0, level) == OnLevel(list.Keys(), list.heights[1..], level)
  {
    hide Linked, OnLevel;
    assert list.Keys()[0..] == list.Keys();
  }

  // ---------- any series of insertions ----------

  lemma InsertAtMembers<K>(s: seq<K>, p: nat, x: K)
    requires p <= |s|
    ensures multiset(InsertAt(s, p, x)) == multiset(s) + multiset{x}
  {
    assert s == s[..p] + s[p..];
  }

  /** The same keys, each as often. */
  ghost predicate SameKeys<K>(a: seq<K>, b: seq<K>) {
    multiset(a) == multiset(b)
  }

  lemma NoKeys<K>(cmp: (K, K) -> int, keys: seq<K>)
    ensures SameKeys([], keys[..0]) && StrictlySorted(cmp, [])
  {
  }

  lemma OneKeyMore<K>(before: seq<K>, after: seq<K>, keys: seq<K>, i: nat)
    requires i < |keys| && SameKeys(before, keys[..i]) && multiset(after) == multiset(before) + multiset{keys[i]}
    ensures SameKeys(after, keys[..i + 1])
  {
    assert keys[..i + 1] == keys[..i] + [keys[i]];
  }

  /** No key compares equal to an earlier one. */
  ghost predicate NoneEqual<K>(cmp: (K, K) -> int, keys: seq<K>) {
    forall i, j :: 0 <= i < j < |keys| ==> cmp(keys[j], keys[i]) != 0
  }

  ghost predicate PairwiseComparable<K>(cmp: (K, K) -> int, keys: seq<K>) {
    forall i, j :: 0 <= i < j < |keys| ==> Comparable(cmp, keys[i], keys[j])
  }

  lemma RowInserted<T>(row: seq<T>, p: nat, x: T)
    requires p <= |row|
    ensures var after := InsertAt(row, p, x); forall k :: 0 <= k < |after| ==> after[k] in row || after[k] == x
  {
  }

  method InsertNext<K(!new)>(list: SkipList<K>, key: K, height: nat)
    requires list.Valid() && 1 <= height <= MAX_HEIGHT && |list.row| > 0
    requires forall k :: k in list.Keys() ==> list.cmp(key, k) != 0
    modifies list, list.row
    ensures list.Valid() && |list.row| > 0 && multiset(list.Keys()) == multiset(old(list.Keys())) + multiset{key}
    ensures StrictlySorted(list.cmp, old(list.Keys())) && (forall k :: k in old(list.Keys()) ==> Comparable(list.cmp, k, key))
      ==> StrictlySorted(list.cmp, list.Keys())
    ensures forall k :: 0 <= k < |list.row| ==> list.row[k] in old(list.row) || fresh(list.row[k])
  {
    hide *;
    ghost var row, place, keys := list.row, list.Place(key), list.Keys();
    InsertAtMembers(keys, Rank(list.cmp, keys, key), key);
    KeysSorted(list);
    if StrictlySorted(list.cmp, keys) && forall k :: k in keys ==> Comparable(list.cmp, k, key) {
      InsertKeepsStrict(list.cmp, keys, key);
    }
    RankIsListed(list.cmp, keys, key);
    list.Insert(key, height);
    ghost var x :| fresh(x) && list.row == InsertAt(row, place, x);
    RowInserted(row, place, x);
    list.RowFacts();
  }

  lemma RankIsListed<K>(cmp: (K, K) -> int, keys: seq<K>, key: K)
    ensures var r := Rank(cmp, keys, key); r < |keys| ==> keys[r] in keys
  {
  }

  /** Keys of which none compares equal to another, inserted in any order with any heights: the list holds exactly
      them, sorted; strictly, if any two of them are ordered. */
  method InsertAll<K(!new)>(cmp: (K, K) -> int, headKey: K, keys: seq<K>, heights: seq<nat>) returns (list: SkipList<K>)
    requires StrictWeakOrder(cmp) && NoneEqual(cmp, keys)
    requires |heights| == |keys| && forall i :: 0 <= i < |heights| ==> 1 <= heights[i] <= MAX_HEIGHT
    ensures list.Valid() && fresh(list) && list.cmp == cmp && |list.row| > 0
    ensures Sorted(cmp, list.Keys()) && SameKeys(list.Keys(), keys)
    ensures PairwiseComparable(cmp, keys) ==> StrictlySorted(cmp, list.Keys())
  {
    hide *;
    list := new SkipList(cmp, headKey);
    list.RowFacts();
    NoKeys(cmp, keys);
    var i := 0;
    while i < |keys|
      invariant i <= |keys| && fresh(list) && list.Valid() && list.cmp == cmp && |list.row| > 0
      invariant forall k :: 0 <= k < |list.row| ==> fresh(list.row[k])
      invariant SameKeys(list.Keys(), keys[..i])
      invariant PairwiseComparable(cmp, keys) ==> StrictlySorted(cmp, list.Keys())
    {
      ghost var before := list.Keys();
      NextKey(cmp, keys, i, before);
      InsertNext(list, keys[i], heights[i]);
      OneKeyMore(before, list.Keys(), keys, i);
      i := i + 1;
    }
    assert keys[..i] == keys;
    KeysSorted(list);
  }

  lemma KeysSorted<K(!new)>(list: SkipList<K>)
    requires list.Valid()
    ensures |list.row| > 0 && StrictWeakOrder(list.cmp) && Sorted(list.cmp, list.Keys())
  {
  }

  lemma NextKey<K>(cmp: (K, K) -> int, keys: seq<K>, i: nat, there: seq<K>)
    requires NoneEqual(cmp, keys) && i < |keys| && SameKeys(there, keys[..i])
    ensures forall k :: k in there ==> cmp(keys[i], k) != 0
    ensures PairwiseComparable(cmp, keys) ==> forall k :: k in there ==> Comparable(cmp, k, keys[i])
  {
    forall k | k in there
      ensures cmp(keys[i], k) != 0 && (PairwiseComparable(cmp, keys) ==> Comparable(cmp, k, keys[i]))
    {
      assert k in multiset(there);
      assert k in keys[..i];
    }
  }
}

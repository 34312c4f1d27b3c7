/** The concurrent protocol of src/data_structure/skip_list.h: one writer, whose Insert is a series of
    single loads and stores, and any number of lock-free readers, each a series of single loads.  Steps
    interleave freely and are sequentially consistent. */
module SkipListReaders {
  import opened Bytes
  import opened Towers
  import opened SkipList

  type Height = h: nat | 1 <= h <= MAX_HEIGHT witness 1

  /** A next_ slot: not yet written, null, or a node. */
  datatype Pointer = Unset | Nil | To(id: nat)

  datatype Cell<K> = Cell(key: K, next: seq<Pointer>)

  datatype Writer<K> =
    | Idle
    | Searching(key: K, height: Height, x: nat, level: nat, prev: seq<nat>)   // FindGreaterOrEqual, prev filled above `level`
    | Raising(key: K, height: Height, prev: seq<nat>)                         // about to store max_height_
    | Allocating(key: K, height: Height, prev: seq<nat>)
    | Linking(x: nat, prev: seq<nat>, level: nat, copied: bool)            // the last loop, before and between its two stores
    | Crashed                                                              // has read an unwritten slot

  datatype Reader<K> =
    | Reading(target: K, x: nat, level: nat)
    | Returned(target: K, result: Pointer)
    | Broken

  /** Node 0 is the head. */
  datatype State<K> = State(nodes: seq<Cell<K>>, maxHeight: Height, writer: Writer<K>, readers: map<nat, Reader<K>>)

  datatype Action<K> =
    | StartInsert(key: K, height: Height)
    | WriterStep
    | StartRead(reader: nat, target: K)
    | ReaderStep(reader: nat)

  function Init<K>(headKey: K): State<K> {
    State([Cell(headKey, seq(MAX_HEIGHT, i => Nil))], 1, Idle, map[])
  }

  datatype Glance = Advance(y: nat) | Stop(next: Pointer) | Fault

  /** One load of a node's pointer on a level and the comparison that follows it. */
  function Look<K>(cmp: (K, K) -> int, nodes: seq<Cell<K>>, target: K, x: nat, level: nat): Glance {
    if x >= |nodes| || level >= |nodes[x].next| then Fault
    else
      match nodes[x].next[level]
      case Unset => Fault
      case Nil => Stop(Nil)
      case To(y) =>
        if y >= |nodes| then Fault
        else if Less(cmp, nodes[y].key, target) then Advance(y)
        else Stop(To(y))
  }

  function ReadOn<K>(cmp: (K, K) -> int, nodes: seq<Cell<K>>, r: Reader<K>): Reader<K>
    requires r.Reading?
  {
    match Look(cmp, nodes, r.target, r.x, r.level)
    case Fault => Broken
    case Advance(y) => r.(x := y)
    case Stop(next) => if r.level == 0 then Returned(r.target, next) else r.(level := r.level - 1)
  }

  function Store<K>(nodes: seq<Cell<K>>, x: nat, level: nat, p: Pointer): seq<Cell<K>>
    requires x < |nodes| && level < |nodes[x].next|
  {
    nodes[x := nodes[x].(next := nodes[x].next[level := p])]
  }

  function WriteOn<K>(cmp: (K, K) -> int, s: State<K>): State<K> {
    match s.writer
    case Idle => s
    case Crashed => s
    case Searching(key, height, x, level, prev) =>
      (match Look(cmp, s.nodes, key, x, level)
       case Fault => s.(writer := Crashed)
       case Advance(y) => s.(writer := Searching(key, height, y, level, prev))
       case Stop(next) =>
         if level >= |prev| then s.(writer := Crashed)
         else if level == 0 then s.(writer := Raising(key, height, prev[level := x]))
         else s.(writer := Searching(key, height, x, level - 1, prev[level := x])))
    case Raising(key, height, prev) =>
      if height > s.maxHeight then
        s.(maxHeight := height, writer := Allocating(key, height, prev + seq(height - s.maxHeight, i => 0)))
      else s.(writer := Allocating(key, height, prev))
    case Allocating(key, height, prev) =>
      s.(nodes := s.nodes + [Cell(key, seq(height, i => Unset))], writer := Linking(|s.nodes|, prev, 0, false))
    case Linking(x, prev, level, copied) =>
      if x >= |s.nodes| || level >= |s.nodes[x].next| || level >= |prev| || prev[level] >= |s.nodes|
         || level >= |s.nodes[prev[level]].next| then s.(writer := Crashed)
      else if !copied then
        s.(nodes := Store(s.nodes, x, level, s.nodes[prev[level]].next[level]), writer := Linking(x, prev, level, true))
      else
        s.(nodes := Store(s.nodes, prev[level], level, To(x)),
           writer := if level + 1 == |s.nodes[x].next| then Idle else Linking(x, prev, level + 1, false))
  }

  /** The writer may start an Insert when it has none going.  Its key is any: nothing here needs the assertion
      that no listed key equals it. */
  predicate Enabled<K>(s: State<K>, a: Action<K>) {
    match a
    case StartInsert(key, height) => s.writer.Idle?
    case WriterStep => true
    case StartRead(reader, target) => true
    case ReaderStep(reader) => reader in s.readers && s.readers[reader].Reading?
  }

  function Apply<K>(cmp: (K, K) -> int, s: State<K>, a: Action<K>): State<K>
    requires a.ReaderStep? ==> a.reader in s.readers && s.readers[a.reader].Reading?
  {
    match a
    case StartInsert(key, height) =>
      s.(writer := Searching(key, height, 0, s.maxHeight - 1, seq(s.maxHeight, i => 0)))
    case WriterStep => WriteOn(cmp, s)
    case StartRead(reader, target) => s.(readers := s.readers[reader := Reading(target, 0, s.maxHeight - 1)])
    case ReaderStep(reader) => s.(readers := s.readers[reader := ReadOn(cmp, s.nodes, s.readers[reader])])
  }

  // ---------- the list a state holds ----------

  /** The nodes reached from x by following level-0 pointers. */
  function Walk<K>(nodes: seq<Cell<K>>, x: nat, steps: nat): seq<nat>
    decreases steps
  {
    if steps == 0 || x >= |nodes| || |nodes[x].next| == 0 then []
    else
      match nodes[x].next[0]
      case To(y) => [y] + Walk(nodes, y, steps - 1)
      case _ => []
  }

  /** The nodes that are linked, in list order. */
  function LinkedNodes<K>(s: State<K>): seq<nat> {
    Walk(s.nodes, 0, |s.nodes|)
  }

  // ---------- the invariant ----------

  /** `chain` lists all nodes in key order after the head, and `heights` says on how many levels each one
      is linked so far. */
  datatype Plan = Plan(chain: seq<nat>, heights: seq<nat>)

  function PointerAt(chain: seq<nat>, m: nat): Pointer {
    if m < |chain| then To(chain[m]) else Nil
  }

  predicate InRange<K>(nodes: seq<Cell<K>>, p: Plan) {
    |p.chain| == |p.heights| && p.chain != [] && forall i :: 0 <= i < |p.chain| ==> p.chain[i] < |nodes|
  }

  function ChainKeys<K>(nodes: seq<Cell<K>>, p: Plan): (keys: seq<K>)
    requires InRange(nodes, p)
    ensures |keys| == |p.chain| - 1
  {
    seq(|p.chain| - 1, i requires 0 <= i < |p.chain| - 1 => nodes[p.chain[i + 1]].key)
  }

  ghost predicate Shaped<K>(nodes: seq<Cell<K>>, maxHeight: nat, p: Plan) {
    && InRange(nodes, p) && |p.chain| == |nodes| && p.chain[0] == 0 && Distinct(p.chain)
    && 1 <= maxHeight <= MAX_HEIGHT && p.heights[0] == |nodes[0].next| == MAX_HEIGHT
    && (forall j :: 0 < j < |p.chain| ==> p.heights[j] <= |nodes[p.chain[j]].next| <= maxHeight)
  }

  /** A slot on which a node is linked leads to the next node of that level. */
  ghost predicate WiredAt<K>(nodes: seq<Cell<K>>, p: Plan, j: nat, l: nat)
    requires InRange(nodes, p) && j < |p.chain|
  {
    l < |nodes[p.chain[j]].next| && nodes[p.chain[j]].next[l] == PointerAt(p.chain, Link(p.heights, l, j))
  }

  ghost predicate Wired<K>(nodes: seq<Cell<K>>, p: Plan)
    requires InRange(nodes, p)
  {
    forall j: nat, l: nat :: j < |p.chain| && l < p.heights[j] ==> WiredAt(nodes, p, j, l)
  }

  ghost predicate ListInv<K(!new)>(cmp: (K, K) -> int, s: State<K>, p: Plan) {
    && StrictWeakOrder(cmp)
    && Shaped(s.nodes, s.maxHeight, p) && Wired(s.nodes, p)
    && Sorted(cmp, ChainKeys(s.nodes, p))
  }

  /** A search for the target stands on x, on a level on which x is linked. */
  ghost predicate Standing<K>(cmp: (K, K) -> int, nodes: seq<Cell<K>>, p: Plan, target: K, x: nat, level: nat, c: nat)
    requires InRange(nodes, p)
  {
    c < |p.chain| && p.chain[c] == x && p.heights[c] > level && (c == 0 || Less(cmp, nodes[x].key, target))
  }

  ghost predicate ReadersInv<K(!new)>(cmp: (K, K) -> int, s: State<K>, p: Plan)
    requires InRange(s.nodes, p)
  {
    forall r :: r in s.readers ==>
      match s.readers[r]
      case Reading(target, x, level) => exists c: nat :: Standing(cmp, s.nodes, p, target, x, level, c)
      case Returned(target, result) => true
      case Broken => false
  }

  /** Position in the chain of the first node not less than the target. */
  ghost function Place<K>(cmp: (K, K) -> int, nodes: seq<Cell<K>>, p: Plan, target: K): (q: nat)
    requires InRange(nodes, p)
    ensures 1 <= q <= |p.chain|
  {
    Rank(cmp, ChainKeys(nodes, p), target) + 1
  }

  /** All towers are linked on all their levels, except possibly the one at position `except`. */
  ghost predicate CompleteBut<K>(nodes: seq<Cell<K>>, p: Plan, except: nat)
    requires InRange(nodes, p)
  {
    forall j :: 0 <= j < |p.chain| && j != except ==> p.heights[j] == |nodes[p.chain[j]].next| >= 1
  }

  /** An insertion of this height is under way, and all towers are linked. */
  ghost predicate Insertable<K>(nodes: seq<Cell<K>>, p: Plan, height: nat)
    requires InRange(nodes, p)
  {
    1 <= height <= MAX_HEIGHT && CompleteBut(nodes, p, |p.chain|)
  }

  /** `at` are the positions of the nodes in the writer's `prev`. */
  ghost predicate WriterInv<K(!new)>(cmp: (K, K) -> int, s: State<K>, p: Plan, at: seq<nat>)
    requires InRange(s.nodes, p)
  {
    match s.writer
    case Idle => CompleteBut(s.nodes, p, |p.chain|)
    case Crashed => false
    case Searching(key, height, x, level, prev) =>
      && Insertable(s.nodes, p, height) && level < s.maxHeight == |prev|
      && (exists c: nat :: Standing(cmp, s.nodes, p, key, x, level, c))
      && AllFound(p.heights, at, level + 1, Place(cmp, s.nodes, p, key)) && Recorded(prev, p.chain, at, level + 1)
    case Raising(key, height, prev) =>
      && Insertable(s.nodes, p, height) && |prev| == s.maxHeight
      && AllFound(p.heights, at, 0, Place(cmp, s.nodes, p, key)) && Recorded(prev, p.chain, at, 0)
    case Allocating(key, height, prev) =>
      && Insertable(s.nodes, p, height) && |prev| == s.maxHeight >= height
      && AllFound(p.heights, at, 0, Place(cmp, s.nodes, p, key)) && Recorded(prev, p.chain, at, 0)
    case Linking(x, prev, level, copied) =>
      exists q: nat :: Building(s, p, at, q)
  }

  /** The new node stands at position q and is linked on the levels below `level`. */
  ghost predicate Building<K>(s: State<K>, p: Plan, at: seq<nat>, q: nat)
    requires InRange(s.nodes, p) && s.writer.Linking?
  {
    var Linking(x, prev, level, copied) := s.writer;
    && 0 < q < |p.chain| && p.chain[q] == x && p.heights[q] == level < |s.nodes[x].next| <= |prev|
    && CompleteBut(s.nodes, p, q)
    && Places(p.chain, p.heights, prev, at, level, q)
    && (copied ==> at[level] < |p.chain| && s.nodes[x].next[level] == PointerAt(p.chain, Link(p.heights, level, at[level])))
  }

  ghost predicate Inv<K(!new)>(cmp: (K, K) -> int, s: State<K>, p: Plan, at: seq<nat>) {
    ListInv(cmp, s, p) && ReadersInv(cmp, s, p) && WriterInv(cmp, s, p, at)
  }

  // ---------- one look ahead ----------

  /** A search that stands on a linked node never reads an unwritten slot, and sees the next node of the level. */
  lemma LookSees<K(!new)>(cmp: (K, K) -> int, s: State<K>, p: Plan, target: K, x: nat, level: nat, c: nat) returns (m: nat)
    requires ListInv(cmp, s, p) && Standing(cmp, s.nodes, p, target, x, level, c)
    ensures c < m <= |p.chain| && m == Link(p.heights, level, c) && c < Place(cmp, s.nodes, p, target)
    ensures m < Place(cmp, s.nodes, p, target) ==>
      && m < |p.chain| && Look(cmp, s.nodes, target, x, level) == Advance(p.chain[m]) && Standing(cmp, s.nodes, p, target, p.chain[m], level, m)
    ensures m >= Place(cmp, s.nodes, p, target) ==> Look(cmp, s.nodes, target, x, level) == Stop(PointerAt(p.chain, m))
  {
    hide StrictWeakOrder, Sorted, Link, Distinct, Less;
    m := Link(p.heights, level, c);
    assert WiredAt(s.nodes, p, c, level);
    KeyPlace(cmp, s, p, target, c);
    KeyPlace(cmp, s, p, target, m);
  }

  lemma KeyPlace<K(!new)>(cmp: (K, K) -> int, s: State<K>, p: Plan, target: K, j: nat)
    requires ListInv(cmp, s, p)
    ensures 0 < j < |p.chain| ==> (Less(cmp, s.nodes[p.chain[j]].key, target) <==> j < Place(cmp, s.nodes, p, target))
  {
    hide StrictWeakOrder, Sorted, Wired;
    if 0 < j < |p.chain| {
      RankSplits(cmp, ChainKeys(s.nodes, p), target, j - 1);
    }
  }

  // ---------- readers through the steps ----------

  /** Position c has moved to Moved(c, q): its node is there, as tall or taller, with its key. */
  ghost predicate Grown<K>(nodes: seq<Cell<K>>, p: Plan, nodes': seq<Cell<K>>, p': Plan, q: nat)
    requires InRange(nodes, p) && InRange(nodes', p')
  {
    0 < q && forall c {:trigger p.chain[c]} {:trigger Moved(c, q)} :: 0 <= c < |p.chain| ==>
      && Moved(c, q) < |p'.chain| && p'.chain[Moved(c, q)] == p.chain[c] && p'.heights[Moved(c, q)] >= p.heights[c]
      && p.chain[c] < |nodes'| && nodes'[p.chain[c]].key == nodes[p.chain[c]].key
  }

  lemma ReadersKeep<K(!new)>(cmp: (K, K) -> int, s: State<K>, p: Plan, s': State<K>, p': Plan, q: nat)
    requires InRange(s.nodes, p) && InRange(s'.nodes, p') && ReadersInv(cmp, s, p)
    requires Grown(s.nodes, p, s'.nodes, p', q) && s'.readers == s.readers
    ensures ReadersInv(cmp, s', p')
  {
    forall r | r in s.readers && s.readers[r].Reading?
      ensures exists c: nat :: Standing(cmp, s'.nodes, p', s.readers[r].target, s.readers[r].x, s.readers[r].level, c)
    {
      var Reading(target, x, level) := s.readers[r];
      var c: nat :| Standing(cmp, s.nodes, p, target, x, level, c);
      assert Standing(cmp, s'.nodes, p', target, x, level, Moved(c, q));
    }
  }

  /** A reader's load keeps the invariant. */
  lemma ReaderStepKeeps<K(!new)>(cmp: (K, K) -> int, s: State<K>, p: Plan, at: seq<nat>, r: nat)
    requires Inv(cmp, s, p, at) && r in s.readers && s.readers[r].Reading?
    ensures Inv(cmp, Apply(cmp, s, ReaderStep(r)), p, at)
  {
    assert InRange(s.nodes, p);
    hide ListInv, WriterInv, Place, Standing, Look;
    var Reading(target, x, level) := s.readers[r];
    var c: nat :| Standing(cmp, s.nodes, p, target, x, level, c);
    var m := LookSees(cmp, s, p, target, x, level, c);
    var s' := Apply(cmp, s, ReaderStep(r));
    if s'.readers[r].Reading? && s'.readers[r].level < level {
      StandLower(cmp, s.nodes, p, target, x, level, c);
    }
    SameList(cmp, s, s', p, at);
  }

  lemma StandLower<K>(cmp: (K, K) -> int, nodes: seq<Cell<K>>, p: Plan, target: K, x: nat, level: nat, c: nat)
    requires InRange(nodes, p) && Standing(cmp, nodes, p, target, x, level, c) && level > 0
    ensures Standing(cmp, nodes, p, target, x, level - 1, c)
  {
  }

  lemma SameList<K(!new)>(cmp: (K, K) -> int, s: State<K>, s': State<K>, p: Plan, at: seq<nat>)
    requires ListInv(cmp, s, p) && WriterInv(cmp, s, p, at)
    requires s' == s.(readers := s'.readers)
    ensures ListInv(cmp, s', p) && WriterInv(cmp, s', p, at)
  {
    assert InRange(s.nodes, p);
    hide Wired, Shaped, Sorted, StrictWeakOrder, Building;
    if s.writer.Linking? {
      var q: nat :| Building(s, p, at, q);
      SameBuilding(s, s', p, at, q);
    }
  }

  lemma SameBuilding<K>(s: State<K>, s': State<K>, p: Plan, at: seq<nat>, q: nat)
    requires InRange(s.nodes, p) && s.writer.Linking? && Building(s, p, at, q)
    requires s'.nodes == s.nodes && s'.writer == s.writer
    ensures Building(s', p, at, q)
  {
  }

  /** Starting at the head, on the top level in use. */
  lemma StandAtHead<K>(cmp: (K, K) -> int, nodes: seq<Cell<K>>, maxHeight: nat, p: Plan, target: K)
    requires Shaped(nodes, maxHeight, p)
    ensures Standing(cmp, nodes, p, target, 0, maxHeight - 1, 0)
  {
  }

  lemma StartReadKeeps<K(!new)>(cmp: (K, K) -> int, s: State<K>, p: Plan, at: seq<nat>, r: nat, target: K)
    requires Inv(cmp, s, p, at)
    ensures Inv(cmp, Apply(cmp, s, StartRead(r, target)), p, at)
  {
    hide WriterInv, Standing, Wired, Sorted, StrictWeakOrder;
    StandAtHead(cmp, s.nodes, s.maxHeight, p, target);
    SameList(cmp, s, Apply(cmp, s, StartRead(r, target)), p, at);
  }

  // ---------- the writer's steps ----------

  lemma StartInsertKeeps<K(!new)>(cmp: (K, K) -> int, s: State<K>, p: Plan, at: seq<nat>, key: K,
                           height: Height) returns (at': seq<nat>)
    requires Inv(cmp, s, p, at) && Enabled(s, StartInsert(key, height))
    ensures Inv(cmp, Apply(cmp, s, StartInsert(key, height)), p, at')
  {
    hide Standing, Wired, Sorted, StrictWeakOrder, AllFound, Recorded, ReadersInv, CompleteBut;
    var s' := Apply(cmp, s, StartInsert(key, height));
    at' := seq(s.maxHeight, i => 0);
    StandAtHead(cmp, s.nodes, s.maxHeight, p, key);
    NothingFoundYet(p.heights, at', Place(cmp, s.nodes, p, key), s'.writer.prev, p.chain);
    SameReaders(cmp, s, s', p);
  }

  lemma SameReaders<K(!new)>(cmp: (K, K) -> int, s: State<K>, s': State<K>, p: Plan)
    requires InRange(s.nodes, p) && ReadersInv(cmp, s, p) && s'.nodes == s.nodes && s'.readers == s.readers
    ensures ReadersInv(cmp, s', p)
  {
    hide Standing;
  }

  lemma SearchStepKeeps<K(!new)>(cmp: (K, K) -> int, s: State<K>, p: Plan, at: seq<nat>) returns (at': seq<nat>)
    requires Inv(cmp, s, p, at) && s.writer.Searching?
    ensures Inv(cmp, WriteOn(cmp, s), p, at') && WriteOn(cmp, s).nodes == s.nodes
  {
    assert InRange(s.nodes, p);
    var s' := WriteOn(cmp, s);
    var Searching(key, height, x, level, prev) := s.writer;
    var c: nat :| Standing(cmp, s.nodes, p, key, x, level, c);
    at' := at;
    hide ListInv, ReadersInv, Place, Standing, Look, AllFound, Recorded, Insertable, Link, InRange;
    var m := LookSees(cmp, s, p, key, x, level, c);
    if m >= Place(cmp, s.nodes, p, key) {
      at' := SearchDown(cmp, s, p, at, c, m);
    }
    SameReaders(cmp, s, s', p);
    WriterOnly(cmp, s, s', p);
  }

  /** The writer's search goes down a level, recording the node it stands on. */
  lemma SearchDown<K(!new)>(cmp: (K, K) -> int, s: State<K>, p: Plan, at: seq<nat>, c: nat, m: nat) returns (at': seq<nat>)
    requires InRange(s.nodes, p) && s.writer.Searching? && WriterInv(cmp, s, p, at)
    requires var Searching(key, height, x, level, prev) := s.writer;
      && Standing(cmp, s.nodes, p, key, x, level, c) && m == Link(p.heights, level, c)
      && c < Place(cmp, s.nodes, p, key) <= m && Look(cmp, s.nodes, key, x, level) == Stop(PointerAt(p.chain, m))
    ensures WriterInv(cmp, WriteOn(cmp, s), p, at')
  {
    var Searching(key, height, x, level, prev) := s.writer;
    hide Place, Standing, Look, AllFound, Recorded, Insertable, Link, PointerAt;
    RecordedLength(prev, p.chain, at, level + 1);
    StandingFacts(cmp, s.nodes, p, key, x, level, c);
    at' := at[level := c];
    GoDown(p.heights, at, level, c, Place(cmp, s.nodes, p, key), m);
    GoDownRecorded(prev, p.chain, at, level, c);
    if level > 0 {
      StandLower(cmp, s.nodes, p, key, x, level, c);
    }
  }

  lemma RecordedLength<T>(prev: seq<T>, row: seq<T>, at: seq<nat>, from: nat)
    requires Recorded(prev, row, at, from)
    ensures |at| == |prev|
  {
  }

  lemma StandingFacts<K>(cmp: (K, K) -> int, nodes: seq<Cell<K>>, p: Plan, target: K, x: nat, level: nat, c: nat)
    requires InRange(nodes, p) && Standing(cmp, nodes, p, target, x, level, c)
    ensures c < |p.chain| && x == p.chain[c] && p.heights[c] > level
  {
  }

  lemma WriterOnly<K(!new)>(cmp: (K, K) -> int, s: State<K>, s': State<K>, p: Plan)
    requires ListInv(cmp, s, p) && s' == s.(writer := s'.writer)
    ensures ListInv(cmp, s', p)
  {
    hide Wired, Shaped, Sorted, StrictWeakOrder;
  }

  lemma RaiseKeeps<K(!new)>(cmp: (K, K) -> int, s: State<K>, p: Plan, at: seq<nat>) returns (at': seq<nat>)
    requires Inv(cmp, s, p, at) && s.writer.Raising?
    ensures Inv(cmp, WriteOn(cmp, s), p, at') && WriteOn(cmp, s).nodes == s.nodes
  {
    assert InRange(s.nodes, p);
    var s' := WriteOn(cmp, s);
    var Raising(key, height, prev) := s.writer;
    var place := Place(cmp, s.nodes, p, key);
    at' := at;
    hide StrictWeakOrder, Sorted, Wired, Place, AllFound, Recorded, Insertable, ReadersInv, Standing, Link;
    RecordedLength(prev, p.chain, at, 0);
    SameReaders(cmp, s, s', p);
    if height > s.maxHeight {
      HeadsAbove(s.nodes, s.maxHeight, p, place, prev, at, height);
      at' := at + seq(height - s.maxHeight, i => 0);
    }
  }

  /** Above the height in use only the head comes before the new node. */
  lemma {:induction false} HeadsAbove<K>(nodes: seq<Cell<K>>, maxHeight: nat, p: Plan, place: nat, prev: seq<nat>,
                                         at: seq<nat>, height: nat)
    requires Shaped(nodes, maxHeight, p) && 0 < place <= |p.chain|
    requires maxHeight <= |prev| == |at| <= height <= MAX_HEIGHT
    requires AllFound(p.heights, at, 0, place) && Recorded(prev, p.chain, at, 0)
    ensures var more: seq<nat> := seq(height - |prev|, i => 0);
      AllFound(p.heights, at + more, 0, place) && Recorded(prev + more, p.chain, at + more, 0)
    decreases height - |prev|
  {
    hide Link, AllFound, Recorded, Distinct;
    var more: seq<nat> := seq(height - |prev|, i => 0);
    if |prev| == height {
      assert at + more == at && prev + more == prev;
    } else {
      LinkIs(p.heights, |at|, 0, |p.chain|);
      SearchGrows(p.heights, at, place, prev, p.chain, 0);
      HeadsAbove(nodes, maxHeight, p, place, prev + [0], at + [0], height);
      var rest: seq<nat> := seq(height - (|prev| + 1), i => 0);
      assert more == [0] + rest;
      assert at + more == at + [0] + rest && prev + more == prev + [0] + rest;
    }
  }

  /** The keys of all nodes, in chain order, after a step of the writer: only the allocation adds one, at its rank. */
  function KeysAfter<K>(cmp: (K, K) -> int, s: State<K>, keys: seq<K>): seq<K> {
    if s.writer.Allocating? then InsertAt(keys, Rank(cmp, keys, s.writer.key), s.writer.key) else keys
  }

  /** The plan once the new node, linked nowhere yet, is counted in at its place. */
  function Allocated<K>(nodes: seq<Cell<K>>, p: Plan, q: nat): (p': Plan)
    requires q <= |p.chain| == |p.heights|
  {
    Plan(InsertAt<nat>(p.chain, q, |nodes|), InsertAt(p.heights, q, 0))
  }

  lemma AllocateKeeps<K(!new)>(cmp: (K, K) -> int, s: State<K>, p: Plan, at: seq<nat>) returns (p': Plan, q: nat)
    requires Inv(cmp, s, p, at) && s.writer.Allocating?
    ensures Inv(cmp, WriteOn(cmp, s), p', at)
    ensures InRange(s.nodes, p) && InRange(WriteOn(cmp, s).nodes, p') && Grown(s.nodes, p, WriteOn(cmp, s).nodes, p', q)
    ensures ChainKeys(WriteOn(cmp, s).nodes, p') == KeysAfter(cmp, s, ChainKeys(s.nodes, p))
  {
    assert InRange(s.nodes, p);
    q := Place(cmp, s.nodes, p, s.writer.key);
    p' := Allocated(s.nodes, p, q);
    AllocatedKeys(s.nodes, p, q, Cell(s.writer.key, seq(s.writer.height, i => Unset)));
    AllocatedBuilding(cmp, s, p, at, q);
    hide WriterInv, ReadersInv, Building, Grown, Allocated, WriteOn;
    AllocatedList(cmp, s, p, at);
    hide ListInv, InRange;
    ReadersKeep(cmp, s, p, WriteOn(cmp, s), p', q);
  }

  lemma AllocatedList<K(!new)>(cmp: (K, K) -> int, s: State<K>, p: Plan, at: seq<nat>)
    requires ListInv(cmp, s, p) && s.writer.Allocating? && WriterInv(cmp, s, p, at)
    ensures var q, s' := Place(cmp, s.nodes, p, s.writer.key), WriteOn(cmp, s); var p' := Allocated(s.nodes, p, q);
      ListInv(cmp, s', p') && Grown(s.nodes, p, s'.nodes, p', q) && s'.readers == s.readers
  {
    var q := Place(cmp, s.nodes, p, s.writer.key);
    var cell := Cell(s.writer.key, seq(s.writer.height, i => Unset));
    hide Place, AllFound, Recorded, Distinct, Sorted, StrictWeakOrder, Wired, Shaped, Grown, ChainKeys,
         CompleteBut, Allocated;
    AllocatedGrows(s.nodes, s.maxHeight, p, q, cell);
    AllocatedWired(s.nodes, p, q, cell);
    AllocatedSorted(cmp, s.nodes, p, q, cell);
  }

  lemma AllocatedGrows<K>(nodes: seq<Cell<K>>, maxHeight: nat, p: Plan, q: nat, cell: Cell<K>)
    requires Shaped(nodes, maxHeight, p) && 0 < q <= |p.chain| && 1 <= |cell.next| <= maxHeight
    ensures var p' := Allocated(nodes, p, q);
      Shaped(nodes + [cell], maxHeight, p') && Grown(nodes, p, nodes + [cell], p', q)
  {
    AllocatedInRange(nodes, maxHeight, p, q, cell);
    hide Shaped, Distinct, InsertAt;
    var p' := Allocated(nodes, p, q);
    assert InRange(nodes, p) by { ShapedInRange(nodes, maxHeight, p); }
    forall c | 0 <= c < |p.chain| ensures
      && Moved(c, q) < |p'.chain| && p'.chain[Moved(c, q)] == p.chain[c] && p'.heights[Moved(c, q)] >= p.heights[c]
      && p.chain[c] < |nodes + [cell]| && (nodes + [cell])[p.chain[c]].key == nodes[p.chain[c]].key
    {
      MovedElement(p.chain, q, |nodes|, c);
      MovedElement(p.heights, q, 0, c);
    }
  }

  lemma ShapedInRange<K>(nodes: seq<Cell<K>>, maxHeight: nat, p: Plan)
    requires Shaped(nodes, maxHeight, p)
    ensures InRange(nodes, p)
  {
  }

  lemma MovedElement<T>(s: seq<T>, q: nat, x: T, c: nat)
    requires q <= |s| && c < |s|
    ensures |InsertAt(s, q, x)| == |s| + 1 && InsertAt(s, q, x)[Moved(c, q)] == s[c]
  {
  }

  lemma AllocatedInRange<K>(nodes: seq<Cell<K>>, maxHeight: nat, p: Plan, q: nat, cell: Cell<K>)
    requires Shaped(nodes, maxHeight, p) && 0 < q <= |p.chain| && 1 <= |cell.next| <= maxHeight
    ensures var p' := Allocated(nodes, p, q);
      Shaped(nodes + [cell], maxHeight, p')
  {
    DistinctInserted<nat>(p.chain, q, |nodes|);
    hide Distinct;
  }

  lemma AllocatedWired<K>(nodes: seq<Cell<K>>, p: Plan, q: nat, cell: Cell<K>)
    requires InRange(nodes, p) && Wired(nodes, p) && 0 < q <= |p.chain|
    ensures var p' := Allocated(nodes, p, q);
      InRange(nodes + [cell], p') && Wired(nodes + [cell], p')
  {
    hide Link, PointerAt;
    var x: nat := |nodes|;
    var p' := Allocated(nodes, p, q);
    var nodes' := nodes + [cell];
    assert InRange(nodes', p');
    forall j: nat, l: nat | j < |p'.chain| && l < p'.heights[j] ensures WiredAt(nodes', p', j, l)
    {
      var k := if j < q then j else j - 1;
      InsertFlat(p.heights, l, k, q);
      assert WiredAt(nodes, p, k, l);
      PointerMoves(p.chain, q, x, Link(p.heights, l, k));
    }
  }

  lemma PointerMoves(chain: seq<nat>, q: nat, x: nat, m: nat)
    requires q <= |chain| && m <= |chain|
    ensures PointerAt(InsertAt(chain, q, x), Moved(m, q)) == PointerAt(chain, m)
  {
  }

  lemma AllocatedSorted<K(!new)>(cmp: (K, K) -> int, nodes: seq<Cell<K>>, p: Plan, q: nat, cell: Cell<K>)
    requires InRange(nodes, p) && StrictWeakOrder(cmp) && Sorted(cmp, ChainKeys(nodes, p))
    requires q == Place(cmp, nodes, p, cell.key)
    ensures var p' := Allocated(nodes, p, q);
      InRange(nodes + [cell], p') && Sorted(cmp, ChainKeys(nodes + [cell], p'))
  {
    var p' := Allocated(nodes, p, q);
    InsertKeepsSorted(cmp, ChainKeys(nodes, p), cell.key);
    hide StrictWeakOrder, Sorted, Less, InsertAt, ChainKeys, Allocated, InRange;
    AllocatedKeys(nodes, p, q, cell);
  }

  lemma AllocatedKeys<K>(nodes: seq<Cell<K>>, p: Plan, q: nat, cell: Cell<K>)
    requires InRange(nodes, p) && 0 < q <= |p.chain|
    ensures var p' := Allocated(nodes, p, q);
      InRange(nodes + [cell], p') && ChainKeys(nodes + [cell], p') == InsertAt(ChainKeys(nodes, p), q - 1, cell.key)
  {
  }

  lemma AllocatedBuilding<K(!new)>(cmp: (K, K) -> int, s: State<K>, p: Plan, at: seq<nat>, q: nat)
    requires InRange(s.nodes, p) && s.writer.Allocating? && WriterInv(cmp, s, p, at)
    requires q == Place(cmp, s.nodes, p, s.writer.key)
    ensures var p' := Allocated(s.nodes, p, q);
      InRange(WriteOn(cmp, s).nodes, p') && Building(WriteOn(cmp, s), p', at, q)
  {
    hide Link, Place, AllFound, Recorded;
    RecordedLength(s.writer.prev, p.chain, at, 0);
    PlacesKept<nat>(p.chain, p.heights, s.writer.prev, at, q, |s.nodes|);
    hide Places;
    var p' := Allocated(s.nodes, p, q);
    var s' := WriteOn(cmp, s);
    forall j | 0 <= j < |p'.chain| && j != q ensures p'.heights[j] == |s'.nodes[p'.chain[j]].next| >= 1 {
      var k := if j < q then j else j - 1;
      assert p'.chain[j] == p.chain[k] && p'.heights[j] == p.heights[k];
    }
  }

  lemma BuildingFacts<K>(s: State<K>, p: Plan, at: seq<nat>, q: nat)
    requires InRange(s.nodes, p) && s.writer.Linking? && Building(s, p, at, q) && Distinct(p.chain)
    ensures var Linking(x, prev, level, copied) := s.writer;
      && q < |p.chain| && p.chain[q] == x < |s.nodes| && p.heights[q] == level < |s.nodes[x].next| && level < |prev| == |at|
      && at[level] < q < Link(p.heights, level, at[level]) && p.heights[at[level]] > level
      && prev[level] == p.chain[at[level]] && prev[level] != x
  {
    hide Link, CompleteBut;
  }

  /** The first of the two stores of a level: the new node's own slot, which no search reads yet. */
  lemma CopyKeeps<K(!new)>(cmp: (K, K) -> int, s: State<K>, p: Plan, at: seq<nat>)
    requires Inv(cmp, s, p, at) && s.writer.Linking? && !s.writer.copied
    ensures Inv(cmp, WriteOn(cmp, s), p, at)
    ensures InRange(s.nodes, p) && InRange(WriteOn(cmp, s).nodes, p) && Grown(s.nodes, p, WriteOn(cmp, s).nodes, p, |p.chain|)
    ensures ChainKeys(WriteOn(cmp, s).nodes, p) == ChainKeys(s.nodes, p)
  {
    hide Inv, ReadersInv, Building, WriterInv, Grown, ChainKeys;
    var q := LinkingFacts(cmp, s, p, at);
    CopyList(cmp, s, p, at, q);
    hide ListInv, InRange, Distinct, Wired, WriteOn;
    CopyBuilding(cmp, s, p, at, q);
    ReadersKeep(cmp, s, p, WriteOn(cmp, s), p, |p.chain|);
    InvFrom(cmp, WriteOn(cmp, s), p, at);
  }

  lemma CopyList<K(!new)>(cmp: (K, K) -> int, s: State<K>, p: Plan, at: seq<nat>, q: nat)
    requires ListInv(cmp, s, p) && s.writer.Linking? && !s.writer.copied && Building(s, p, at, q)
    ensures var s' := WriteOn(cmp, s); ListInv(cmp, s', p) && s'.readers == s.readers && Grown(s.nodes, p, s'.nodes, p, |p.chain|)
    ensures ChainKeys(WriteOn(cmp, s).nodes, p) == ChainKeys(s.nodes, p)
  {
    var Linking(x, prev, level, copied) := s.writer;
    var s' := WriteOn(cmp, s);
    BuildingFacts(s, p, at, q);
    assert WiredAt(s.nodes, p, at[level], level);
    hide Link, StrictWeakOrder, Sorted, Places, Distinct, Building, ChainKeys;
    StoreKeepsShape(cmp, s, s', p, x, level);
    CopyWired(s.nodes, p, q, level, s.nodes[prev[level]].next[level]);
  }

  lemma CopyWired<K>(nodes: seq<Cell<K>>, p: Plan, q: nat, level: nat, v: Pointer)
    requires InRange(nodes, p) && Wired(nodes, p) && Distinct(p.chain)
    requires q < |p.chain| && p.heights[q] == level < |nodes[p.chain[q]].next|
    ensures InRange(Store(nodes, p.chain[q], level, v), p) && Wired(Store(nodes, p.chain[q], level, v), p)
  {
    var nodes' := Store(nodes, p.chain[q], level, v);
    assert InRange(nodes', p);
    forall j: nat, l: nat | j < |p.chain| && l < p.heights[j] ensures WiredAt(nodes', p, j, l)
    {
      assert j != q ==> p.chain[j] != p.chain[q];
      assert WiredAt(nodes, p, j, l);
    }
  }

  lemma CopyBuilding<K(!new)>(cmp: (K, K) -> int, s: State<K>, p: Plan, at: seq<nat>, q: nat)
    requires InRange(s.nodes, p) && s.writer.Linking? && !s.writer.copied && Building(s, p, at, q)
    requires Distinct(p.chain) && Wired(s.nodes, p)
    ensures InRange(WriteOn(cmp, s).nodes, p) && WriterInv(cmp, WriteOn(cmp, s), p, at)
  {
    BuildingFacts(s, p, at, q);
    assert WiredAt(s.nodes, p, at[s.writer.level], s.writer.level);
    hide Link, Places;
    assert Building(WriteOn(cmp, s), p, at, q);
  }

  lemma StoreKeepsShape<K(!new)>(cmp: (K, K) -> int, s: State<K>, s': State<K>, p: Plan, x: nat, level: nat)
    requires Shaped(s.nodes, s.maxHeight, p) && Sorted(cmp, ChainKeys(s.nodes, p))
    requires x < |s.nodes| && level < |s.nodes[x].next| && s'.maxHeight == s.maxHeight
    requires exists v :: s'.nodes == Store(s.nodes, x, level, v)
    ensures Shaped(s'.nodes, s'.maxHeight, p) && Sorted(cmp, ChainKeys(s'.nodes, p))
    ensures ChainKeys(s'.nodes, p) == ChainKeys(s.nodes, p)
    ensures Grown(s.nodes, p, s'.nodes, p, |p.chain|)
  {
    hide Sorted, Distinct;
    assert ChainKeys(s'.nodes, p) == ChainKeys(s.nodes, p);
  }

  lemma LinkingFacts<K(!new)>(cmp: (K, K) -> int, s: State<K>, p: Plan, at: seq<nat>) returns (q: nat)
    requires Inv(cmp, s, p, at) && s.writer.Linking?
    ensures InRange(s.nodes, p) && Building(s, p, at, q) && q < |p.heights| && Distinct(p.chain) && Wired(s.nodes, p)
    ensures ListInv(cmp, s, p) && ReadersInv(cmp, s, p)
  {
    hide StrictWeakOrder, Sorted, Distinct, Wired, ReadersInv;
    q :| Building(s, p, at, q);
  }

  lemma InvFrom<K(!new)>(cmp: (K, K) -> int, s: State<K>, p: Plan, at: seq<nat>)
    requires ListInv(cmp, s, p) && InRange(s.nodes, p) && ReadersInv(cmp, s, p) && WriterInv(cmp, s, p, at)
    ensures Inv(cmp, s, p, at)
  {
  }

  /** The second store publishes the new node on the level: `prev` now leads to it. */
  lemma PublishKeeps<K(!new)>(cmp: (K, K) -> int, s: State<K>, p: Plan, at: seq<nat>) returns (p': Plan)
    requires Inv(cmp, s, p, at) && s.writer.Linking? && s.writer.copied
    ensures Inv(cmp, WriteOn(cmp, s), p', at)
    ensures InRange(s.nodes, p) && InRange(WriteOn(cmp, s).nodes, p') && Grown(s.nodes, p, WriteOn(cmp, s).nodes, p', |p.chain|)
    ensures ChainKeys(WriteOn(cmp, s).nodes, p') == ChainKeys(s.nodes, p)
  {
    hide ChainKeys, Inv, ListInv, InRange, WriteOn, ReadersInv, Distinct, Building, WriterInv, Wired, Grown;
    var q := LinkingFacts(cmp, s, p, at);
    p' := p.(heights := p.heights[q := s.writer.level + 1]);
    PublishBuilding(cmp, s, p, at, q);
    PublishList(cmp, s, p, at, q);
    ReadersKeep(cmp, s, p, WriteOn(cmp, s), p', |p.chain|);
    InvFrom(cmp, WriteOn(cmp, s), p', at);
  }

  lemma PublishStore<K(!new)>(cmp: (K, K) -> int, s: State<K>, p: Plan, at: seq<nat>, q: nat)
    requires InRange(s.nodes, p) && Distinct(p.chain) && Wired(s.nodes, p)
    requires s.writer.Linking? && s.writer.copied && Building(s, p, at, q)
    ensures var Linking(x, prev, level, _) := s.writer;
      && level < |prev| == |at| && at[level] < |p.chain| && prev[level] == p.chain[at[level]]
      && level < |s.nodes[prev[level]].next|
      && WriteOn(cmp, s) == s.(nodes := Store(s.nodes, prev[level], level, To(x)), writer := WriteOn(cmp, s).writer)
  {
    BuildingFacts(s, p, at, q);
    assert WiredAt(s.nodes, p, at[s.writer.level], s.writer.level);
    hide Link, Places, Distinct, CompleteBut;
  }

  lemma PublishList<K(!new)>(cmp: (K, K) -> int, s: State<K>, p: Plan, at: seq<nat>, q: nat)
    requires ListInv(cmp, s, p) && s.writer.Linking? && s.writer.copied && Building(s, p, at, q)
    ensures var p', s' := p.(heights := p.heights[q := s.writer.level + 1]), WriteOn(cmp, s);
      && ListInv(cmp, s', p') && s'.readers == s.readers && Grown(s.nodes, p, s'.nodes, p', |p.chain|)
      && ChainKeys(s'.nodes, p') == ChainKeys(s.nodes, p)
  {
    PublishStore(cmp, s, p, at, q);
    BuildingFacts(s, p, at, q);
    hide StrictWeakOrder, Sorted, Distinct, ChainKeys, WriteOn, Wired, Grown, Building, Shaped;
    PublishListWired(cmp, s, p, at, q);
    PublishListShape(cmp, s, p, at, q);
  }

  lemma PublishListWired<K(!new)>(cmp: (K, K) -> int, s: State<K>, p: Plan, at: seq<nat>, q: nat)
    requires ListInv(cmp, s, p) && s.writer.Linking? && s.writer.copied && Building(s, p, at, q)
    ensures var p', s' := p.(heights := p.heights[q := s.writer.level + 1]), WriteOn(cmp, s);
      InRange(s'.nodes, p') && Wired(s'.nodes, p')
  {
    PublishStore(cmp, s, p, at, q);
    BuildingFacts(s, p, at, q);
    hide StrictWeakOrder, Sorted, Places, Distinct, ChainKeys, CompleteBut, WriteOn, Wired, Link;
    PublishWired(s.nodes, p, q, s.writer.level, at[s.writer.level]);
  }

  lemma ListShaped<K(!new)>(cmp: (K, K) -> int, s: State<K>, p: Plan)
    requires ListInv(cmp, s, p)
    ensures InRange(s.nodes, p) && Shaped(s.nodes, s.maxHeight, p) && Sorted(cmp, ChainKeys(s.nodes, p)) && p.heights != []
  {
  }

  lemma PublishListShape<K(!new)>(cmp: (K, K) -> int, s: State<K>, p: Plan, at: seq<nat>, q: nat)
    requires ListInv(cmp, s, p) && s.writer.Linking? && s.writer.copied && Building(s, p, at, q)
    ensures var p', s' := p.(heights := p.heights[q := s.writer.level + 1]), WriteOn(cmp, s);
      && Shaped(s'.nodes, s'.maxHeight, p') && Sorted(cmp, ChainKeys(s'.nodes, p')) && s'.readers == s.readers
      && Grown(s.nodes, p, s'.nodes, p', |p.chain|) && ChainKeys(s'.nodes, p') == ChainKeys(s.nodes, p)
  {
    PublishStored(cmp, s, p, at, q);
    hide *;
    RaiseKeepsShape(cmp, s.nodes, WriteOn(cmp, s).nodes, s.maxHeight, p, q, s.writer.level);
  }

  lemma PublishStored<K(!new)>(cmp: (K, K) -> int, s: State<K>, p: Plan, at: seq<nat>, q: nat)
    requires ListInv(cmp, s, p) && s.writer.Linking? && s.writer.copied && Building(s, p, at, q)
    ensures var s' := WriteOn(cmp, s);
      && s'.maxHeight == s.maxHeight && s'.readers == s.readers && InRange(s.nodes, p)
      && Shaped(s'.nodes, s.maxHeight, p) && Sorted(cmp, ChainKeys(s'.nodes, p)) && Grown(s.nodes, p, s'.nodes, p, |p.chain|)
      && ChainKeys(s'.nodes, p) == ChainKeys(s.nodes, p)
      && 0 < q < |p.chain| && q < |p.heights| && p.chain[q] < |s'.nodes|
      && p.heights[q] == s.writer.level < |s'.nodes[p.chain[q]].next|
  {
    PublishStore(cmp, s, p, at, q);
    BuildingFacts(s, p, at, q);
    ListShaped(cmp, s, p);
    hide StrictWeakOrder, Sorted, Places, ChainKeys, CompleteBut, WriteOn, Wired, Link, Shaped, Grown, ListInv, Building;
    StoreKeepsShape(cmp, s, WriteOn(cmp, s), p, s.writer.prev[s.writer.level], s.writer.level);
  }

  lemma PublishWired<K>(nodes: seq<Cell<K>>, p: Plan, q: nat, level: nat, at: nat)
    requires InRange(nodes, p) && Wired(nodes, p) && Distinct(p.chain)
    requires q < |p.chain| && p.heights[q] == level < |nodes[p.chain[q]].next|
    requires at < q < Link(p.heights, level, at) && p.heights[at] > level
    requires nodes[p.chain[q]].next[level] == PointerAt(p.chain, Link(p.heights, level, at))
    ensures level < |nodes[p.chain[at]].next|
    ensures var nodes', p' := Store(nodes, p.chain[at], level, To(p.chain[q])), p.(heights := p.heights[q := level + 1]);
      InRange(nodes', p') && Wired(nodes', p')
  {
    assert WiredAt(nodes, p, at, level);
    LinkLevel(p.heights, q, level, at);
    hide Link;
    var nodes', p' := Store(nodes, p.chain[at], level, To(p.chain[q])), p.(heights := p.heights[q := level + 1]);
    assert InRange(nodes', p');
    forall j: nat, l: nat | j < |p'.chain| && l < p'.heights[j] ensures WiredAt(nodes', p', j, l)
    {
      assert Link(p'.heights, l, j) ==
        if l == level && j == at then q else if l == level && j == q then Link(p.heights, level, at) else Link(p.heights, l, j);
      assert j != at ==> p.chain[j] != p.chain[at];
      if !(l == level && j == q) {
        assert WiredAt(nodes, p, j, l);
      }
    }
  }

  lemma RaiseKeepsShape<K(!new)>(cmp: (K, K) -> int, nodes: seq<Cell<K>>, nodes': seq<Cell<K>>, maxHeight: nat,
                          p: Plan, q: nat, level: nat)
    requires InRange(nodes, p) && Shaped(nodes', maxHeight, p) && Sorted(cmp, ChainKeys(nodes', p)) && Grown(nodes, p, nodes', p, |p.chain|)
    requires 0 < q < |p.chain| && p.heights[q] == level < |nodes'[p.chain[q]].next|
    ensures var p' := p.(heights := p.heights[q := level + 1]);
      && Shaped(nodes', maxHeight, p') && Sorted(cmp, ChainKeys(nodes', p')) && Grown(nodes, p, nodes', p', |p.chain|)
      && ChainKeys(nodes', p') == ChainKeys(nodes', p)
  {
    hide Sorted, Distinct;
    var p' := p.(heights := p.heights[q := level + 1]);
    assert ChainKeys(nodes', p') == ChainKeys(nodes', p);
    forall c | 0 <= c < |p.chain| ensures p'.chain[Moved(c, |p.chain|)] == p.chain[c] && p'.heights[Moved(c, |p.chain|)] >= p.heights[c]
      && p.chain[c] < |nodes'| && nodes'[p.chain[c]].key == nodes[p.chain[c]].key
    {
      assert Moved(c, |p.chain|) == c;
    }
  }

  lemma PublishBuilding<K(!new)>(cmp: (K, K) -> int, s: State<K>, p: Plan, at: seq<nat>, q: nat)
    requires InRange(s.nodes, p) && s.writer.Linking? && s.writer.copied && Building(s, p, at, q) && Distinct(p.chain)
    requires Wired(s.nodes, p)
    ensures var p' := p.(heights := p.heights[q := s.writer.level + 1]);
      InRange(WriteOn(cmp, s).nodes, p') && WriterInv(cmp, WriteOn(cmp, s), p', at)
  {
    BuildingFacts(s, p, at, q);
    var Linking(x, prev, level, copied) := s.writer;
    assert WiredAt(s.nodes, p, at[level], level);
    PlacesNext<nat>(p.chain, p.heights, prev, at, level, q);
    hide Link, Places;
    var s', p' := WriteOn(cmp, s), p.(heights := p.heights[q := level + 1]);
    forall j | 0 <= j < |p'.chain| && j != q ensures p'.heights[j] == |s'.nodes[p'.chain[j]].next| >= 1 {
    }
    if s'.writer.Linking? {
      assert Building(s', p', at, q);
    }
  }

  // ---------- runs ----------

  lemma NoGrowth<K>(nodes: seq<Cell<K>>, p: Plan)
    requires InRange(nodes, p)
    ensures Grown(nodes, p, nodes, p, |p.chain|)
  {
  }

  lemma WriterStepKeeps<K(!new)>(cmp: (K, K) -> int, s: State<K>, p: Plan, at: seq<nat>)
    returns (p': Plan, at': seq<nat>, q: nat)
    requires Inv(cmp, s, p, at)
    ensures Inv(cmp, WriteOn(cmp, s), p', at')
    ensures InRange(s.nodes, p) && InRange(WriteOn(cmp, s).nodes, p') && Grown(s.nodes, p, WriteOn(cmp, s).nodes, p', q)
    ensures ChainKeys(WriteOn(cmp, s).nodes, p') == KeysAfter(cmp, s, ChainKeys(s.nodes, p))
  {
    assert InRange(s.nodes, p);
    p', at', q := p, at, |p.chain|;
    NoGrowth(s.nodes, p);
    if s.writer.Idle? || s.writer.Crashed? {
      return;
    }
    hide Inv, ListInv, Grown, WriteOn, InRange, ChainKeys, InsertAt, Rank;
    match s.writer
    case Searching(_, _, _, _, _) => at' := SearchStepKeeps(cmp, s, p, at);
    case Raising(_, _, _) => at' := RaiseKeeps(cmp, s, p, at);
    case Allocating(_, _, _) => p', q := AllocateKeeps(cmp, s, p, at);
    case Linking(_, _, _, copied) =>
      if copied {
        p' := PublishKeeps(cmp, s, p, at);
      } else {
        CopyKeeps(cmp, s, p, at);
      }
  }

  /** Every step keeps the invariant, and no linked node is lost. */
  lemma StepKeeps<K(!new)>(cmp: (K, K) -> int, s: State<K>, p: Plan, at: seq<nat>, a: Action<K>)
    returns (p': Plan, at': seq<nat>, q: nat)
    requires Inv(cmp, s, p, at) && Enabled(s, a)
    ensures Inv(cmp, Apply(cmp, s, a), p', at')
    ensures InRange(s.nodes, p) && InRange(Apply(cmp, s, a).nodes, p') && Grown(s.nodes, p, Apply(cmp, s, a).nodes, p', q)
    ensures ChainKeys(Apply(cmp, s, a).nodes, p')
         == if a.WriterStep? then KeysAfter(cmp, s, ChainKeys(s.nodes, p)) else ChainKeys(s.nodes, p)
  {
    assert InRange(s.nodes, p);
    NoGrowth(s.nodes, p);
    hide Inv, Grown, WriteOn, InRange, ReadOn, ChainKeys, KeysAfter;
    p', at', q := p, at, |p.chain|;
    match a
    case StartInsert(key, height) => at' := StartInsertKeeps(cmp, s, p, at, key, height);
    case StartRead(r, target) => StartReadKeeps(cmp, s, p, at, r, target);
    case ReaderStep(r) => ReaderStepKeeps(cmp, s, p, at, r);
    case WriterStep => p', at', q := WriterStepKeeps(cmp, s, p, at);
  }

  lemma InitInv<K(!new)>(cmp: (K, K) -> int, headKey: K)
    requires StrictWeakOrder(cmp)
    ensures Inv(cmp, Init(headKey), Plan([0], [MAX_HEIGHT]), [])
  {
    hide StrictWeakOrder;
    var s, p := Init(headKey), Plan([0], [MAX_HEIGHT]);
    forall j: nat, l: nat | j < |p.chain| && l < p.heights[j] ensures WiredAt(s.nodes, p, j, l) {
      LinkIs(p.heights, l, j, 1);
    }
  }

  /** The run of the actions from s ends in t. */
  ghost predicate Run<K(!new)>(cmp: (K, K) -> int, s: State<K>, actions: seq<Action<K>>, t: State<K>)
    decreases |actions|
  {
    if actions == [] then s == t
    else Enabled(s, actions[0]) && Run(cmp, Apply(cmp, s, actions[0]), actions[1..], t)
  }

  /** Where a node linked at a position is later on. */
  ghost predicate StillLinked<K>(s: State<K>, p: Plan, t: State<K>, q: Plan)
    requires InRange(s.nodes, p) && InRange(t.nodes, q)
  {
    forall c: nat {:trigger p.chain[c]} :: c < |p.chain| && p.heights[c] > 0 ==> exists d: nat ::
      && d < |q.chain| && q.chain[d] == p.chain[c] && q.heights[d] > 0 && (c > 0 ==> d > 0)
      && p.chain[c] < |t.nodes| && t.nodes[p.chain[c]].key == s.nodes[p.chain[c]].key
  }

  lemma GrownStillLinked<K>(s: State<K>, p: Plan, t: State<K>, q: Plan, at: nat)
    requires InRange(s.nodes, p) && InRange(t.nodes, q) && Grown(s.nodes, p, t.nodes, q, at)
    ensures StillLinked(s, p, t, q)
  {
    forall c: nat | c < |p.chain| && p.heights[c] > 0 ensures exists d: nat ::
      && d < |q.chain| && q.chain[d] == p.chain[c] && q.heights[d] > 0 && (c > 0 ==> d > 0)
      && p.chain[c] < |t.nodes| && t.nodes[p.chain[c]].key == s.nodes[p.chain[c]].key
    {
      assert q.chain[Moved(c, at)] == p.chain[c];
    }
  }

  lemma StillLinkedTrans<K>(s: State<K>, p: Plan, t: State<K>, q: Plan, u: State<K>, r: Plan)
    requires InRange(s.nodes, p) && InRange(t.nodes, q) && InRange(u.nodes, r)
    requires StillLinked(s, p, t, q) && StillLinked(t, q, u, r)
    ensures StillLinked(s, p, u, r)
  {
    forall c: nat | c < |p.chain| && p.heights[c] > 0 ensures exists e: nat ::
      && e < |r.chain| && r.chain[e] == p.chain[c] && r.heights[e] > 0 && (c > 0 ==> e > 0)
      && p.chain[c] < |u.nodes| && u.nodes[p.chain[c]].key == s.nodes[p.chain[c]].key
    {
      var d: nat :| d < |q.chain| && q.chain[d] == p.chain[c] && q.heights[d] > 0 && (c > 0 ==> d > 0)
        && p.chain[c] < |t.nodes| && t.nodes[p.chain[c]].key == s.nodes[p.chain[c]].key;
      assert t.nodes[q.chain[d]].key == s.nodes[p.chain[c]].key;
    }
  }

  /** Any run keeps the invariant and every linked node. */
  lemma {:induction false} RunKeeps<K(!new)>(cmp: (K, K) -> int, s: State<K>, p: Plan, at: seq<nat>,
                                      actions: seq<Action<K>>, t: State<K>)
    returns (q: Plan, at': seq<nat>)
    requires Inv(cmp, s, p, at) && Run(cmp, s, actions, t)
    ensures Inv(cmp, t, q, at') && InRange(s.nodes, p) && InRange(t.nodes, q) && StillLinked(s, p, t, q)
    decreases |actions|
  {
    assert InRange(s.nodes, p);
    hide Inv, Apply, Enabled, InRange, StillLinked, Grown;
    if actions == [] {
      q, at' := p, at;
      NoGrowth(s.nodes, p);
      GrownStillLinked(s, p, s, p, |p.chain|);
    } else {
      var u := Apply(cmp, s, actions[0]);
      var r, at1, c := StepKeeps(cmp, s, p, at, actions[0]);
      GrownStillLinked(s, p, u, r, c);
      q, at' := RunKeeps(cmp, u, r, at1, actions[1..], t);
      StillLinkedTrans(s, p, u, r, t, q);
    }
  }

  /** In no run does a reader or the writer read a slot that has not been written. */
  lemma NoUnwrittenRead<K(!new)>(cmp: (K, K) -> int, headKey: K, actions: seq<Action<K>>, t: State<K>)
    requires StrictWeakOrder(cmp) && Run(cmp, Init(headKey), actions, t)
    ensures !t.writer.Crashed? && forall r :: r in t.readers ==> !t.readers[r].Broken?
  {
    InitInv(cmp, headKey);
    hide Run, ListInv;
    var q, at := RunKeeps(cmp, Init(headKey), Plan([0], [MAX_HEIGHT]), [], actions, t);
    LiveFrom(cmp, t, q, at);
  }

  lemma LiveFrom<K(!new)>(cmp: (K, K) -> int, t: State<K>, q: Plan, at: seq<nat>)
    requires Inv(cmp, t, q, at)
    ensures !t.writer.Crashed? && forall r :: r in t.readers ==> !t.readers[r].Broken?
  {
    hide StrictWeakOrder, Sorted, Wired, Standing;
  }

  // ---------- what a reader returns ----------

  /** The first of some nodes whose key is not less than the target. */
  function FirstNotLess<K>(cmp: (K, K) -> int, nodes: seq<Cell<K>>, ids: seq<nat>, target: K): Pointer {
    if ids == [] then Nil
    else if ids[0] < |nodes| && !Less(cmp, nodes[ids[0]].key, target) then To(ids[0])
    else FirstNotLess(cmp, nodes, ids[1..], target)
  }

  lemma {:induction false} WalkIsLevelZero<K(!new)>(cmp: (K, K) -> int, s: State<K>, p: Plan, c: nat, steps: nat)
    requires ListInv(cmp, s, p) && c < |p.chain| && p.heights[c] > 0 && steps >= |p.chain| - c
    ensures Walk(s.nodes, p.chain[c], steps) == OnLevel(p.chain[1..][c..], p.heights[c + 1..], 0)
    decreases steps
  {
    var m := WalkStep(cmp, s, p, c, steps);
    hide ListInv, Walk;
    OnLevelSkips(p.chain[1..], p.heights, 0, c, m);
    hide Link, OnLevel;
    if m < |p.chain| {
      WalkIsLevelZero(cmp, s, p, m, steps - 1);
    }
  }

  lemma WalkStep<K(!new)>(cmp: (K, K) -> int, s: State<K>, p: Plan, c: nat, steps: nat) returns (m: nat)
    requires ListInv(cmp, s, p) && c < |p.chain| && p.heights[c] > 0 && steps >= |p.chain| - c
    ensures |p.heights| == |p.chain| && m == Link(p.heights, 0, c)
    ensures Walk(s.nodes, p.chain[c], steps) == if m < |p.chain| then [p.chain[m]] + Walk(s.nodes, p.chain[m], steps - 1) else []
  {
    assert WiredAt(s.nodes, p, c, 0);
    m := Link(p.heights, 0, c);
    hide Link, Distinct, StrictWeakOrder, Sorted;
  }

  lemma LinkedNodesAre<K(!new)>(cmp: (K, K) -> int, s: State<K>, p: Plan)
    requires ListInv(cmp, s, p)
    ensures LinkedNodes(s) == OnLevel(p.chain[1..], p.heights[1..], 0)
  {
    WalkIsLevelZero(cmp, s, p, 0, |s.nodes|);
    assert p.chain[1..][0..] == p.chain[1..];
  }

  lemma {:induction false} OnLevelMembers<T>(keys: seq<T>, heights: seq<nat>, x: T)
    requires |keys| == |heights|
    ensures x in OnLevel(keys, heights, 0) <==> exists i :: 0 <= i < |keys| && keys[i] == x && heights[i] > 0
    decreases |keys|
  {
    if keys != [] {
      OnLevelMembers(keys[1..], heights[1..], x);
      if exists i :: 0 <= i < |keys| && keys[i] == x && heights[i] > 0 {
        var i :| 0 <= i < |keys| && keys[i] == x && heights[i] > 0;
        assert i > 0 ==> keys[1..][i - 1] == x && heights[1..][i - 1] > 0;
      }
      if exists i :: 0 <= i < |keys| - 1 && keys[1..][i] == x && heights[1..][i] > 0 {
        var i :| 0 <= i < |keys| - 1 && keys[1..][i] == x && heights[1..][i] > 0;
        assert keys[i + 1] == x && heights[i + 1] > 0;
      }
    }
  }

  lemma IsLinked<K(!new)>(cmp: (K, K) -> int, s: State<K>, p: Plan, id: nat)
    requires ListInv(cmp, s, p)
    ensures id in LinkedNodes(s) <==> exists c :: 0 < c < |p.chain| && p.chain[c] == id && p.heights[c] > 0
  {
    LinkedNodesAre(cmp, s, p);
    hide LinkedNodes, StrictWeakOrder, Sorted, Wired, Distinct, OnLevel;
    OnLevelMembers(p.chain[1..], p.heights[1..], id);
    if exists i :: 0 <= i < |p.chain| - 1 && p.chain[1..][i] == id && p.heights[1..][i] > 0 {
      var i :| 0 <= i < |p.chain| - 1 && p.chain[1..][i] == id && p.heights[1..][i] > 0;
      assert p.chain[i + 1] == id && p.heights[i + 1] > 0;
    }
    if exists c :: 0 < c < |p.chain| && p.chain[c] == id && p.heights[c] > 0 {
      var c :| 0 < c < |p.chain| && p.chain[c] == id && p.heights[c] > 0;
      assert p.chain[1..][c - 1] == id && p.heights[1..][c - 1] > 0;
    }
  }

  /** From position d on, the first linked node that is not less stands at m. */
  lemma {:induction false} FirstIs<K>(cmp: (K, K) -> int, nodes: seq<Cell<K>>, p: Plan, target: K, d: nat, m: nat)
    requires InRange(nodes, p) && d < m <= |p.chain|
    requires forall k :: d < k < m ==> p.heights[k] == 0 || Less(cmp, nodes[p.chain[k]].key, target)
    requires m < |p.chain| ==> p.heights[m] > 0 && !Less(cmp, nodes[p.chain[m]].key, target)
    ensures FirstNotLess(cmp, nodes, OnLevel(p.chain[d + 1..], p.heights[d + 1..], 0), target) == PointerAt(p.chain, m)
    decreases m - d
  {
    hide Less;
    if d + 1 < |p.chain| {
      assert p.chain[d + 1..][1..] == p.chain[d + 2..] && p.heights[d + 1..][1..] == p.heights[d + 2..];
      if d + 1 < m {
        FirstIs(cmp, nodes, p, target, d + 1, m);
      }
    }
  }

  /** A reader returns what an atomic search of the linked nodes would return at the moment of its last load. */
  lemma LastLoad<K(!new)>(cmp: (K, K) -> int, s: State<K>, p: Plan, at: seq<nat>, r: nat)
    requires Inv(cmp, s, p, at) && r in s.readers && s.readers[r].Reading?
    requires ReadOn(cmp, s.nodes, s.readers[r]).Returned?
    ensures ReadOn(cmp, s.nodes, s.readers[r]).result
         == FirstNotLess(cmp, s.nodes, LinkedNodes(s), s.readers[r].target)
  {
    assert InRange(s.nodes, p);
    var Reading(target, x, level) := s.readers[r];
    var c: nat :| Standing(cmp, s.nodes, p, target, x, level, c);
    LinkedNodesAre(cmp, s, p);
    hide WriterInv, ReadersInv, LinkedNodes, StrictWeakOrder, Sorted, Wired, Distinct, OnLevel, Less, FirstNotLess, Place;
    var m := LookSees(cmp, s, p, target, x, level, c);
    forall k | 0 < k < m ensures p.heights[k] == 0 || Less(cmp, s.nodes[p.chain[k]].key, target) {
      KeyPlace(cmp, s, p, target, k);
    }
    KeyPlace(cmp, s, p, target, m);
    hide ListInv, Look, Standing;
    FirstIs(cmp, s.nodes, p, target, 0, m);
  }

  /** The position of the first linked node after d that is not less than the target. */
  lemma {:induction false} FirstPosition<K>(cmp: (K, K) -> int, nodes: seq<Cell<K>>, p: Plan, target: K,
                                            d: nat) returns (m: nat)
    requires InRange(nodes, p) && d < |p.chain|
    ensures d < m <= |p.chain|
    ensures forall k :: d < k < m ==> p.heights[k] == 0 || Less(cmp, nodes[p.chain[k]].key, target)
    ensures m < |p.chain| ==> p.heights[m] > 0 && !Less(cmp, nodes[p.chain[m]].key, target)
    decreases |p.chain| - d
  {
    m := d + 1;
    if m < |p.chain| && (p.heights[m] == 0 || Less(cmp, nodes[p.chain[m]].key, target)) {
      m := FirstPosition(cmp, nodes, p, target, d + 1);
    }
  }

  /** No linked node that is not less than the target comes before the first one. */
  lemma FirstSkipsNothing<K(!new)>(cmp: (K, K) -> int, s: State<K>, p: Plan, target: K, id: nat)
    requires ListInv(cmp, s, p) && id in LinkedNodes(s) && id < |s.nodes| && !Less(cmp, s.nodes[id].key, target)
    ensures var f := FirstNotLess(cmp, s.nodes, LinkedNodes(s), target);
      f.To? && f.id < |s.nodes| && !Less(cmp, s.nodes[id].key, s.nodes[f.id].key)
  {
    assert InRange(s.nodes, p);
    IsLinked(cmp, s, p, id);
    LinkedNodesAre(cmp, s, p);
    hide LinkedNodes, OnLevel, ListInv, FirstNotLess, Less;
    var c :| 0 < c < |p.chain| && p.chain[c] == id && p.heights[c] > 0;
    var m := FirstPosition(cmp, s.nodes, p, target, 0);
    FirstIs(cmp, s.nodes, p, target, 0, m);
    ChainOrder(cmp, s, p, m, c);
  }

  lemma ChainOrder<K(!new)>(cmp: (K, K) -> int, s: State<K>, p: Plan, m: nat, c: nat)
    requires ListInv(cmp, s, p) && 0 < m <= c < |p.chain|
    ensures !Less(cmp, s.nodes[p.chain[c]].key, s.nodes[p.chain[m]].key)
  {
    hide Wired, Distinct;
    var keys := ChainKeys(s.nodes, p);
    assert m < c ==> !Less(cmp, keys[c - 1], keys[m - 1]);
  }

  /** For every run: when a reader makes its last load, it returns null or a linked node not less than its
      target, and no node linked at any earlier moment of the run is skipped. */
  lemma ReaderSkipsNothing<K(!new)>(cmp: (K, K) -> int, headKey: K, before: seq<Action<K>>, s: State<K>,
                             during: seq<Action<K>>, t: State<K>, r: nat)
    requires StrictWeakOrder(cmp) && Run(cmp, Init(headKey), before, s) && Run(cmp, s, during, t)
    requires r in t.readers && t.readers[r].Reading? && ReadOn(cmp, t.nodes, t.readers[r]).Returned?
    ensures var target, result := t.readers[r].target, ReadOn(cmp, t.nodes, t.readers[r]).result;
      && (result == Nil || (result.To? && result.id in LinkedNodes(t) && result.id < |t.nodes| && !Less(cmp, t.nodes[result.id].key, target)))
      && forall id :: id in LinkedNodes(s) && id < |t.nodes| && !Less(cmp, t.nodes[id].key, target) ==>
           result.To? && !Less(cmp, t.nodes[id].key, t.nodes[result.id].key)
  {
    InitInv(cmp, headKey);
    hide Run, Inv, LinkedNodes, FirstNotLess, ReadOn, Less, StrictWeakOrder, StillLinked;
    var p, at := RunKeeps(cmp, Init(headKey), Plan([0], [MAX_HEIGHT]), [], before, s);
    var q, at' := RunKeeps(cmp, s, p, at, during, t);
    LastLoad(cmp, t, q, at', r);
    InvIsList(cmp, s, p, at);
    InvIsList(cmp, t, q, at');
    hide InRange, ListInv;
    var target := t.readers[r].target;
    var f := FirstNotLess(cmp, t.nodes, LinkedNodes(t), target);
    FirstIsOne(cmp, t.nodes, LinkedNodes(t), target);
    forall id | id in LinkedNodes(s) && id < |t.nodes| && !Less(cmp, t.nodes[id].key, target)
      ensures f.To? && f.id < |t.nodes| && !Less(cmp, t.nodes[id].key, t.nodes[f.id].key)
    {
      StaysLinked(cmp, s, p, t, q, id);
      FirstSkipsNothing(cmp, t, q, target, id);
    }
  }

  lemma InvIsList<K(!new)>(cmp: (K, K) -> int, s: State<K>, p: Plan, at: seq<nat>)
    requires Inv(cmp, s, p, at)
    ensures ListInv(cmp, s, p)
  {
  }

  lemma StaysLinked<K(!new)>(cmp: (K, K) -> int, s: State<K>, p: Plan, t: State<K>, q: Plan, id: nat)
    requires ListInv(cmp, s, p) && ListInv(cmp, t, q) && InRange(s.nodes, p) && InRange(t.nodes, q) && StillLinked(s, p, t, q)
    requires id in LinkedNodes(s)
    ensures id in LinkedNodes(t)
  {
    hide ListInv, LinkedNodes;
    IsLinked(cmp, s, p, id);
    IsLinked(cmp, t, q, id);
    var c :| 0 < c < |p.chain| && p.chain[c] == id && p.heights[c] > 0;
    assert p.chain[c] == id;
  }

  lemma {:induction false} FirstIsOne<K>(cmp: (K, K) -> int, nodes: seq<Cell<K>>, ids: seq<nat>, target: K)
    ensures var f := FirstNotLess(cmp, nodes, ids, target);
      f == Nil || (f.To? && f.id in ids && f.id < |nodes| && !Less(cmp, nodes[f.id].key, target))
    decreases |ids|
  {
    if ids != [] {
      FirstIsOne(cmp, nodes, ids[1..], target);
    }
  }
}

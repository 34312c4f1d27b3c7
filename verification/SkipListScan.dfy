/** Iteration over the list of SkipListReaders while a writer and other readers go on: SeekToFirst or Seek, then Next
    until the iterator is no longer valid, each Next a single load of a level-0 pointer. */
module SkipListScan {
  import opened Bytes
  import opened SkipList
  import opened SkipListReaders
  import opened Towers

  /** The iterator's node, 0 at first for the head, and the nodes it has stood on, in order. */
  datatype Scan = Scan(cur: nat, seen: seq<nat>, done: bool, broken: bool)

  const START := Scan(0, [], false, false)

  function ScanOn<K>(nodes: seq<Cell<K>>, sc: Scan): Scan {
    if sc.cur >= |nodes| || |nodes[sc.cur].next| == 0 then sc.(broken := true)
    else
      match nodes[sc.cur].next[0]
      case Unset => sc.(broken := true)
      case Nil => sc.(done := true)
      case To(y) => sc.(cur := y, seen := sc.seen + [y])
  }

  datatype Event<K> = OfList(a: Action<K>) | Next

  /** Any interleaving of the list's steps with those of the scan. */
  ghost predicate ScanRun<K(!new)>(cmp: (K, K) -> int, s: State<K>, sc: Scan, events: seq<Event<K>>, t: State<K>, sd: Scan)
    decreases |events|
  {
    if events == [] then s == t && sc == sd
    else
      match events[0]
      case OfList(a) => Enabled(s, a) && ScanRun(cmp, Apply(cmp, s, a), sc, events[1..], t, sd)
      case Next => !sc.done && !sc.broken && ScanRun(cmp, s, ScanOn(s.nodes, sc), events[1..], t, sd)
  }

  // ---------- the invariant ----------

  ghost predicate LinkedAt(p: Plan, id: nat, k: nat) {
    0 < k < |p.chain| == |p.heights| && p.chain[k] == id && p.heights[k] > 0
  }

  /** Where in the chain the scan stands; `at` are the positions of the nodes seen. */
  function Standpoint(at: seq<nat>): nat {
    if at == [] then 0 else at[|at| - 1]
  }

  /** The nodes seen are linked, in the order of the chain. */
  ghost predicate InOrder(p: Plan, sc: Scan, at: seq<nat>) {
    && |at| == |sc.seen| && !sc.broken
    && (forall i :: 0 <= i < |at| ==> LinkedAt(p, sc.seen[i], at[i]))
    && (forall i, j :: 0 <= i < j < |at| ==> at[i] < at[j])
    && sc.cur == if at == [] then 0 else sc.seen[|at| - 1]
  }

  /** Of the nodes in `must`, all still linked, those up to the scan have been seen. */
  ghost predicate Covers(p: Plan, sc: Scan, at: seq<nat>, must: set<nat>) {
    forall id :: id in must ==>
      exists k: nat :: LinkedAt(p, id, k) && (sc.done || k <= Standpoint(at) ==> id in sc.seen)
  }

  ghost predicate ScanInv(p: Plan, sc: Scan, at: seq<nat>, must: set<nat>) {
    InOrder(p, sc, at) && Covers(p, sc, at, must)
  }

  // ---------- the list's steps ----------

  lemma MovedOrder(j: nat, k: nat, q: nat)
    ensures (Moved(j, q) < Moved(k, q) <==> j < k) && (0 < q && 0 < j ==> 0 < Moved(j, q))
  {
  }

  lemma LinkedMoves<K>(nodes: seq<Cell<K>>, p: Plan, nodes': seq<Cell<K>>, p': Plan, q: nat, id: nat, k: nat)
    requires InRange(nodes, p) && InRange(nodes', p') && Grown(nodes, p, nodes', p', q) && LinkedAt(p, id, k)
    ensures LinkedAt(p', id, Moved(k, q))
  {
    assert p.chain[k] == id;
  }

  lemma ListStepKeeps<K>(nodes: seq<Cell<K>>, p: Plan, nodes': seq<Cell<K>>, p': Plan, q: nat, sc: Scan, at: seq<nat>,
                         must: set<nat>) returns (at': seq<nat>)
    requires InRange(nodes, p) && InRange(nodes', p') && Grown(nodes, p, nodes', p', q) && ScanInv(p, sc, at, must)
    ensures ScanInv(p', sc, at', must)
  {
    at' := seq(|at|, i requires 0 <= i < |at| => Moved(at[i], q));
    forall i | 0 <= i < |at| ensures LinkedAt(p', sc.seen[i], at'[i]) {
      LinkedMoves(nodes, p, nodes', p', q, sc.seen[i], at[i]);
    }
    forall id | id in must
      ensures exists k: nat :: LinkedAt(p', id, k) && (sc.done || k <= Standpoint(at') ==> id in sc.seen)
    {
      var k: nat :| LinkedAt(p, id, k) && (sc.done || k <= Standpoint(at) ==> id in sc.seen);
      LinkedMoves(nodes, p, nodes', p', q, id, k);
      MovedOrder(Standpoint(at), k, q);
      assert LinkedAt(p', id, Moved(k, q));
    }
  }

  // ---------- the scan's steps ----------

  /** What the scan's load returns: the next linked node of the chain, or nothing if there is none. */
  lemma NextIs<K(!new)>(cmp: (K, K) -> int, s: State<K>, p: Plan, sc: Scan, at: seq<nat>) returns (m: nat)
    requires ListInv(cmp, s, p) && InOrder(p, sc, at)
    ensures Standpoint(at) < m <= |p.chain|
    ensures forall id, k: nat :: LinkedAt(p, id, k) ==> k <= Standpoint(at) || k >= m
    ensures m == |p.chain| ==> ScanOn(s.nodes, sc) == sc.(done := true)
    ensures m < |p.chain| ==>
      LinkedAt(p, p.chain[m], m) && ScanOn(s.nodes, sc) == sc.(cur := p.chain[m], seen := sc.seen + [p.chain[m]])
  {
    hide StrictWeakOrder, Sorted, Distinct, Link;
    var c := Standpoint(at);
    assert at != [] ==> LinkedAt(p, sc.seen[|at| - 1], c);
    assert WiredAt(s.nodes, p, c, 0);
    m := Link(p.heights, 0, c);
  }

  lemma ScanStepKeeps<K(!new)>(cmp: (K, K) -> int, s: State<K>, p: Plan, sc: Scan, at: seq<nat>, must: set<nat>)
    returns (at': seq<nat>)
    requires ListInv(cmp, s, p) && ScanInv(p, sc, at, must)
    ensures ScanInv(p, ScanOn(s.nodes, sc), at', must)
  {
    var m := NextIs(cmp, s, p, sc, at);
    var sd := ScanOn(s.nodes, sc);
    at' := if m < |p.chain| then at + [m] else at;
    hide ListInv, ScanOn, InOrder, Covers, LinkedAt;
    StillInOrder(p, sc, at, sd, m);
    StillCovers(p, sc, at, sd, m, must);
  }

  lemma StillCovers(p: Plan, sc: Scan, at: seq<nat>, sd: Scan, m: nat, must: set<nat>)
    requires Covers(p, sc, at, must) && m <= |p.chain|
    requires forall id, k: nat :: LinkedAt(p, id, k) ==> k <= Standpoint(at) || k >= m
    requires m == |p.chain| ==> sd == sc.(done := true)
    requires m < |p.chain| ==> sd == sc.(cur := p.chain[m], seen := sc.seen + [p.chain[m]])
    ensures Covers(p, sd, if m < |p.chain| then at + [m] else at, must)
  {
    hide LinkedAt;
    var at' := if m < |p.chain| then at + [m] else at;
    forall id | id in must
      ensures exists k: nat :: LinkedAt(p, id, k) && (sd.done || k <= Standpoint(at') ==> id in sd.seen)
    {
      var k: nat :| LinkedAt(p, id, k) && (sc.done || k <= Standpoint(at) ==> id in sc.seen);
      LinkedIsThere(p, id, k);
    }
  }

  lemma StillInOrder(p: Plan, sc: Scan, at: seq<nat>, sd: Scan, m: nat)
    requires InOrder(p, sc, at) && Standpoint(at) < m <= |p.chain|
    requires m == |p.chain| ==> sd == sc.(done := true)
    requires m < |p.chain| ==> LinkedAt(p, p.chain[m], m) && sd == sc.(cur := p.chain[m], seen := sc.seen + [p.chain[m]])
    ensures InOrder(p, sd, if m < |p.chain| then at + [m] else at)
  {
    hide LinkedAt;
  }

  lemma LinkedIsThere(p: Plan, id: nat, k: nat)
    requires LinkedAt(p, id, k)
    ensures 0 < k < |p.chain| && p.chain[k] == id
  {
  }

  // ---------- runs ----------

  lemma {:induction false} ScanKeeps<K(!new)>(cmp: (K, K) -> int, s: State<K>, p: Plan, wat: seq<nat>, sc: Scan, at: seq<nat>,
                                              must: set<nat>, events: seq<Event<K>>, t: State<K>, sd: Scan)
    returns (q: Plan, at': seq<nat>)
    requires Inv(cmp, s, p, wat) && ScanInv(p, sc, at, must) && ScanRun(cmp, s, sc, events, t, sd)
    ensures ListInv(cmp, t, q) && ScanInv(q, sd, at', must)
    ensures InRange(s.nodes, p) && InRange(t.nodes, q) && StillLinked(s, p, t, q)
    decreases |events|
  {
    InvIsList(cmp, s, p, wat);
    InvLengths(cmp, s, p);
    hide Inv, ListInv, ScanInv, Apply, Enabled, InRange, Grown, ScanOn, StillLinked;
    if events == [] {
      q, at' := p, at;
      NoGrowth(s.nodes, p);
      GrownStillLinked(s, p, s, p, |p.chain|);
    } else {
      match events[0]
      case OfList(a) =>
        var p1, wat1, c := StepKeeps(cmp, s, p, wat, a);
        var at1 := ListStepKeeps(s.nodes, p, Apply(cmp, s, a).nodes, p1, c, sc, at, must);
        q, at' := ScanKeeps(cmp, Apply(cmp, s, a), p1, wat1, sc, at1, must, events[1..], t, sd);
        GrownStillLinked(s, p, Apply(cmp, s, a), p1, c);
        StillLinkedTrans(s, p, Apply(cmp, s, a), p1, t, q);
      case Next =>
        var at1 := ScanStepKeeps(cmp, s, p, sc, at, must);
        q, at' := ScanKeeps(cmp, s, p, wat, ScanOn(s.nodes, sc), at1, must, events[1..], t, sd);
    }
  }

  /** The nodes linked when the scan begins. */
  lemma StartCovers<K(!new)>(cmp: (K, K) -> int, s: State<K>, p: Plan) returns (must: set<nat>)
    requires ListInv(cmp, s, p)
    ensures forall id :: id in must <==> id in LinkedNodes(s)
    ensures ScanInv(p, START, [], must)
  {
    must := set id | id in LinkedNodes(s);
    forall id | id in must ensures exists k: nat :: LinkedAt(p, id, k) {
      IsLinked(cmp, s, p, id);
      var k :| 0 < k < |p.chain| && p.chain[k] == id && p.heights[k] > 0;
      InvLengths(cmp, s, p);
      assert LinkedAt(p, id, k);
    }
  }

  lemma InvLengths<K(!new)>(cmp: (K, K) -> int, s: State<K>, p: Plan)
    requires ListInv(cmp, s, p)
    ensures |p.heights| == |p.chain| && InRange(s.nodes, p)
  {
  }

  /** Each node once, all linked, none before one that it is less than. */
  ghost predicate OrderedRun<K>(cmp: (K, K) -> int, s: State<K>, seen: seq<nat>) {
    && (forall i :: 0 <= i < |seen| ==> seen[i] < |s.nodes| && seen[i] in LinkedNodes(s))
    && (forall i, j :: 0 <= i < j < |seen| ==>
          seen[i] != seen[j] && !Less(cmp, s.nodes[seen[j]].key, s.nodes[seen[i]].key))
  }

  lemma SeenIsOrdered<K(!new)>(cmp: (K, K) -> int, s: State<K>, p: Plan, sc: Scan, at: seq<nat>)
    requires ListInv(cmp, s, p) && InOrder(p, sc, at)
    ensures OrderedRun(cmp, s, sc.seen)
  {
    InvLengths(cmp, s, p);
    hide LinkedNodes, Less;
    forall i | 0 <= i < |at| ensures sc.seen[i] < |s.nodes| && sc.seen[i] in LinkedNodes(s) {
      assert LinkedAt(p, sc.seen[i], at[i]);
      IsLinked(cmp, s, p, sc.seen[i]);
    }
    forall i, j | 0 <= i < j < |at|
      ensures sc.seen[i] != sc.seen[j] && !Less(cmp, s.nodes[sc.seen[j]].key, s.nodes[sc.seen[i]].key)
    {
      assert LinkedAt(p, sc.seen[i], at[i]) && LinkedAt(p, sc.seen[j], at[j]);
      ChainOrder(cmp, s, p, at[i], at[j]);
    }
  }

  /** In any run of the list with a scan over it: the scan never reads an unwritten slot, the nodes it has stood on are
      linked, each once and in order, and when it is done, no node is missing that was linked when it began. */
  lemma ScanMissesNothing<K(!new)>(cmp: (K, K) -> int, headKey: K, before: seq<Action<K>>, s: State<K>,
                                   events: seq<Event<K>>, t: State<K>, sc: Scan)
    requires StrictWeakOrder(cmp) && Run(cmp, Init(headKey), before, s) && ScanRun(cmp, s, START, events, t, sc)
    ensures !sc.broken && OrderedRun(cmp, t, sc.seen)
    ensures sc.done ==> forall id :: id in LinkedNodes(s) ==> id in sc.seen
  {
    InitInv(cmp, headKey);
    hide Run, ScanRun, Inv, LinkedNodes, ListInv, OrderedRun, StrictWeakOrder, StillLinked;
    var p, wat := RunKeeps(cmp, Init(headKey), Plan([0], [MAX_HEIGHT]), [], before, s);
    InvIsList(cmp, s, p, wat);
    var must := StartCovers(cmp, s, p);
    var q, at := ScanKeeps(cmp, s, p, wat, START, [], must, events, t, sc);
    SeenIsOrdered(cmp, t, q, sc, at);
    assert sc.done ==> forall id :: id in must ==> id in sc.seen;
  }

  // ---------- starting at a key ----------

  /** The iterator once Seek has returned. */
  function FromSeek(found: Pointer): Scan {
    if found.To? then Scan(found.id, [found.id], false, false) else Scan(0, [], true, false)
  }

  /** The linked nodes not less than the target. */
  ghost predicate Sought<K(!new)>(cmp: (K, K) -> int, s: State<K>, target: K, id: nat) {
    id in LinkedNodes(s) && id < |s.nodes| && !Less(cmp, s.nodes[id].key, target)
  }

  lemma SoughtAt<K(!new)>(cmp: (K, K) -> int, s: State<K>, p: Plan, target: K, m: nat, id: nat) returns (k: nat)
    requires ListInv(cmp, s, p) && Sought(cmp, s, target, id) && InRange(s.nodes, p) && m <= |p.chain|
    requires forall j :: 0 < j < m ==> p.heights[j] == 0 || Less(cmp, s.nodes[p.chain[j]].key, target)
    ensures LinkedAt(p, id, k) && k >= m
  {
    InvLengths(cmp, s, p);
    hide ListInv, LinkedNodes, Less;
    IsLinked(cmp, s, p, id);
    var c :| 0 < c < |p.chain| && p.chain[c] == id && p.heights[c] > 0;
    k := c;
  }

  lemma StartsAt(p: Plan, m: nat, must: set<nat>) returns (at: seq<nat>)
    requires 0 < m <= |p.chain| == |p.heights| && (m < |p.chain| ==> p.heights[m] > 0)
    requires forall id :: id in must ==> exists k: nat :: LinkedAt(p, id, k) && k >= m
    ensures ScanInv(p, FromSeek(PointerAt(p.chain, m)), at, must)
  {
    at := if m < |p.chain| then [m] else [];
    var sc := FromSeek(PointerAt(p.chain, m));
    forall id | id in must
      ensures exists k: nat :: LinkedAt(p, id, k) && (sc.done || k <= Standpoint(at) ==> id in sc.seen)
    {
      var k: nat :| LinkedAt(p, id, k) && k >= m;
    }
  }

  /** At its last load Seek has come to the first of them. */
  lemma SeekCovers<K(!new)>(cmp: (K, K) -> int, s: State<K>, p: Plan, target: K) returns (must: set<nat>, at: seq<nat>)
    requires ListInv(cmp, s, p)
    ensures forall id: nat :: id in must <==> Sought(cmp, s, target, id)
    ensures var found := FirstNotLess(cmp, s.nodes, LinkedNodes(s), target);
      ScanInv(p, FromSeek(found), at, must) && (found.To? ==> found.id in must)
  {
    InvLengths(cmp, s, p);
    LinkedNodesAre(cmp, s, p);
    must := set id: nat | id in LinkedNodes(s) && Sought(cmp, s, target, id);
    assert forall id: nat :: id in must <==> Sought(cmp, s, target, id);
    hide *;
    var m := FirstPosition(cmp, s.nodes, p, target, 0);
    FirstIs(cmp, s.nodes, p, target, 0, m);
    FirstIsOne(cmp, s.nodes, LinkedNodes(s), target);
    IsSought(cmp, s, target, FirstNotLess(cmp, s.nodes, LinkedNodes(s), target));
    forall id | id in must ensures exists k: nat :: LinkedAt(p, id, k) && k >= m {
      var k := SoughtAt(cmp, s, p, target, m, id);
    }
    at := StartsAt(p, m, must);
  }

  lemma IsSought<K(!new)>(cmp: (K, K) -> int, s: State<K>, target: K, found: Pointer)
    requires found == Nil || (found.To? && found.id in LinkedNodes(s) && found.id < |s.nodes| && !Less(cmp, s.nodes[found.id].key, target))
    ensures found.To? ==> Sought(cmp, s, target, found.id)
  {
  }

  /** What was linked stays linked with its key, so what was sought is still. */
  lemma StillSought<K(!new)>(cmp: (K, K) -> int, s: State<K>, p: Plan, t: State<K>, q: Plan, target: K, id: nat)
    requires ListInv(cmp, s, p) && ListInv(cmp, t, q) && InRange(s.nodes, p) && InRange(t.nodes, q)
    requires StillLinked(s, p, t, q) && Sought(cmp, s, target, id)
    ensures Sought(cmp, t, target, id) && t.nodes[id].key == s.nodes[id].key
  {
    hide ListInv, LinkedNodes, Less;
    StaysLinked(cmp, s, p, t, q, id);
    IsLinked(cmp, s, p, id);
    var c :| 0 < c < |p.chain| && p.chain[c] == id && p.heights[c] > 0;
    assert p.chain[c] == id;
  }

  lemma {:induction false} SeenGrows<K(!new)>(cmp: (K, K) -> int, s: State<K>, sc: Scan, events: seq<Event<K>>,
                                              t: State<K>, sd: Scan)
    requires ScanRun(cmp, s, sc, events, t, sd)
    ensures sc.seen <= sd.seen && (sc.done ==> sd.seen == sc.seen && sd.done)
    decreases |events|
  {
    hide Apply;
    if events != [] {
      match events[0]
      case OfList(a) => SeenGrows(cmp, Apply(cmp, s, a), sc, events[1..], t, sd);
      case Next => SeenGrows(cmp, s, ScanOn(s.nodes, sc), events[1..], t, sd);
    }
  }

  lemma ScanFacts(p: Plan, sc: Scan, at: seq<nat>, must: set<nat>)
    requires ScanInv(p, sc, at, must)
    ensures InOrder(p, sc, at) && !sc.broken && (sc.done ==> forall id :: id in must ==> id in sc.seen)
  {
  }

  /** Behind a node not less than the target all are. */
  lemma AllSought<K(!new)>(cmp: (K, K) -> int, s: State<K>, target: K, seen: seq<nat>)
    requires StrictWeakOrder(cmp) && OrderedRun(cmp, s, seen) && (seen != [] ==> Sought(cmp, s, target, seen[0]))
    ensures forall id :: id in seen ==> Sought(cmp, s, target, id)
  {
    hide LinkedNodes;
    forall i | 0 <= i < |seen| ensures Sought(cmp, s, target, seen[i]) {
      assert i > 0 ==> !Less(cmp, s.nodes[seen[i]].key, s.nodes[seen[0]].key);
    }
  }

  /** From the end of Seek on. */
  lemma AfterSeek<K(!new)>(cmp: (K, K) -> int, s: State<K>, p: Plan, wat: seq<nat>, start: Scan, at: seq<nat>, must: set<nat>,
                           target: K, events: seq<Event<K>>, t: State<K>, sc: Scan)
    requires StrictWeakOrder(cmp) && Inv(cmp, s, p, wat) && ScanInv(p, start, at, must) && ScanRun(cmp, s, start, events, t, sc)
    requires forall id: nat :: id in must ==> Sought(cmp, s, target, id)
    requires if start.seen == [] then start.done else start.seen[0] in must
    ensures !sc.broken && OrderedRun(cmp, t, sc.seen)
    ensures forall id :: id in sc.seen ==> Sought(cmp, t, target, id)
    ensures sc.done ==> forall id :: id in must ==> id in sc.seen
  {
    InvIsList(cmp, s, p, wat);
    hide *;
    var q, at' := ScanKeeps(cmp, s, p, wat, start, at, must, events, t, sc);
    ScanFacts(q, sc, at', must);
    SeenIsOrdered(cmp, t, q, sc, at');
    SeenGrows(cmp, s, start, events, t, sc);
    if start.seen != [] {
      StillSought(cmp, s, p, t, q, target, start.seen[0]);
    }
    AllSought(cmp, t, target, sc.seen);
  }

  /** In any run in which a reader seeks a target and then goes on with Next: the iterator stands on linked nodes not less
      than the target, each once and in order, and when it is done, none of these is missing that was linked at any
      moment before Seek made its last load, as when it began. */
  lemma SeekMissesNothing<K(!new)>(cmp: (K, K) -> int, headKey: K, before: seq<Action<K>>, s: State<K>,
                                   during: seq<Action<K>>, t: State<K>, r: nat,
                                   events: seq<Event<K>>, u: State<K>, sc: Scan)
    requires StrictWeakOrder(cmp) && Run(cmp, Init(headKey), before, s) && Run(cmp, s, during, t)
    requires r in t.readers && t.readers[r].Reading? && ReadOn(cmp, t.nodes, t.readers[r]).Returned?
    requires ScanRun(cmp, Apply(cmp, t, ReaderStep(r)), FromSeek(ReadOn(cmp, t.nodes, t.readers[r]).result), events, u, sc)
    ensures !sc.broken && OrderedRun(cmp, u, sc.seen)
    ensures forall id :: id in sc.seen ==> Sought(cmp, u, t.readers[r].target, id)
    ensures sc.done ==> forall id: nat :: Sought(cmp, s, t.readers[r].target, id) ==> id in sc.seen
  {
    InitInv(cmp, headKey);
    hide *;
    var target, t' := t.readers[r].target, Apply(cmp, t, ReaderStep(r));
    var p, wat := RunKeeps(cmp, Init(headKey), Plan([0], [MAX_HEIGHT]), [], before, s);
    var q, wat1 := RunKeeps(cmp, s, p, wat, during, t);
    InvIsList(cmp, s, p, wat);
    InvIsList(cmp, t, q, wat1);
    var must, at := FromLastLoad(cmp, t, q, wat1, r);
    AfterSeek(cmp, t', q, wat1, FromSeek(ReadOn(cmp, t.nodes, t.readers[r]).result), at, must, target, events, u, sc);
    forall id: nat | Sought(cmp, s, target, id) ensures id in must {
      StillSought(cmp, s, p, t, q, target, id);
    }
  }

  /** The list and the iterator right after the last load of Seek. */
  lemma FromLastLoad<K(!new)>(cmp: (K, K) -> int, t: State<K>, q: Plan, wat: seq<nat>, r: nat) returns (must: set<nat>, at: seq<nat>)
    requires Inv(cmp, t, q, wat)
    requires r in t.readers && t.readers[r].Reading? && ReadOn(cmp, t.nodes, t.readers[r]).Returned?
    ensures var target, t', start := t.readers[r].target, Apply(cmp, t, ReaderStep(r)), FromSeek(ReadOn(cmp, t.nodes, t.readers[r]).result);
      && Inv(cmp, t', q, wat) && ScanInv(q, start, at, must)
      && (if start.seen == [] then start.done else start.seen[0] in must)
      && (forall id: nat {:trigger id in must} {:trigger Sought(cmp, t, target, id)} :: id in must <==> Sought(cmp, t, target, id))
      && (forall id: nat :: id in must ==> Sought(cmp, t', target, id))
  {
    LastLoad(cmp, t, q, wat, r);
    InvIsList(cmp, t, q, wat);
    SameSought(cmp, t, r);
    hide Inv, ListInv, ScanInv, Look, ReadOn, FirstNotLess, Sought, LinkedNodes;
    ReaderStepKeeps(cmp, t, q, wat, r);
    must, at := SeekCovers(cmp, t, q, t.readers[r].target);
  }

  lemma SameSought<K(!new)>(cmp: (K, K) -> int, t: State<K>, r: nat)
    requires r in t.readers && t.readers[r].Reading?
    ensures forall target, id: nat :: Sought(cmp, t, target, id) == Sought(cmp, Apply(cmp, t, ReaderStep(r)), target, id)
  {
    assert LinkedNodes(Apply(cmp, t, ReaderStep(r))) == LinkedNodes(t);
    hide LinkedNodes, ReadOn;
  }
}

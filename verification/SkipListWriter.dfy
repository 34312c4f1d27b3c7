/** What the writer of SkipListReaders achieves: whatever readers do meanwhile, each insertion comes to an end, and
    then the linked nodes hold the keys that a sequential insertion would have left. */
module SkipListWriter {
  import opened Bytes
  import opened SkipList
  import opened SkipListReaders
  import opened Towers

  predicate AllNodes<K>(s: State<K>, ids: seq<nat>) {
    forall i :: 0 <= i < |ids| ==> ids[i] < |s.nodes|
  }

  /** The keys of the linked nodes, in list order. */
  function LinkedKeys<K>(s: State<K>): seq<K>
    requires AllNodes(s, LinkedNodes(s))
  {
    var ids := LinkedNodes(s);
    seq(|ids|, i requires 0 <= i < |ids| => s.nodes[ids[i]].key)
  }

  /** The keys inserted one after the other into an empty list, each at its rank. */
  function Inserted<K>(cmp: (K, K) -> int, keys: seq<K>): seq<K> {
    if keys == [] then []
    else
      var before := Inserted(cmp, keys[..|keys| - 1]);
      InsertAt(before, Rank(cmp, before, keys[|keys| - 1]), keys[|keys| - 1])
  }

  /** The keys whose insertion a run starts. */
  function Started<K>(actions: seq<Action<K>>): seq<K> {
    if actions == [] then []
    else (if actions[0].StartInsert? then [actions[0].key] else []) + Started(actions[1..])
  }

  /** The insertion under way has not put its node in its place yet. */
  predicate Pending<K>(w: Writer<K>) {
    w.Searching? || w.Raising? || w.Allocating?
  }

  /** All nodes hold the keys inserted so far, without the one still to be put in its place. */
  ghost predicate HoldsKeys<K>(cmp: (K, K) -> int, s: State<K>, p: Plan, started: seq<K>)
    requires InRange(s.nodes, p)
  {
    if Pending(s.writer) then
      && started != [] && started[|started| - 1] == s.writer.key
      && ChainKeys(s.nodes, p) == Inserted(cmp, started[..|started| - 1])
    else ChainKeys(s.nodes, p) == Inserted(cmp, started)
  }

  lemma WriterKey<K>(cmp: (K, K) -> int, s: State<K>)
    ensures var t := WriteOn(cmp, s);
      && (Pending(t.writer) ==> Pending(s.writer) && !s.writer.Allocating? && t.writer.key == s.writer.key)
      && (Pending(s.writer) && !Pending(t.writer) ==> s.writer.Allocating? || t.writer.Crashed?)
  {
    hide Look;
  }

  /** One step: the writer's keys follow. */
  lemma StepHolds<K(!new)>(cmp: (K, K) -> int, s: State<K>, p: Plan, a: Action<K>, p': Plan, started: seq<K>)
    requires Enabled(s, a) && InRange(s.nodes, p) && HoldsKeys(cmp, s, p, started)
    requires InRange(Apply(cmp, s, a).nodes, p') && !Apply(cmp, s, a).writer.Crashed?
    requires ChainKeys(Apply(cmp, s, a).nodes, p')
          == if a.WriterStep? then KeysAfter(cmp, s, ChainKeys(s.nodes, p)) else ChainKeys(s.nodes, p)
    ensures HoldsKeys(cmp, Apply(cmp, s, a), p', started + Started([a]))
  {
    assert Started([a]) == (if a.StartInsert? then [a.key] else []) + Started([]);
    assert Started([a]) == if a.StartInsert? then [a.key] else [];
    hide ChainKeys, InsertAt, Rank;
    match a
    case StartInsert(key, height) =>
      assert (started + [key])[..|started|] == started;
    case WriterStep =>
      WriterKey(cmp, s);
      AppendNothing(started);
      hide WriteOn;
    case StartRead(_, _) => AppendNothing(started);
    case ReaderStep(_) => AppendNothing(started);
  }

  lemma {:induction false} RunHolds<K(!new)>(cmp: (K, K) -> int, s: State<K>, p: Plan, at: seq<nat>, started: seq<K>,
                                      actions: seq<Action<K>>, t: State<K>)
    returns (q: Plan, at': seq<nat>)
    requires Inv(cmp, s, p, at) && InRange(s.nodes, p) && HoldsKeys(cmp, s, p, started) && Run(cmp, s, actions, t)
    ensures Inv(cmp, t, q, at') && InRange(t.nodes, q) && HoldsKeys(cmp, t, q, started + Started(actions))
    decreases |actions|
  {
    hide Inv, HoldsKeys, Apply, InRange, Grown, ChainKeys, KeysAfter;
    if actions == [] {
      q, at' := p, at;
      AppendNothing(started);
    } else {
      var u := Apply(cmp, s, actions[0]);
      var r, at1, c := StepKeeps(cmp, s, p, at, actions[0]);
      LiveFrom(cmp, u, r, at1);
      StepHolds(cmp, s, p, actions[0], r, started);
      q, at' := RunHolds(cmp, u, r, at1, started + Started([actions[0]]), actions[1..], t);
      StartedSplits(started, actions);
    }
  }

  lemma StartedSplits<K>(started: seq<K>, actions: seq<Action<K>>)
    requires actions != []
    ensures started + Started([actions[0]]) + Started(actions[1..]) == started + Started(actions)
  {
    assert Started([actions[0]]) == (if actions[0].StartInsert? then [actions[0].key] else []) + Started([]);
    Associative(started, Started([actions[0]]), Started(actions[1..]));
  }

  /** Whenever no insertion is under way, every node is linked. */
  lemma IdleKeys<K(!new)>(cmp: (K, K) -> int, s: State<K>, p: Plan, at: seq<nat>)
    requires Inv(cmp, s, p, at) && s.writer.Idle?
    ensures AllNodes(s, LinkedNodes(s))
    ensures InRange(s.nodes, p) && LinkedKeys(s) == ChainKeys(s.nodes, p)
  {
    InvIsList(cmp, s, p, at);
    assert InRange(s.nodes, p) && CompleteBut(s.nodes, p, |p.chain|);
    LinkedNodesAre(cmp, s, p);
    hide Inv, ListInv, LinkedNodes;
    forall i | 0 <= i < |p.heights[1..]| ensures p.heights[1..][i] >= 1 {
      assert p.heights[i + 1] >= 1;
    }
    LowestLevel(p.chain[1..], p.heights[1..]);
    assert LinkedNodes(s) == p.chain[1..];
  }

  /** For every run of the writer with any readers: when no insertion is under way, the linked nodes hold, in list order,
      exactly the keys that were inserted, as if they had been inserted one after the other by themselves. */
  lemma InsertsRefine<K(!new)>(cmp: (K, K) -> int, headKey: K, actions: seq<Action<K>>, t: State<K>)
    requires StrictWeakOrder(cmp) && Run(cmp, Init(headKey), actions, t) && t.writer.Idle?
    ensures AllNodes(t, LinkedNodes(t))
    ensures LinkedKeys(t) == Inserted(cmp, Started(actions))
  {
    InitInv(cmp, headKey);
    var p := Plan([0], [MAX_HEIGHT]);
    assert InRange(Init(headKey).nodes, p);
    assert ChainKeys(Init(headKey).nodes, p) == Inserted(cmp, []);
    assert HoldsKeys(cmp, Init(headKey), p, []);
    assert [] + Started(actions) == Started(actions);
    hide Inv, Run, InRange, ChainKeys, LinkedNodes, StrictWeakOrder, Init, LinkedKeys;
    var q, at := RunHolds(cmp, Init(headKey), p, [], [], actions, t);
    IdleKeys(cmp, t, q, at);
  }

  // ---------- an insertion comes to an end ----------

  /** The writer takes n steps; readers change neither its state nor the nodes. */
  function Alone<K>(cmp: (K, K) -> int, s: State<K>, n: nat): State<K>
    decreases n
  {
    if n == 0 then s else Alone(cmp, WriteOn(cmp, s), n - 1)
  }

  function Phase<K>(w: Writer<K>): nat {
    match w
    case Searching(_, _, _, _, _) => 4
    case Raising(_, _, _) => 3
    case Allocating(_, _, _) => 2
    case Linking(_, _, _, _) => 1
    case _ => 0
  }

  /** What is left of a phase: the levels to go down, or twice those to link. */
  function Left<K>(s: State<K>): nat {
    match s.writer
    case Searching(_, _, _, level, _) => level
    case Linking(x, _, level, copied) =>
      if x < |s.nodes| && level < |s.nodes[x].next| then 2 * (|s.nodes[x].next| - level) - (if copied then 1 else 0) else 0
    case _ => 0
  }

  /** In a search, the writer stands at position c. */
  ghost predicate StandsAt<K>(cmp: (K, K) -> int, s: State<K>, p: Plan, c: nat)
    requires InRange(s.nodes, p)
  {
    s.writer.Searching? ==> Standing(cmp, s.nodes, p, s.writer.key, s.writer.x, s.writer.level, c)
  }

  /** One step of a search: further along on the same level, or down one, or done. */
  lemma SearchGoesOn<K(!new)>(cmp: (K, K) -> int, s: State<K>, p: Plan, at: seq<nat>, c: nat)
    returns (at': seq<nat>, c': nat)
    requires Inv(cmp, s, p, at) && InRange(s.nodes, p) && s.writer.Searching? && StandsAt(cmp, s, p, c)
    ensures var t := WriteOn(cmp, s);
      && Inv(cmp, t, p, at') && InRange(t.nodes, p) && StandsAt(cmp, t, p, c')
      && c < |p.chain|
      && (t.writer.Searching? ==> t.writer.level < s.writer.level || (t.writer.level == s.writer.level && c < c' < |p.chain|))
      && (t.writer.Searching? || t.writer.Raising?)
  {
    at' := SearchStepKeeps(cmp, s, p, at);
    InvIsList(cmp, s, p, at);
    var Searching(key, height, x, level, prev) := s.writer;
    LiveFrom(cmp, WriteOn(cmp, s), p, at');
    hide Inv, ListInv, Standing, Look;
    var m := LookSees(cmp, s, p, key, x, level, c);
    if m < Place(cmp, s.nodes, p, key) {
      c' := m;
    } else {
      c' := c;
      if level > 0 {
        StandLower(cmp, s.nodes, p, key, x, level, c);
      }
    }
  }

  /** Linking one more level, or the first half of it. */
  lemma LinkGoesOn<K(!new)>(cmp: (K, K) -> int, s: State<K>, p: Plan, at: seq<nat>)
    requires Inv(cmp, s, p, at) && s.writer.Linking?
    ensures var t := WriteOn(cmp, s); t.writer.Idle? || (t.writer.Linking? && Left(t) < Left(s))
  {
    var q := LinkingFacts(cmp, s, p, at);
    BuildingFacts(s, p, at, q);
    assert WiredAt(s.nodes, p, at[s.writer.level], s.writer.level);
    hide Inv, ListInv, Building, Wired, Distinct, Link;
  }

  /** From any state of a run, the insertion under way is done after some number of the writer's own steps. */
  lemma {:induction false} WriterFinishes<K(!new)>(cmp: (K, K) -> int, s: State<K>, p: Plan, at: seq<nat>, c: nat) returns (n: nat)
    requires Inv(cmp, s, p, at) && InRange(s.nodes, p) && StandsAt(cmp, s, p, c)
    ensures Alone(cmp, s, n).writer.Idle?
    decreases Phase(s.writer), Left(s), |p.chain| - c
  {
    LiveFrom(cmp, s, p, at);
    hide Inv, InRange, StandsAt, WriteOn;
    n := 0;
    match s.writer {
      case Idle =>
      case Searching(_, _, _, _, _) =>
        var at', c' := SearchGoesOn(cmp, s, p, at, c);
        n := WriterFinishes(cmp, WriteOn(cmp, s), p, at', c');
        n := n + 1;
      case Linking(_, _, _, _) =>
        LinkGoesOn(cmp, s, p, at);
        var p', at', q := WriterStepKeeps(cmp, s, p, at);
        NotSearching(cmp, WriteOn(cmp, s), p');
        n := WriterFinishes(cmp, WriteOn(cmp, s), p', at', 0);
        n := n + 1;
      case Crashed =>
        assert false;
      case Raising(_, _, _) | Allocating(_, _, _) =>
        NextPhase(cmp, s);
        var p', at', q := WriterStepKeeps(cmp, s, p, at);
        NotSearching(cmp, WriteOn(cmp, s), p');
        n := WriterFinishes(cmp, WriteOn(cmp, s), p', at', 0);
        n := n + 1;
    }
  }

  lemma NextPhase<K>(cmp: (K, K) -> int, s: State<K>)
    ensures s.writer.Raising? ==> WriteOn(cmp, s).writer.Allocating?
    ensures s.writer.Allocating? ==> WriteOn(cmp, s).writer.Linking?
  {
  }

  lemma NotSearching<K>(cmp: (K, K) -> int, s: State<K>, p: Plan)
    requires InRange(s.nodes, p) && !s.writer.Searching?
    ensures StandsAt(cmp, s, p, 0)
  {
  }

  /** So it is after any run: the insertion under way can always be completed, by its own steps alone. */
  lemma InsertEnds<K(!new)>(cmp: (K, K) -> int, headKey: K, actions: seq<Action<K>>, t: State<K>) returns (n: nat)
    requires StrictWeakOrder(cmp) && Run(cmp, Init(headKey), actions, t)
    ensures Alone(cmp, t, n).writer.Idle?
  {
    InitInv(cmp, headKey);
    var q, at := RunKeeps(cmp, Init(headKey), Plan([0], [MAX_HEIGHT]), [], actions, t);
    hide Run;
    var c: nat := SomewhereStanding(cmp, t, q, at);
    hide Inv, InRange, StandsAt;
    n := WriterFinishes(cmp, t, q, at, c);
  }

  lemma SomewhereStanding<K(!new)>(cmp: (K, K) -> int, s: State<K>, p: Plan, at: seq<nat>) returns (c: nat)
    requires Inv(cmp, s, p, at)
    ensures InRange(s.nodes, p) && StandsAt(cmp, s, p, c)
  {
    hide ListInv, ReadersInv, Standing, AllFound, Recorded, Place;
    InvIsList(cmp, s, p, at);
    assert InRange(s.nodes, p) by { ListInRange(cmp, s, p); }
    c := 0;
    if s.writer.Searching? {
      var d: nat :| Standing(cmp, s.nodes, p, s.writer.key, s.writer.x, s.writer.level, d);
      c := d;
    }
  }

  lemma ListInRange<K(!new)>(cmp: (K, K) -> int, s: State<K>, p: Plan)
    requires ListInv(cmp, s, p)
    ensures InRange(s.nodes, p)
  {
  }
}

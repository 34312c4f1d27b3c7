/** Reading a log from an initial offset, also after a crash: exactly the complete records whose first header is at or
    after it come back, and exactly the later fragments of the record that stretches over it are reported. */
module LogSeek {
  import opened Bytes
  import opened LogFormat
  import opened LogReader
  import opened LogRecovery
  import LogWriter

  // ---------- what is reported ----------

  /** Lengths of the fragments at or after o of a record that began before it, as far as the file has them whole. */
  function Orphans(p: nat, data: ByteSeq, o: nat, size: nat): seq<nat>
    decreases |data|, Room(HeaderPos(p)) == 0
  {
    var n := FragmentLength(p, |data|);
    var next := HeaderPos(p) + HEADER_SIZE + n;
    EmptyFragment(p, |data|);
    if next > size then []
    else (if HeaderPos(p) < o then [] else [n]) + if n < |data| then Orphans(next, data[n..], o, size) else []
  }

  function AllOrphans(p: nat, records: seq<ByteSeq>, o: nat, size: nat): seq<nat>
    decreases |records|
  {
    if records == [] then []
    else
      (if HeaderPos(p) < o then Orphans(p, records[0], o, size) else [])
      + AllOrphans(p + |Layout(p, records[0], true)|, records[1..], o, size)
  }

  lemma OrphansStep(p: nat, data: ByteSeq, begin: bool, o: nat, size: nat)
    ensures var n, next := FragmentLength(p, |data|), p + |Fragment(p, data, begin)|;
      && next == HeaderPos(p) + HEADER_SIZE + n
      && (next > size ==> Orphans(p, data, o, size) == [])
      && (next <= size && n == |data| ==> Orphans(p, data, o, size) == if HeaderPos(p) < o then [] else [n])
      && (next <= size && n < |data| ==>
            Orphans(p, data, o, size) == (if HeaderPos(p) < o then [] else [n]) + Orphans(next, data[n..], o, size))
  {
    hide HeaderPos, Header;
  }

  lemma OrphansFirst(p: nat, records: seq<ByteSeq>, o: nat, size: nat)
    requires records != []
    ensures var rest := AllOrphans(p + |Layout(p, records[0], true)|, records[1..], o, size);
      AllOrphans(p, records, o, size) == if HeaderPos(p) < o then Orphans(p, records[0], o, size) + rest else rest
  {
    hide HeaderPos, Layout, Orphans;
  }

  lemma LayoutAhead(p: nat, data: ByteSeq)
    ensures HeaderPos(p) < p + |Layout(p, data, true)|
  {
  }

  /** Behind the initial offset no record is an orphan. */
  lemma {:induction false} NoOrphansLater(p: nat, records: seq<ByteSeq>, o: nat, size: nat)
    requires HeaderPos(p) >= o
    ensures AllOrphans(p, records, o, size) == []
    decreases |records|
  {
    hide HeaderPos, Layout, Orphans, AllOrphans;
    if records != [] {
      OrphansFirst(p, records, o, size);
      LayoutAhead(p, records[0]);
      HeaderNotBefore(p + |Layout(p, records[0], true)|);
      NoOrphansLater(p + |Layout(p, records[0], true)|, records[1..], o, size);
    } else {
      NoOrphansOfNone(p, o, size);
    }
  }

  lemma NoOrphansOfNone(p: nat, o: nat, size: nat)
    ensures AllOrphans(p, [], o, size) == []
  {
  }

  /** Nor are any beyond the end of the file ... */
  lemma {:induction false} NoOrphansBeyond(p: nat, records: seq<ByteSeq>, o: nat, size: nat)
    requires p > size
    ensures AllOrphans(p, records, o, size) == []
    decreases |records|
  {
    hide HeaderPos, Layout, Orphans, AllOrphans;
    if records != [] {
      OrphansFirst(p, records, o, size);
      OrphansStep(p, records[0], true, o, size);
      HeaderNotBefore(p);
      NoOrphansBeyond(p + |Layout(p, records[0], true)|, records[1..], o, size);
    } else {
      NoOrphansOfNone(p, o, size);
    }
  }

  /** ... or in the blocks before the one that the reader starts in. */
  lemma {:induction false} NoneBeforeBlock(p: nat, data: ByteSeq, begin: bool, o: nat, size: nat)
    requires size < InitialBlock(o) || p + |Layout(p, data, begin)| <= InitialBlock(o)
    ensures Orphans(p, data, o, size) == []
    decreases |data|, Room(HeaderPos(p)) == 0
  {
    hide HeaderPos, FragmentLength, Fragment, Layout, Room, Orphans, InitialBlock;
    var n, here := FragmentLength(p, |data|), Fragment(p, data, begin);
    LayoutStep(p, data, begin);
    OrphansStep(p, data, begin, o, size);
    if p + |here| <= size {
      HeaderInBlock(p, o);
      if n < |data| {
        NoneBeforeBlock(p + |here|, data[n..], false, o, size);
      }
    }
  }

  lemma HeaderInBlock(p: nat, o: nat)
    requires HeaderPos(p) < InitialBlock(o)
    ensures HeaderPos(p) < o
  {
    BeforeInitialBlock(o, HeaderPos(p));
  }

  lemma {:induction false} AllNoneBeforeBlock(p: nat, records: seq<ByteSeq>, o: nat, size: nat)
    requires size < InitialBlock(o)
    ensures AllOrphans(p, records, o, size) == []
    decreases |records|
  {
    hide HeaderPos, Layout, Orphans, AllOrphans, InitialBlock;
    if records != [] {
      OrphansFirst(p, records, o, size);
      NoneBeforeBlock(p, records[0], true, o, size);
      AllNoneBeforeBlock(p + |Layout(p, records[0], true)|, records[1..], o, size);
    } else {
      NoOrphansOfNone(p, o, size);
    }
  }

  // ---------- skipping a record ----------

  /** The bytes at p are these, or their beginning if the file ends before. */
  ghost predicate Meets(file: ByteSeq, p: nat, all: ByteSeq) {
    p <= |file| && (all <= file[p..] || (file[p..] <= all && |file| - p < |all|))
  }

  /** What a reader in state s reports of a skipped record, or of what is left of one: nothing as long as it is
      resynchronising behind the initial offset. */
  function Reported(s: State, p: nat, data: ByteSeq, o: nat, size: nat): seq<nat> {
    if s.resyncing && HeaderPos(p) >= o then [] else Orphans(p, data, o, size)
  }

  /** A whole fragment of a record that is being skipped. */
  lemma SkipFragment(file: ByteSeq, o: nat, s: State, p: nat, data: ByteSeq, begin: bool) returns (t: State)
    requires p <= |file| && At(file, s, p) && Fragment(p, data, begin) <= file[p..]
    requires begin ==> HeaderPos(p) < o
    ensures At(file, t, p + |Fragment(p, data, begin)|) && t.last == s.last
    ensures var n := FragmentLength(p, |data|);
      && t.resyncing == (s.resyncing && HeaderPos(p) >= o && n < |data|)
      && Assemble(file, o, s, NOTHING) ==
           Prepend(if HeaderPos(p) < o || s.resyncing then [] else [n], Assemble(file, o, t, NOTHING))
  {
    hide HeaderPos, FragmentLength, Fragment, At, ReadPhysical, Dispatch;
    var u := PhysicalWhole(file, o, s, p, data, begin);
    var n := FragmentLength(p, |data|);
    t := u.(resyncing := s.resyncing && HeaderPos(p) >= o && n < |data|);
    AtIgnoresRecordState(file, u, t, p + |Fragment(p, data, begin)|);
    AtGives(file, u, p, data, begin);
    DispatchSkipped(o, ReadPhysical(file, o, s), HeaderPos(p), data[..n], begin, n == |data|, u);
    AssembleSkipped(file, o, s, t);
  }

  lemma AtGives(file: ByteSeq, s: State, p: nat, data: ByteSeq, begin: bool)
    requires At(file, s, p + |Fragment(p, data, begin)|)
    ensures |s.buffer| <= s.end < UINT64
    ensures s.end - |s.buffer| == HeaderPos(p) + HEADER_SIZE + FragmentLength(p, |data|)
    ensures |data[..FragmentLength(p, |data|)]| == FragmentLength(p, |data|)
  {
    hide HeaderPos, FragmentLength, Header, FragmentType;
  }

  lemma DispatchSkipped(o: nat, ph: Physical, h: nat, fragment: ByteSeq, begin: bool, end: bool, u: State)
    requires ph == if h < o then Physical(BAD_RECORD, [], u, []) else Physical(FragmentType(begin, end), fragment, u, [])
    requires (begin ==> h < o) && |u.buffer| <= u.end < UINT64 && u.end - |u.buffer| == h + HEADER_SIZE + |fragment|
    ensures Dispatch(o, ph, NOTHING) == Continue(u.(resyncing := u.resyncing && h >= o && !end), NOTHING,
                                                 if h < o || u.resyncing then [] else [|fragment|])
  {
  }

  lemma AssembleSkipped(file: ByteSeq, o: nat, s: State, t: State)
    requires var step := Dispatch(o, ReadPhysical(file, o, s), NOTHING); step.Continue? && step.s == t && step.a == NOTHING
    requires ReadPhysical(file, o, s).reports == []
    ensures Assemble(file, o, s, NOTHING)
         == Prepend(Dispatch(o, ReadPhysical(file, o, s), NOTHING).reports, Assemble(file, o, t, NOTHING))
  {
    hide Dispatch, ReadPhysical;
    PrependNothing(Assemble(file, o, s, NOTHING));
  }

  /** A record that starts before the initial offset, or what is left of one, whole or cut short by the end of the
      file. */
  lemma {:induction false} SkipRecord(file: ByteSeq, o: nat, s: State, p: nat, data: ByteSeq, begin: bool) returns (t: State)
    requires At(file, s, p) && Meets(file, p, Layout(p, data, begin))
    requires begin ==> HeaderPos(p) < o
    ensures var end, reports := p + |Layout(p, data, begin)|, Reported(s, p, data, o, |file|);
      && (end <= |file| ==> At(file, t, end) && t.last == s.last && !t.resyncing
                            && Assemble(file, o, s, NOTHING) == Prepend(reports, Assemble(file, o, t, NOTHING)))
      && (end > |file| ==> var r := Assemble(file, o, s, NOTHING); !r.found && r.reports == reports)
    decreases |data|, Room(HeaderPos(p)) == 0
  {
    hide HeaderPos, FragmentLength, Fragment, Layout, At, Assemble, Room, Orphans;
    var n, here := FragmentLength(p, |data|), Fragment(p, data, begin);
    LayoutStep(p, data, begin);
    OrphansStep(p, data, begin, o, |file|);
    t := s;
    if p + |here| > |file| {
      PrefixesOfOne(file[p..], here, Layout(p, data, begin));
      SkipTorn(file, o, s, p, data, begin);
    } else {
      StartsWith(file, p, here, Layout(p, data, begin));
      t := SkipFragment(file, o, s, p, data, begin);
      if n < |data| {
        MeetsNext(file, p, data, begin);
        var u := t;
        t := SkipRecord(file, o, u, p + |here|, data[n..], false);
        HeaderNotBefore(p + |here|);
        Reports(o, s, u, p, data, begin, |file|);
        PrependTwice(if HeaderPos(p) < o || s.resyncing then [] else [n], Reported(u, p + |here|, data[n..], o, |file|),
                     Assemble(file, o, t, NOTHING));
      }
    }
  }

  lemma StartsWith(file: ByteSeq, p: nat, here: ByteSeq, all: ByteSeq)
    requires Meets(file, p, all) && here <= all && p + |here| <= |file|
    ensures here <= file[p..]
  {
    if !(all <= file[p..]) {
      PrefixesOfOne(here, file[p..], all);
    }
  }

  lemma MeetsNext(file: ByteSeq, p: nat, data: ByteSeq, begin: bool)
    requires Meets(file, p, Layout(p, data, begin)) && FragmentLength(p, |data|) < |data|
    requires p + |Fragment(p, data, begin)| <= |file|
    ensures var n, next := FragmentLength(p, |data|), p + |Fragment(p, data, begin)|;
      Meets(file, next, Layout(next, data[n..], false)) && next + |Layout(next, data[n..], false)| == p + |Layout(p, data, begin)|
  {
    hide HeaderPos, FragmentLength, Fragment, Layout;
    NextPart(file, p, data, begin);
  }

  /** What is reported of a record is what is reported of its first fragment and of the rest. */
  lemma Reports(o: nat, s: State, u: State, p: nat, data: ByteSeq, begin: bool, size: nat)
    requires var n, next := FragmentLength(p, |data|), p + |Fragment(p, data, begin)|;
      n < |data| && next <= size && next <= HeaderPos(next) && u.resyncing == (s.resyncing && HeaderPos(p) >= o)
    ensures var n, next := FragmentLength(p, |data|), p + |Fragment(p, data, begin)|;
      Reported(s, p, data, o, size)
        == (if HeaderPos(p) < o || s.resyncing then [] else [n]) + Reported(u, next, data[n..], o, size)
  {
    hide HeaderPos, FragmentLength, Fragment, Orphans;
    OrphansStep(p, data, begin, o, size);
  }

  lemma PrependTwice(a: seq<nat>, b: seq<nat>, o: Outcome)
    ensures Prepend(a, Prepend(b, o)) == Prepend(a + b, o)
  {
    Associative(a, b, o.reports);
  }

  lemma SkipTorn(file: ByteSeq, o: nat, s: State, p: nat, data: ByteSeq, begin: bool)
    requires p <= |file| && At(file, s, p)
    requires file[p..] <= Fragment(p, data, begin) && |file| - p < |Fragment(p, data, begin)|
    ensures var r := Assemble(file, o, s, NOTHING); !r.found && r.reports == []
  {
    hide HeaderPos, FragmentLength, Fragment, At, ReadPhysical;
    PhysicalTorn(file, o, s, p, data, begin);
  }

  // ---------- the wanted records ----------

  function AtOrAfter(entries: seq<(ByteSeq, nat)>, o: nat): seq<(ByteSeq, nat)> {
    if entries == [] then []
    else if entries[0].1 >= o then [entries[0]] + AtOrAfter(entries[1..], o)
    else AtOrAfter(entries[1..], o)
  }

  /** The entries a reader with initial offset o should return. */
  function Wanted(p: nat, records: seq<ByteSeq>, o: nat): seq<(ByteSeq, nat)> {
    AtOrAfter(Entries(p, records), o)
  }

  lemma WantedFirst(p: nat, records: seq<ByteSeq>, o: nat)
    ensures records == [] ==> Wanted(p, records, o) == []
    ensures records != [] ==>
      var rest := Wanted(p + |Layout(p, records[0], true)|, records[1..], o);
      Wanted(p, records, o) == if HeaderPos(p) >= o then [(records[0], HeaderPos(p))] + rest else rest
  {
    hide Layout, HeaderPos;
    if records != [] {
      EntriesFirst(p, records);
      assert Entries(p, records)[1..] == Entries(p + |Layout(p, records[0], true)|, records[1..]);
    }
  }

  /** The file holds the log from p on, or its beginning with the first k records complete. */
  ghost predicate Holds(file: ByteSeq, p: nat, records: seq<ByteSeq>, k: nat) {
    p <= |file| && file[p..] <= Log(p, records) && Complete(p, records, k, |file|)
  }

  lemma HoldsFirst(file: ByteSeq, p: nat, records: seq<ByteSeq>, k: nat)
    requires Holds(file, p, records, k) && records != []
    ensures var here := Layout(p, records[0], true); var next := p + |here|;
      && Meets(file, p, here) && (next <= |file| <==> k > 0) && k <= |records|
      && (k > 0 ==> records[..k] != [] && records[..k][0] == records[0] && records[..k][1..] == records[1..][..k - 1]
                    && Holds(file, next, records[1..], k - 1))
  {
    hide Layout;
    var here := Layout(p, records[0], true);
    if k > 0 {
      LogFirst(p, records, k);
      PrefixesOfOne(here, file[p..], Log(p, records));
      assert file[p + |here|..] == file[p..][|here|..];
    } else {
      assert records[..1] == [records[0]];
      assert Log(p, records[..1]) == here;
      PrefixesOfOne(file[p..], here, Log(p, records));
    }
  }

  lemma HoldsSize(file: ByteSeq, p: nat, records: seq<ByteSeq>, k: nat)
    requires Holds(file, p, records, k)
    ensures p <= |file| && k <= |records|
  {
  }

  lemma HoldsNone(file: ByteSeq, p: nat, k: nat)
    requires Holds(file, p, [], k)
    ensures p == |file| && k == 0
  {
  }

  /** ReadRecord's loop has found the next wanted record, with these reports, and the rest of the file is as it should
      be. */
  ghost predicate Delivers(file: ByteSeq, o: nat, r: Outcome, wanted: seq<(ByteSeq, nat)>, reports: seq<nat>, q: nat,
                           rest: seq<ByteSeq>, j: nat) {
    && r.found == (wanted != []) && r.reports == reports
    && (wanted != [] ==>
          && r.record == wanted[0].0 && r.s.last == wanted[0].1 >= o
          && At(file, r.s, q) && Holds(file, q, rest, j) && Wanted(q, rest[..j], o) == wanted[1..]
          && AllOrphans(q, rest, o, |file|) == [])
  }

  lemma DeliversLater(file: ByteSeq, o: nat, r: Outcome, dropped: seq<nat>, r': Outcome, wanted: seq<(ByteSeq, nat)>,
                      reports: seq<nat>, q: nat, rest: seq<ByteSeq>, j: nat)
    requires Delivers(file, o, r', wanted, reports, q, rest, j) && r == Prepend(dropped, r')
    ensures Delivers(file, o, r, wanted, dropped + reports, q, rest, j)
  {
    hide At, Holds, Wanted, AllOrphans;
  }

  lemma DeliversNothing(file: ByteSeq, o: nat, r: Outcome, q: nat, rest: seq<ByteSeq>, j: nat)
    requires !r.found
    ensures Delivers(file, o, r, [], r.reports, q, rest, j)
  {
  }

  lemma WantedNone(p: nat, o: nat)
    ensures Wanted(p, [], o) == []
  {
  }

  /** From the end of a record, ReadRecord's loop returns the next wanted record. */
  lemma {:induction false} NextWanted(file: ByteSeq, o: nat, s: State, p: nat, records: seq<ByteSeq>, k: nat)
    returns (q: nat, rest: seq<ByteSeq>, j: nat)
    requires At(file, s, p) && Holds(file, p, records, k)
    ensures Delivers(file, o, Assemble(file, o, s, NOTHING), Wanted(p, records[..k], o), AllOrphans(p, records, o, |file|), q, rest, j)
    decreases |records|
  {
    hide HeaderPos, Layout, At, Assemble, Wanted, Orphans, AllOrphans, Holds, Delivers, Complete, Entries;
    q, rest, j := p, records, k;
    if records == [] {
      HoldsNone(file, p, k);
      NoOrphansOfNone(p, o, |file|);
      WantedNone(p, o);
      assert records[..k] == [];
      EndOfFile(file, o, s, NOTHING);
      DeliversNothing(file, o, Assemble(file, o, s, NOTHING), q, rest, j);
    } else {
      HoldsFirst(file, p, records, k);
      if HeaderPos(p) >= o {
        q, rest, j := TakeWanted(file, o, s, p, records, k);
      } else {
        var t := SkipRecord(file, o, s, p, records[0], true);
        OrphansFirst(p, records, o, |file|);
        var next := p + |Layout(p, records[0], true)|;
        if k > 0 {
          WantedFirst(p, records[..k], o);
          q, rest, j := NextWanted(file, o, t, next, records[1..], k - 1);
          DeliversLater(file, o, Assemble(file, o, s, NOTHING), Orphans(p, records[0], o, |file|), Assemble(file, o, t, NOTHING),
                        Wanted(next, records[1..][..k - 1], o), AllOrphans(next, records[1..], o, |file|), q, rest, j);
        } else {
          TornNothing(p, records, k, o, next, |file|);
          AppendNothing(Orphans(p, records[0], o, |file|));
          DeliversNothing(file, o, Assemble(file, o, s, NOTHING), q, rest, j);
        }
      }
    }
  }

  lemma TornNothing(p: nat, records: seq<ByteSeq>, k: nat, o: nat, next: nat, size: nat)
    requires k == 0 && next > size && records != []
    ensures Wanted(p, records[..k], o) == [] && AllOrphans(next, records[1..], o, size) == []
  {
    hide AllOrphans;
    NoOrphansBeyond(next, records[1..], o, size);
  }

  lemma TakeWanted(file: ByteSeq, o: nat, s: State, p: nat, records: seq<ByteSeq>, k: nat)
    returns (q: nat, rest: seq<ByteSeq>, j: nat)
    requires At(file, s, p) && Holds(file, p, records, k) && records != [] && HeaderPos(p) >= o
    ensures Delivers(file, o, Assemble(file, o, s, NOTHING), Wanted(p, records[..k], o), AllOrphans(p, records, o, |file|), q, rest, j)
  {
    hide HeaderPos, Layout, At, Assemble, Wanted, Orphans, AllOrphans, Holds, Complete, Entries;
    q, rest, j := p, records, k;
    HoldsFirst(file, p, records, k);
    NoOrphansLater(p, records, o, |file|);
    var here := Layout(p, records[0], true);
    if k > 0 {
      WantedFirst(p, records[..k], o);
      StartsWith(file, p, here, here);
      var t := WholeRecord(file, o, s, p, records[0], true, NOTHING);
      assert [] + records[0] == records[0];
      q, rest, j := p + |here|, records[1..], k - 1;
      OrphansFirst(p, records, o, |file|);
    } else {
      assert records[..k] == [];
      WantedNone(p, o);
      TornRecord(file, o, s, p, records[0], true, NOTHING);
    }
  }

  lemma {:induction false} ReadWanted(file: ByteSeq, o: nat, s: State, p: nat, records: seq<ByteSeq>, k: nat)
    requires At(file, s, p) && Holds(file, p, records, k) && AllOrphans(p, records, o, |file|) == []
    requires s.last >= o
    ensures ReadAll(file, o, s) == Replay(Wanted(p, records[..k], o), [])
    decreases |Wanted(p, records[..k], o)|
  {
    hide At, Assemble, Holds, Wanted, AllOrphans;
    var q, rest, j := NextWanted(file, o, s, p, records, k);
    var r := Assemble(file, o, s, NOTHING);
    HoldsSize(file, p, records, k);
    if Wanted(p, records[..k], o) != [] {
      ReadWanted(file, o, r.s, q, rest, j);
    }
  }

  // ---------- entering at a block boundary ----------

  lemma FragmentStaysInBlock(p: nat, data: ByteSeq, begin: bool, block: nat)
    requires block % BLOCK_SIZE == 0 && HeaderPos(p) < block
    ensures p + |Fragment(p, data, begin)| <= block
  {
    hide Fragment;
    var h := HeaderPos(p);
    assert h / BLOCK_SIZE < block / BLOCK_SIZE;
  }

  lemma BlockAtHeader(p: nat, block: nat)
    requires block % BLOCK_SIZE == 0 && p <= block <= HeaderPos(p)
    ensures block == HeaderPos(p) == HeaderPos(block)
  {
  }

  lemma SameOrphans(p: nat, h: nat, data: ByteSeq, o: nat, size: nat)
    requires HeaderPos(h) == HeaderPos(p)
    ensures Orphans(h, data, o, size) == Orphans(p, data, o, size)
  {
    hide HeaderPos, Room;
  }

  /** The reader starts at a block boundary inside a record, past the record's first header. */
  lemma {:induction false} SkipTail(file: ByteSeq, o: nat, s: State, p: nat, data: ByteSeq, begin: bool) returns (t: State)
    requires Meets(file, p, Layout(p, data, begin)) && s.resyncing
    requires HeaderPos(p) < InitialBlock(o) < p + |Layout(p, data, begin)| && InitialBlock(o) <= |file| && At(file, s, InitialBlock(o))
    ensures var end := p + |Layout(p, data, begin)|;
      var reports := if InitialBlock(o) >= o then [] else Orphans(p, data, o, |file|);
      && (end <= |file| ==> At(file, t, end) && t.last == s.last
                            && Assemble(file, o, s, NOTHING) == Prepend(reports, Assemble(file, o, t, NOTHING)))
      && (end > |file| ==> var r := Assemble(file, o, s, NOTHING); !r.found && r.reports == reports)
    decreases |data|, Room(HeaderPos(p)) == 0
  {
    hide HeaderPos, FragmentLength, Fragment, Layout, At, Assemble, Room, Orphans, InitialBlock, Meets;
    var n, next, block := FragmentLength(p, |data|), p + |Fragment(p, data, begin)|, InitialBlock(o);
    LayoutStep(p, data, begin);
    AfterInitialOffset(o);
    FragmentStaysInBlock(p, data, begin, block);
    MeetsNext(file, p, data, begin);
    OrphansStep(p, data, begin, o, |file|);
    HeaderInBlock(p, o);
    if HeaderPos(next) < block {
      t := SkipTail(file, o, s, next, data[n..], false);
    } else {
      BlockAtHeader(next, block);
      SameLayout(next, block, data[n..], false);
      MeetsFromHeader(file, next, block, Layout(next, data[n..], false), Layout(block, data[n..], false));
      SameOrphans(next, block, data[n..], o, |file|);
      t := SkipRecord(file, o, s, block, data[n..], false);
    }
  }

  lemma MeetsFromHeader(file: ByteSeq, p: nat, h: nat, all: ByteSeq, part: ByteSeq)
    requires p <= h <= |file| && Meets(file, p, all) && all == Zeros(h - p) + part
    ensures Meets(file, h, part) && h + |part| == p + |all|
  {
    assert file[h..] == file[p..][h - p..];
    assert part == all[h - p..];
  }

  lemma HoldsFromHeader(file: ByteSeq, p: nat, records: seq<ByteSeq>, k: nat, o: nat, h: nat)
    requires records != [] && Holds(file, p, records, k) && p <= h <= |file| && h == HeaderPos(p) == HeaderPos(h)
    ensures Holds(file, h, records, k) && Wanted(h, records[..k], o) == Wanted(p, records[..k], o)
    ensures AllOrphans(h, records, o, |file|) == AllOrphans(p, records, o, |file|)
  {
    hide HeaderPos, Layout, Orphans, Entries;
    OrphansFromHeader(p, h, records, o, |file|);
    hide AllOrphans;
    SameBytes(p, h, records);
    assert file[h..] == file[p..][h - p..];
    SameEnd(p, h, records, k);
    SameEnd(p, h, records, k + 1);
    hide Log;
  }

  lemma OrphansFromHeader(p: nat, h: nat, records: seq<ByteSeq>, o: nat, size: nat)
    requires p <= h == HeaderPos(p) == HeaderPos(h) && records != []
    ensures AllOrphans(h, records, o, size) == AllOrphans(p, records, o, size)
  {
    hide HeaderPos, Layout, Orphans, AllOrphans;
    OrphansFirst(p, records, o, size);
    OrphansFirst(h, records, o, size);
    SameLayout(p, h, records[0], true);
    SameOrphans(p, h, records[0], o, size);
  }

  /** The first k records end in the same place, and are wanted or not alike. */
  lemma SameEnd(p: nat, h: nat, records: seq<ByteSeq>, k: nat)
    requires p <= h == HeaderPos(p)
    ensures 0 < k <= |records| ==>
      p + |Log(p, records[..k])| == h + |Log(h, records[..k])| && Entries(h, records[..k]) == Entries(p, records[..k])
  {
    hide HeaderPos, Log, Entries;
    if 0 < k <= |records| {
      SameBytes(p, h, records[..k]);
    }
  }

  /** A header before the block the reader starts in lies before the initial offset. */
  lemma BeforeInitialBlock(o: nat, h: nat)
    requires h % BLOCK_SIZE + HEADER_SIZE <= BLOCK_SIZE && h < InitialBlock(o)
    ensures h < o
  {
  }

  lemma AfterInitialOffset(o: nat)
    ensures InitialBlock(o) % BLOCK_SIZE == 0
  {
  }

  /** From the start of the initial block, where the reader is still to find the beginning of a record. */
  lemma {:induction false} FirstWanted(file: ByteSeq, o: nat, s: State, p: nat, records: seq<ByteSeq>, k: nat)
    returns (q: nat, rest: seq<ByteSeq>, j: nat)
    requires Holds(file, p, records, k) && p <= InitialBlock(o) <= |file|
    requires At(file, s, InitialBlock(o)) && s.resyncing
    ensures var reports := if InitialBlock(o) >= o then [] else AllOrphans(p, records, o, |file|);
      Delivers(file, o, Assemble(file, o, s, NOTHING), Wanted(p, records[..k], o), reports, q, rest, j)
    decreases |records|
  {
    hide HeaderPos, Layout, At, Assemble, Wanted, Orphans, AllOrphans, Holds, Delivers, Complete, Entries, InitialBlock, Meets;
    q, rest, j := p, records, k;
    var block := InitialBlock(o);
    AfterInitialOffset(o);
    if records == [] {
      HoldsNone(file, p, k);
      q, rest, j := NextWanted(file, o, s, p, records, k);
      NoOrphansOfNone(p, o, |file|);
    } else if block <= HeaderPos(p) {
      BlockAtHeader(p, block);
      HoldsFromHeader(file, p, records, k, o, block);
      HoldsSize(file, p, records, k);
      q, rest, j := NextWanted(file, o, s, block, records, k);
      if block >= o {
        NoOrphansLater(p, records, o, |file|);
      }
    } else {
      HoldsFirst(file, p, records, k);
      HeaderInBlock(p, o);
      OrphansFirst(p, records, o, |file|);
      if p + |Layout(p, records[0], true)| <= block {
        q, rest, j := WantedInLaterBlock(file, o, s, p, records, k);
      } else {
        q, rest, j := WantedBehindTail(file, o, s, p, records, k);
      }
    }
  }

  /** The first record ends before the initial block. */
  lemma WantedInLaterBlock(file: ByteSeq, o: nat, s: State, p: nat, records: seq<ByteSeq>, k: nat)
    returns (q: nat, rest: seq<ByteSeq>, j: nat)
    requires Holds(file, p, records, k) && p <= InitialBlock(o) <= |file| && records != [] && HeaderPos(p) < o
    requires At(file, s, InitialBlock(o)) && s.resyncing && p + |Layout(p, records[0], true)| <= InitialBlock(o)
    ensures var reports := if InitialBlock(o) >= o then [] else AllOrphans(p, records, o, |file|);
      Delivers(file, o, Assemble(file, o, s, NOTHING), Wanted(p, records[..k], o), reports, q, rest, j)
    decreases |records|, 0
  {
    hide HeaderPos, Layout, At, Assemble, Wanted, Orphans, AllOrphans, Holds, Delivers, Complete, Entries, InitialBlock, Meets;
    HoldsFirst(file, p, records, k);
    WantedFirst(p, records[..k], o);
    OrphansFirst(p, records, o, |file|);
    NoneBeforeBlock(p, records[0], true, o, |file|);
    AppendNothing(AllOrphans(p + |Layout(p, records[0], true)|, records[1..], o, |file|));
    q, rest, j := FirstWanted(file, o, s, p + |Layout(p, records[0], true)|, records[1..], k - 1);
  }

  /** The initial block begins within the first record. */
  lemma WantedBehindTail(file: ByteSeq, o: nat, s: State, p: nat, records: seq<ByteSeq>, k: nat)
    returns (q: nat, rest: seq<ByteSeq>, j: nat)
    requires Holds(file, p, records, k) && InitialBlock(o) <= |file| && records != [] && HeaderPos(p) < o
    requires At(file, s, InitialBlock(o)) && s.resyncing
    requires HeaderPos(p) < InitialBlock(o) < p + |Layout(p, records[0], true)|
    ensures var reports := if InitialBlock(o) >= o then [] else AllOrphans(p, records, o, |file|);
      Delivers(file, o, Assemble(file, o, s, NOTHING), Wanted(p, records[..k], o), reports, q, rest, j)
  {
    hide HeaderPos, Layout, At, Assemble, Wanted, Orphans, AllOrphans, Holds, Delivers, Complete, Entries, InitialBlock, Meets;
    q, rest, j := p, records, k;
    HoldsFirst(file, p, records, k);
    OrphansFirst(p, records, o, |file|);
    var next := p + |Layout(p, records[0], true)|;
    var t := SkipTail(file, o, s, p, records[0], true);
    var reports := if InitialBlock(o) >= o then [] else Orphans(p, records[0], o, |file|);
    AppendNothing(reports);
    if k > 0 {
      WantedFirst(p, records[..k], o);
      HeaderNotBefore(next);
      if InitialBlock(o) >= o {
        NoOrphansLater(next, records[1..], o, |file|);
      }
      q, rest, j := NextWanted(file, o, t, next, records[1..], k - 1);
      DeliversLater(file, o, Assemble(file, o, s, NOTHING), reports, Assemble(file, o, t, NOTHING),
                    Wanted(next, records[1..][..k - 1], o), AllOrphans(next, records[1..], o, |file|), q, rest, j);
    } else {
      TornNothing(p, records, k, o, next, |file|);
      DeliversNothing(file, o, Assemble(file, o, s, NOTHING), q, rest, j);
    }
  }

  // ---------- reading from an initial offset ----------

  /** The reader starts in a block that begins at o or later. */
  predicate Quiet(o: nat) {
    o % 32768 == 0 || o % 32768 > 32762
  }

  lemma QuietIs(o: nat)
    ensures Quiet(o) <==> InitialBlock(o) >= o
  {
  }

  /** A log cut short anywhere and read from any initial offset: the reader returns exactly the complete records whose
      first header is at o or later, in order, with that header's position, and reports exactly the whole fragments at or
      after o of the record that began before it; none of these if the reader starts in a block that begins at o or
      later. */
  lemma ReadTruncatedFromOffset(records: seq<ByteSeq>, t: nat, k: nat, o: nat)
    requires t <= |Log(0, records)| && t < UINT64 && Complete(0, records, k, t)
    ensures ReadAll(Log(0, records)[..t], o, Start(o))
         == Replay(Wanted(0, records[..k], o), if Quiet(o) then [] else AllOrphans(0, records, o, t))
  {
    var file := Log(0, records)[..t];
    QuietIs(o);
    assert file[0..] == file && |file| == t;
    assert Holds(file, 0, records, k);
    assert k <= |records|;
    if o == 0 {
      StartAtZero(file);
      hide *;
      NoOrphansLater(0, records, o, t);
      ReadWanted(file, 0, Start(0), 0, records, k);
    } else {
      hide *;
      ReadFromBlock(file, records, k, o);
    }
  }

  lemma ReadFromBlock(file: ByteSeq, records: seq<ByteSeq>, k: nat, o: nat)
    requires o > 0 && |file| < UINT64 && Holds(file, 0, records, k) && k <= |records|
    ensures ReadAll(file, o, Start(o))
         == Replay(Wanted(0, records[..k], o), if InitialBlock(o) >= o then [] else AllOrphans(0, records, o, |file|))
  {
    var s := Start(o);
    var u := SkipToInitial(o, s);
    ReadAllUnfolds(file, o, s, u);
    assert u.resyncing;
    if InitialBlock(o) <= |file| {
      AtInitialBlock(file, o);
      hide *;
      var q, rest, j := FirstWanted(file, o, u, 0, records, k);
      ReadOnFrom(file, o, s, Assemble(file, o, u, NOTHING), Wanted(0, records[..k], o),
                 if InitialBlock(o) >= o then [] else AllOrphans(0, records, o, |file|), q, rest, j);
    } else {
      NothingThere(file, o);
      hide *;
      AllNoneBeforeBlock(0, records, o, |file|);
      HoldsWithin(file, records, k);
      NoneWanted(0, records[..k], o);
    }
  }

  lemma HoldsWithin(file: ByteSeq, records: seq<ByteSeq>, k: nat)
    requires Holds(file, 0, records, k) && k <= |records|
    ensures |Log(0, records[..k])| <= |file|
  {
  }

  /** The first ReadRecord, and those after it. */
  lemma ReadAllUnfolds(file: ByteSeq, o: nat, s: State, u: State)
    requires s == Start(o) && o > 0 && u == SkipToInitial(o, s)
    ensures var r := Assemble(file, o, u, NOTHING);
      ReadAll(file, o, s) ==
        if !r.found then Replay([], r.reports)
        else var rest := ReadAll(file, o, r.s); Replay([(r.record, r.s.last)] + rest.records, r.reports + rest.reports)
  {
    hide Assemble;
    assert ReadRecordSpec(file, o, s) == Assemble(file, o, u, NOTHING);
  }

  lemma ReadOnFrom(file: ByteSeq, o: nat, s: State, r: Outcome, wanted: seq<(ByteSeq, nat)>, reports: seq<nat>, q: nat,
                   rest: seq<ByteSeq>, j: nat)
    requires Delivers(file, o, r, wanted, reports, q, rest, j)
    requires ReadAll(file, o, s) ==
      if !r.found then Replay([], r.reports)
      else var rest := ReadAll(file, o, r.s); Replay([(r.record, r.s.last)] + rest.records, r.reports + rest.reports)
    ensures ReadAll(file, o, s) == Replay(wanted, reports)
  {
    hide At, Holds, Wanted, AllOrphans, ReadAll;
    if wanted != [] {
      HoldsSize(file, q, rest, j);
      ReadWanted(file, o, r.s, q, rest, j);
      AppendNothing(reports);
    }
  }

  /** The whole log. */
  lemma ReadFromOffset(records: seq<ByteSeq>, o: nat)
    requires |Log(0, records)| < UINT64
    ensures ReadAll(Log(0, records), o, Start(o))
         == Replay(Wanted(0, records, o), if Quiet(o) then [] else AllOrphans(0, records, o, |Log(0, records)|))
  {
    hide Log, ReadAll, Wanted, AllOrphans, Quiet;
    var file := Log(0, records);
    assert records[..|records|] == records && file[..|file|] == file;
    ReadTruncatedFromOffset(records, |file|, |records|, o);
  }

  lemma AtInitialBlock(file: ByteSeq, o: nat)
    requires InitialBlock(o) <= |file| < UINT64
    ensures At(file, SkipToInitial(o, Start(o)), InitialBlock(o))
  {
  }

  lemma NothingThere(file: ByteSeq, o: nat)
    requires InitialBlock(o) > |file|
    ensures var r := Assemble(file, o, SkipToInitial(o, Start(o)), NOTHING); !r.found && r.reports == []
  {
    hide InitialBlock, ReadPhysical;
    NoBlock(file, o, SkipToInitial(o, Start(o)));
  }

  lemma NoBlock(file: ByteSeq, o: nat, s: State)
    requires s.filePos > |file| && s.buffer == []
    ensures var r := ReadPhysical(file, o, s); r.rtype == EOF && r.reports == []
  {
    hide ParseHeader;
    if !s.eof {
      var t := Load(file, s);
      assert ReadPhysical(file, o, s) == ReadPhysical(file, o, t);
    }
  }

  lemma {:induction false} NoneWanted(p: nat, records: seq<ByteSeq>, o: nat)
    requires InitialBlock(o) > p + |Log(p, records)|
    ensures Wanted(p, records, o) == []
    decreases |records|
  {
    hide HeaderPos, Layout, InitialBlock, Wanted;
    WantedFirst(p, records, o);
    if records != [] {
      BeforeInitialBlock(o, HeaderPos(p));
      NoneWanted(p + |Layout(p, records[0], true)|, records[1..], o);
    }
  }

  // ---------- end to end ----------

  /** Write, reopening at will; lose everything after the first t bytes; read from an initial offset. */
  method CrashAndReadFrom(records: seq<ByteSeq>, reopen: seq<bool>, t: nat, o: nat)
    returns (survivors: seq<(ByteSeq, nat)>, reports: seq<nat>, ghost k: nat)
    requires |reopen| == |records| && t <= |Log(0, records)| && t < UINT64
    ensures Complete(0, records, k, t) && survivors == Wanted(0, records[..k], o)
    ensures reports == if Quiet(o) then [] else AllOrphans(0, records, o, t)
  {
    hide LogReader.Assemble, ReadAll, Wanted, AllOrphans, Quiet, Log;
    var contents := LogWriter.WriteAll(records, reopen);
    k := SomeComplete(0, records, t);
    ReadTruncatedFromOffset(records, t, k, o);
    survivors, reports := ReadFile(contents[..t], o);
  }
}

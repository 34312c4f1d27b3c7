/** Logs that a writer has continued after a crash: the file ends anywhere in a record, and a writer goes on at its
    length. */
module LogReopen {
  import opened Bytes
  import opened LogFormat
  import opened LogReader
  import opened LogRecovery
  import opened LogMixed
  import LogWriter

  // ---------- a log continued after a crash ----------

  /** Position t lies between two fragments of the record, or in the trailer before one. */
  ghost predicate Between(p: nat, data: ByteSeq, begin: bool, t: nat)
    decreases |data|, Room(HeaderPos(p)) == 0
  {
    var n, next := FragmentLength(p, |data|), p + |Fragment(p, data, begin)|;
    EmptyFragment(p, |data|);
    p <= t && (t <= HeaderPos(p) || (n < |data| && Between(next, data[n..], false, t)))
  }

  /** What the fragments before t hold. */
  ghost function Gathered(p: nat, data: ByteSeq, begin: bool, t: nat): ByteSeq
    requires Between(p, data, begin, t)
    decreases |data|, Room(HeaderPos(p)) == 0
  {
    var n, next := FragmentLength(p, |data|), p + |Fragment(p, data, begin)|;
    EmptyFragment(p, |data|);
    if t <= HeaderPos(p) then [] else data[..n] + Gathered(next, data[n..], false, t)
  }

  /** A record that begins while a fragment is open: the open one is reported, and all else is as if there had been
      none. */
  lemma BeginWhileOpen(file: ByteSeq, s: State, p: nat, data: ByteSeq, a: Assembly)
    requires p <= |file| && At(file, s, p) && Layout(p, data, true) <= file[p..]
    ensures Assemble(file, 0, s, a) ==
      Prepend(if a.open && a.scratch != [] then [|a.scratch|] else [], Assemble(file, 0, s, NOTHING))
  {
    hide *;
    FirstFragment(file, p, data);
    BeginsHere(file, s, p, data);
    AssembleBegin(file, s, a);
  }

  lemma FirstFragment(file: ByteSeq, p: nat, data: ByteSeq)
    requires p <= |file| && Layout(p, data, true) <= file[p..]
    ensures Fragment(p, data, true) <= file[p..]
  {
    hide HeaderPos, FragmentLength, Fragment, Layout;
    LayoutStep(p, data, true);
  }

  predicate Begins(ph: Physical) {
    ph.rtype == FULL_TYPE || ph.rtype == FIRST_TYPE
  }

  lemma BeginsHere(file: ByteSeq, s: State, p: nat, data: ByteSeq)
    requires p <= |file| && At(file, s, p) && Fragment(p, data, true) <= file[p..]
    ensures var ph := ReadPhysical(file, 0, s); Begins(ph) && ph.reports == []
  {
    hide At, HeaderPos, FragmentLength, Fragment, ReadPhysical, FragmentType;
    var u := PhysicalWhole(file, 0, s, p, data, true);
    BeginKind(FragmentLength(p, |data|) == |data|);
  }

  lemma AssembleBegin(file: ByteSeq, s: State, a: Assembly)
    requires Begins(ReadPhysical(file, 0, s)) && ReadPhysical(file, 0, s).reports == []
    ensures Assemble(file, 0, s, a) ==
      Prepend(if a.open && a.scratch != [] then [|a.scratch|] else [], Assemble(file, 0, s, NOTHING))
  {
    hide ReadPhysical, Dispatch;
    DispatchBegin(ReadPhysical(file, 0, s), a);
  }

  lemma BeginKind(end: bool)
    ensures FragmentType(true, end) == FULL_TYPE || FragmentType(true, end) == FIRST_TYPE
  {
  }

  lemma DispatchBegin(ph: Physical, a: Assembly)
    requires Begins(ph)
    ensures var dropped := if a.open && a.scratch != [] then [|a.scratch|] else [];
      match Dispatch(0, ph, NOTHING)
      case Return(o) => o.reports == [] && Dispatch(0, ph, a) == Return(o.(reports := dropped))
      case Continue(s, b, reports) => reports == [] && Dispatch(0, ph, a) == Continue(s, b, dropped)
  {
  }

  /** A torn record, then a log: the reader comes to the log with the fragments so far. */
  lemma {:induction false} ReadTorn(file: ByteSeq, s: State, p: nat, data: ByteSeq, begin: bool, a: Assembly, t: nat,
                                    more: seq<ByteSeq>) returns (u: State, q: nat, b: Assembly)
    requires more != [] && t <= |file| < UINT64 && file[t..] == Log(t, more)
    requires Between(p, data, begin, t) && file[p..t] <= Layout(p, data, begin)
    requires At(file, s, p) && a.open == !begin && (if begin then a == NOTHING else !s.resyncing)
    ensures q <= |file| && At(file, u, q) && file[q..] == Log(q, more) && Entries(q, more) == Entries(t, more)
    ensures Assemble(file, 0, s, a) == Assemble(file, 0, u, b)
    ensures b.scratch == a.scratch + Gathered(p, data, begin, t) && (b.open || b == NOTHING)
    decreases |data|, Room(HeaderPos(p)) == 0
  {
    hide At, HeaderPos, FragmentLength, Fragment, Layout, Assemble, Log, Entries, Room;
    if t <= HeaderPos(p) {
      u, q, b := s, p, a;
      SameBytes(p, t, more);
      TrailerBefore(file, p, data, begin, t);
    } else {
      var n, here := FragmentLength(p, |data|), Fragment(p, data, begin);
      LayoutStep(p, data, begin);
      BetweenLater(p + |here|, data[n..], t);
      assert file[p..t][..|here|] == file[p..][..|here|];
      var v := AssembleFragment(file, 0, s, p, data, begin, a);
      assert file[p + |here|..t] == file[p..t][|here|..];
      u, q, b := ReadTorn(file, v, p + |here|, data[n..], false, Grow(p, data, begin, a), t, more);
    }
  }

  lemma BetweenLater(p: nat, data: ByteSeq, t: nat)
    requires Between(p, data, false, t)
    ensures p <= t
  {
  }

  lemma TrailerBefore(file: ByteSeq, p: nat, data: ByteSeq, begin: bool, t: nat)
    requires p <= t <= |file| && t <= HeaderPos(p) && file[p..t] <= Layout(p, data, begin)
    ensures file[p..] == Zeros(t - p) + file[t..]
  {
    hide HeaderPos, Layout, FragmentLength, Header;
    LayoutStep(p, data, begin);
    var here := Fragment(p, data, begin);
    assert forall i :: 0 <= i < t - p ==> file[p..t][i] == Layout(p, data, begin)[i] == here[i] == 0;
  }

  /** A record torn between fragments, or in a trailer, and then a new log. */
  lemma ReadTornThenLog(file: ByteSeq, s: State, p: nat, data: ByteSeq, t: nat, more: seq<ByteSeq>)
    requires more != [] && t <= |file| < UINT64 && file[t..] == Log(t, more)
    requires Between(p, data, true, t) && file[p..t] <= Layout(p, data, true)
    requires At(file, s, p)
    ensures var lost := Gathered(p, data, true, t);
      ReadAll(file, 0, s) == Replay(Entries(t, more), if lost == [] then [] else [|lost|])
  {
    assert NOTHING == Assembly(false, [], 0);
    hide *;
    var u, q, b := ReadTorn(file, s, p, data, true, NOTHING, t, more);
    LogBegins(file, q, more);
    BeginWhileOpen(file, u, q, more[0], b);
    FromNothing(file, s, u, b, Gathered(p, data, true, t));
    ReadLastLog(file, u, q, more);
  }

  lemma LogBegins(file: ByteSeq, q: nat, records: seq<ByteSeq>)
    requires q <= |file| && records != [] && file[q..] == Log(q, records)
    ensures Layout(q, records[0], true) <= file[q..]
  {
    hide Layout;
  }

  lemma FromNothing(file: ByteSeq, s: State, u: State, b: Assembly, lost: ByteSeq)
    requires Assemble(file, 0, s, NOTHING) == Assemble(file, 0, u, b)
    requires Assemble(file, 0, u, b) == Prepend(if b.open && b.scratch != [] then [|b.scratch|] else [], Assemble(file, 0, u, NOTHING))
    requires b.scratch == NOTHING.scratch + lost && (b.open || b == NOTHING)
    ensures ReadAll(file, 0, s)
         == Replay(ReadAll(file, 0, u).records, (if lost == [] then [] else [|lost|]) + ReadAll(file, 0, u).reports)
  {
    hide Assemble, ReadAll;
    assert [] + lost == lost;
    DropFirst(file, s, u, if lost == [] then [] else [|lost|]);
  }

  /** After a crash between two fragments a writer goes on at the length of the file.  The reader returns the old
      records that are complete and all the new ones; the torn record's fragments are reported. */
  lemma ReopenAfterCrash(written: seq<ByteSeq>, t: nat, k: nat, more: seq<ByteSeq>)
    requires t <= |Log(0, written)| && t + |Log(t, more)| < UINT64 && Complete(0, written, k, t) && more != []
    requires k < |written| && Between(|Log(0, written[..k])|, written[k], true, t)
    ensures var lost := Gathered(|Log(0, written[..k])|, written[k], true, t);
      ReadAll(Log(0, written)[..t] + Log(t, more), 0, Start(0))
        == Replay(Entries(0, written[..k]) + Entries(t, more), if lost == [] then [] else [|lost|])
  {
    var p, file := |Log(0, written[..k])|, Log(0, written)[..t] + Log(t, more);
    TornParts(written, t, k, more);
    hide *;
    var s := ReadFirstLog(file, written[..k]);
    ReadTornThenLog(file, s, p, written[k], t, more);
  }

  /** A writer on an existing file, given its length. */
  method WriteOn(contents: ByteSeq, records: seq<ByteSeq>) returns (result: ByteSeq)
    ensures result == contents + Log(|contents|, records)
  {
    hide Layout, Log;
    var w := new LogWriter.Writer.Reopen(contents);
    assert records[..0] == [];
    LogUnfolds(|contents|, []);
    for i := 0 to |records|
      invariant fresh(w) && w.Valid()
      invariant w.dest == contents + Log(|contents|, records[..i])
    {
      w.AddRecord(records[i]);
      SplitAt(records, i);
      LogConcat(|contents|, records[..i], [records[i]]);
      OneRecordLog(|contents| + |Log(|contents|, records[..i])|, records[i]);
      Associative(contents, Log(|contents|, records[..i]), Layout(|contents| + |Log(|contents|, records[..i])|, records[i], true));
    }
    assert records[..|records|] == records;
    result := w.dest;
  }

  lemma TornParts(written: seq<ByteSeq>, t: nat, k: nat, more: seq<ByteSeq>)
    requires t <= |Log(0, written)| && Complete(0, written, k, t) && k < |written|
    ensures var p, file := |Log(0, written[..k])|, Log(0, written)[..t] + Log(t, more);
      && p <= t <= |file| == t + |Log(t, more)| && file[t..] == Log(t, more)
      && Log(0, written[..k]) <= file[0..] && file[p..t] <= Layout(p, written[k], true)
  {
    hide Layout;
    LogSplits(written, k);
    hide Log, Layout;
    var p := |Log(0, written[..k])|;
    Cut(Log(0, written[..k]), Layout(p, written[k], true), Log(p, written[k..]), Log(0, written), Log(t, more), t);
  }

  lemma LogSplits(records: seq<ByteSeq>, k: nat)
    requires k < |records|
    ensures var p := |Log(0, records[..k])|; var here := Layout(p, records[k], true);
      && Log(0, records) == Log(0, records[..k]) + Log(p, records[k..])
      && here <= Log(p, records[k..]) && |Log(0, records[..k + 1])| == p + |here|
  {
    hide *;
    var p := |Log(0, records[..k])|;
    SplitAt(records, k);
    LogConcat(0, records[..k], records[k..]);
    LogConcat(0, records[..k], [records[k]]);
    FirstOfLog(p, records[k..]);
    OneRecordLog(p, records[k]);
  }

  lemma SplitAt<T>(q: seq<T>, k: nat)
    requires k < |q|
    ensures q == q[..k] + q[k..] && q[..k + 1] == q[..k] + [q[k]] && q[k..] != [] && q[k..][0] == q[k]
  {
  }

  lemma FirstOfLog(p: nat, records: seq<ByteSeq>)
    requires records != []
    ensures Layout(p, records[0], true) <= Log(p, records)
  {
    hide Layout;
  }

  lemma OneRecordLog(p: nat, data: ByteSeq)
    ensures Log(p, [data]) == Layout(p, data, true)
  {
    hide Layout;
  }

  lemma Cut(a: ByteSeq, b: ByteSeq, rest: ByteSeq, whole: ByteSeq, tail: ByteSeq, t: nat)
    requires whole == a + rest && b <= rest && |a| <= t < |a| + |b|
    ensures t <= |whole| && |whole[..t] + tail| == t + |tail| && (whole[..t] + tail)[t..] == tail
    ensures a <= (whole[..t] + tail)[0..] && (whole[..t] + tail)[|a|..t] <= b
  {
    var file := whole[..t] + tail;
    assert forall i :: 0 <= i < |a| ==> file[i] == whole[i] == a[i];
    assert forall i :: |a| <= i < t ==> file[i] == whole[i] == rest[i - |a|] == b[i - |a|];
  }

  // ---------- the fragment in which the file ends ----------

  /** Position t lies in the payload of the record's last fragment. */
  ghost predicate InLastPayload(p: nat, data: ByteSeq, begin: bool, t: nat)
    decreases |data|, Room(HeaderPos(p)) == 0
  {
    var n, next := FragmentLength(p, |data|), p + |Fragment(p, data, begin)|;
    EmptyFragment(p, |data|);
    if n < |data| then InLastPayload(next, data[n..], false, t) else HeaderPos(p) + HEADER_SIZE <= t < next
  }

  /** The end of the block of t. */
  function BlockEnd(t: nat): nat {
    t - t % BLOCK_SIZE + BLOCK_SIZE
  }

  lemma SameBlock(h: nat, t: nat)
    requires h <= t < h + BLOCK_SIZE - h % BLOCK_SIZE
    ensures BlockEnd(t) == h + BLOCK_SIZE - h % BLOCK_SIZE == BlockEnd(h)
  {
    assert t == h / BLOCK_SIZE * BLOCK_SIZE + (h % BLOCK_SIZE + (t - h));
  }

  lemma FragmentEnds(p: nat, data: ByteSeq, begin: bool)
    ensures var end := p + |Fragment(p, data, begin)|;
      end == HeaderPos(p) + HEADER_SIZE + FragmentLength(p, |data|) <= BlockEnd(HeaderPos(p))
  {
  }

  lemma {:induction false} LastPayloadEnds(p: nat, data: ByteSeq, begin: bool, t: nat)
    requires InLastPayload(p, data, begin, t)
    ensures HeaderPos(p) + HEADER_SIZE <= t < p + |Layout(p, data, begin)| <= BlockEnd(t)
    decreases |data|, Room(HeaderPos(p)) == 0
  {
    var n, next := FragmentLength(p, |data|), p + |Fragment(p, data, begin)|;
    hide HeaderPos, FragmentLength, Layout, Fragment, Room, BlockEnd;
    LayoutStep(p, data, begin);
    FragmentEnds(p, data, begin);
    if n < |data| {
      LastPayloadEnds(next, data[n..], false, t);
      HeaderNotBefore(next);
    } else {
      SameBlockEnd(HeaderPos(p), t);
    }
  }

  lemma SameBlockEnd(h: nat, t: nat)
    requires h <= t < BlockEnd(h)
    ensures BlockEnd(t) == BlockEnd(h)
  {
    SameBlock(h, t);
  }

  /** The reader comes to the fragment in which the old bytes end. */
  lemma {:induction false} ToTorn(file: ByteSeq, s: State, p: nat, data: ByteSeq, begin: bool, a: Assembly, t: nat)
    returns (u: State, q: nat, rest: ByteSeq, first: bool, b: Assembly)
    requires p <= t <= |file| && t < p + |Layout(p, data, begin)| && file[p..t] <= Layout(p, data, begin)
    requires At(file, s, p) && a.open == !begin && (if begin then a == NOTHING else !s.resyncing && a.start < t)
    ensures q <= t < q + |Fragment(q, rest, first)| && file[q..t] <= Fragment(q, rest, first)
    ensures At(file, u, q) && b.open == !first && (if first then b == NOTHING else !u.resyncing && b.start < t)
    ensures Assemble(file, 0, s, a) == Assemble(file, 0, u, b)
    ensures Between(p, data, begin, t) <==> t <= HeaderPos(q)
    ensures InLastPayload(p, data, begin, t) <==> FragmentLength(q, |rest|) == |rest| && HeaderPos(q) + HEADER_SIZE <= t
    decreases |data|, Room(HeaderPos(p)) == 0
  {
    hide At, HeaderPos, FragmentLength, Fragment, Layout, Assemble, Room;
    var n, here := FragmentLength(p, |data|), Fragment(p, data, begin);
    LayoutStep(p, data, begin);
    NotYet(p, data, begin, t);
    if t < p + |here| {
      u, q, rest, first, b := s, p, data, begin, a;
      assert |file[p..t]| < |here|;
      PrefixesOfOne(file[p..t], here, Layout(p, data, begin));
    } else {
      assert file[p..t][..|here|] == file[p..][..|here|];
      var v := AssembleFragment(file, 0, s, p, data, begin, a);
      assert file[p + |here|..t] == file[p..t][|here|..];
      HeaderBefore(p, data, begin);
      u, q, rest, first, b := ToTorn(file, v, p + |here|, data[n..], false, Grow(p, data, begin, a), t);
    }
  }

  lemma HeaderBefore(p: nat, data: ByteSeq, begin: bool)
    ensures HeaderPos(p) < p + |Fragment(p, data, begin)|
  {
  }

  /** Before the end of a fragment neither of the two conditions looks beyond it. */
  lemma NotYet(p: nat, data: ByteSeq, begin: bool, t: nat)
    requires p <= t
    ensures var n, next := FragmentLength(p, |data|), p + |Fragment(p, data, begin)|;
      && (t < next ==>
            && (Between(p, data, begin, t) <==> t <= HeaderPos(p))
            && (InLastPayload(p, data, begin, t) <==> n == |data| && HeaderPos(p) + HEADER_SIZE <= t))
      && (t >= next && n < |data| ==>
            && Between(p, data, begin, t) == Between(next, data[n..], false, t)
            && InLastPayload(p, data, begin, t) == InLastPayload(next, data[n..], false, t))
  {
    hide Layout;
    var n, next := FragmentLength(p, |data|), p + |Fragment(p, data, begin)|;
    HeaderBefore(p, data, begin);
    EmptyFragment(p, |data|);
    hide HeaderPos, Fragment, FragmentLength, Room;
    if n < |data| && t < next {
      HeaderNotBefore(next);
      if InLastPayload(next, data[n..], false, t) {
        LastPayloadEnds(next, data[n..], false, t);
      }
    }
  }

  // ---------- the reader never goes back ----------

  /** The reader has consumed the file up to Pos(s), on any bytes. */
  predicate Sane(file: ByteSeq, s: State) {
    s.end == s.filePos <= |file| < UINT64 && |s.buffer| <= s.end
  }

  function Pos(s: State): int {
    s.end - |s.buffer|
  }

  /** Where DispatchRecord takes the header of a physical record to be. */
  function HeaderOf(ph: Physical): nat {
    Sub(ph.s.end, |ph.s.buffer| + HEADER_SIZE + |ph.fragment|)
  }

  lemma ParseOnward(file: ByteSeq, s: State)
    requires Sane(file, s) && |s.buffer| >= HEADER_SIZE
    ensures var r := ParseHeader(0, s);
      Sane(file, r.s) && Pos(r.s) >= Pos(s) && (Begins(r) ==> HeaderOf(r) == Pos(s))
  {
  }

  lemma {:induction false} PhysicalOnward(file: ByteSeq, s: State)
    requires Sane(file, s)
    ensures var r := ReadPhysical(file, 0, s);
      Sane(file, r.s) && Pos(r.s) >= Pos(s) && (Begins(r) ==> HeaderOf(r) >= Pos(s))
    decreases if s.eof then 0 else 1 + Max(0, |file| - s.filePos)
  {
    hide ParseHeader, HeaderOf;
    if |s.buffer| >= HEADER_SIZE {
      ParseOnward(file, s);
    } else if !s.eof {
      PhysicalOnward(file, Load(file, s));
    }
  }

  /** Past t, with a fragment open that did not begin at t, the reader cannot come to a record that begins at t. */
  lemma DispatchOnward(file: ByteSeq, ph: Physical, a: Assembly, t: nat)
    requires ph.rtype == EOF || (Sane(file, ph.s) && Pos(ph.s) > t)
    requires (Begins(ph) ==> HeaderOf(ph) != t) && (a.open ==> a.start != t)
    ensures match Dispatch(0, ph, a)
      case Return(o) => o.found ==> o.s.last != t && Sane(file, o.s) && Pos(o.s) > t
      case Continue(s, b, _) => Sane(file, s) && Pos(s) > t && (b.open ==> b.start != t)
  {
    hide Drop, Sub;
  }

  lemma {:induction false} AssembleOnward(file: ByteSeq, s: State, a: Assembly, t: nat)
    requires Sane(file, s) && Pos(s) > t && (a.open ==> a.start != t)
    ensures var o := Assemble(file, 0, s, a); o.found ==> o.s.last != t && Sane(file, o.s) && Pos(o.s) > t
    decreases Unread(file, s)
  {
    var ph := ReadPhysical(file, 0, s);
    PhysicalOnward(file, s);
    DispatchOnward(file, ph, a, t);
    AssembleGoesOn(file, s, a);
    hide ReadPhysical, Dispatch, Sane, HeaderOf, Assemble;
    match Dispatch(0, ph, a)
    case Return(_) =>
    case Continue(s', a', _) =>
      AssembleOnward(file, s', a', t);
  }

  lemma AssembleGoesOn(file: ByteSeq, s: State, a: Assembly)
    ensures var ph, o := ReadPhysical(file, 0, s), Assemble(file, 0, s, a);
      match Dispatch(0, ph, a)
      case Return(r) => o.found == r.found && o.s == r.s
      case Continue(s', a', _) =>
        var r := Assemble(file, 0, s', a');
        o.found == r.found && o.s == r.s && Unread(file, s') < Unread(file, s)
  {
    hide Dispatch, ReadPhysical;
  }

  lemma {:induction false} ReadAllOnward(file: ByteSeq, s: State, t: nat)
    requires Sane(file, s) && Pos(s) > t
    ensures forall e :: e in ReadAll(file, 0, s).records ==> e.1 != t
    decreases Unread(file, s)
  {
    AssembleOnward(file, s, NOTHING, t);
    ReadAllUnfolds(file, s);
    hide Assemble, ReadAll, Sane, Pos;
    var r := ReadRecordSpec(file, 0, s);
    if r.found {
      ReadAllOnward(file, r.s, t);
    }
  }

  lemma ReadAllUnfolds(file: ByteSeq, s: State)
    ensures var r := Assemble(file, 0, s, NOTHING);
      && ReadRecordSpec(file, 0, s) == r
      && ReadAll(file, 0, s).records == if r.found then [(r.record, r.s.last)] + ReadAll(file, 0, r.s).records else []
  {
    hide Assemble;
  }

  /** In a fragment that the file ends in, past its trailer, the header the reader finds lies before t, and what it
      consumes reaches beyond t. */
  lemma TornOnward(file: ByteSeq, s: State, p: nat, data: ByteSeq, begin: bool, t: nat)
    requires At(file, s, p) && p <= t && HeaderPos(p) < t < p + |Fragment(p, data, begin)| && t + HEADER_SIZE <= |file|
    requires file[p..t] <= Fragment(p, data, begin)
    ensures var r := ReadPhysical(file, 0, s);
      && (r.rtype == EOF || (Sane(file, r.s) && Pos(r.s) > t))
      && (Begins(r) ==> HeaderOf(r) < t)
  {
    hide At, ReadPhysical, HeaderPos, Fragment, ParseHeader, HeaderOf;
    var h, n := HeaderPos(p), FragmentLength(p, |data|);
    var u := Fill(file, 0, s, p);
    SaneAt(file, u, h);
    ParseOnward(file, u);
    FragmentEnds(p, data, begin);
    if h + HEADER_SIZE <= t {
      HeaderKept(file, p, data, begin, t);
      ParsePast(file, u, h, n, FragmentType(begin, n == |data|));
    } else {
      ParsePastHeader(file, u, h);
    }
  }

  lemma SaneAt(file: ByteSeq, s: State, p: nat)
    requires At(file, s, p)
    ensures Sane(file, s) && Pos(s) == p
  {
  }

  lemma HeaderKept(file: ByteSeq, p: nat, data: ByteSeq, begin: bool, t: nat)
    requires p <= t <= |file| && file[p..t] <= Fragment(p, data, begin) && HeaderPos(p) + HEADER_SIZE <= t
    ensures var h, n := HeaderPos(p), FragmentLength(p, |data|);
      file[h..h + HEADER_SIZE] == Header(n, FragmentType(begin, n == |data|)) && h % BLOCK_SIZE + HEADER_SIZE + n <= BLOCK_SIZE
  {
    hide HeaderPos, FragmentLength, Header, FragmentType;
    var h, f := HeaderPos(p), Fragment(p, data, begin);
    PartOf(file, p, t, f, h);
  }

  lemma PartOf(file: ByteSeq, p: nat, t: nat, f: ByteSeq, h: nat)
    requires p <= h && h + HEADER_SIZE <= t <= |file| && file[p..t] <= f
    ensures file[h..h + HEADER_SIZE] == f[h - p..h - p + HEADER_SIZE]
  {
    var a, b := file[h..h + HEADER_SIZE], f[h - p..h - p + HEADER_SIZE];
    forall i | 0 <= i < HEADER_SIZE ensures a[i] == b[i] {
      assert a[i] == file[p..t][h - p + i];
    }
  }

  lemma ParsePast(file: ByteSeq, s: State, h: nat, n: nat, rtype: Byte)
    requires At(file, s, h) && |s.buffer| >= HEADER_SIZE
    requires n < 65536 && h % BLOCK_SIZE + HEADER_SIZE + n <= BLOCK_SIZE && rtype != ZERO_TYPE
    requires file[h..h + HEADER_SIZE] == Header(n, rtype)
    ensures var r := ParseHeader(0, s); r.rtype == EOF || Pos(r.s) >= h + HEADER_SIZE + n
  {
    BufferReachesBlockEnd(file, s, h);
    var header := file[h..h + HEADER_SIZE];
    assert s.buffer[..HEADER_SIZE] == header;
    assert s.buffer[4] == header[4] && s.buffer[5] == header[5] && s.buffer[6] == header[6];
    assert PayloadLength(s.buffer) == n;
  }

  lemma ParsePastHeader(file: ByteSeq, s: State, h: nat)
    requires At(file, s, h) && |s.buffer| >= HEADER_SIZE
    ensures Pos(ParseHeader(0, s).s) >= h + HEADER_SIZE
  {
  }

  /** After a crash within a header or a payload, nothing that is read begins at t. */
  lemma NothingAt(file: ByteSeq, s: State, p: nat, data: ByteSeq, t: nat)
    requires p <= t && t + HEADER_SIZE <= |file| && t < p + |Layout(p, data, true)| && file[p..t] <= Layout(p, data, true)
    requires At(file, s, p) && !Between(p, data, true, t)
    ensures forall e :: e in ReadAll(file, 0, s).records ==> e.1 != t
  {
    assert NOTHING == Assembly(false, [], 0);
    hide *;
    var u, q, rest, first, b := ToTorn(file, s, p, data, true, NOTHING, t);
    TornOnward(file, u, q, rest, first, t);
    var ph := ReadPhysical(file, 0, u);
    DispatchOnward(file, ph, b, t);
    AssembleGoesOn(file, u, b);
    match Dispatch(0, ph, b) {
      case Return(_) =>
      case Continue(v, c, _) =>
        AssembleOnward(file, v, c, t);
    }
    ReadAllUnfolds(file, s);
    var r := ReadRecordSpec(file, 0, s);
    if r.found {
      ReadAllOnward(file, r.s, t);
    }
  }

  // ---------- a crash in the last bytes of a block ----------

  /** Where fewer than seven bytes are left in the block, the new writer goes on with zeros. */
  lemma TrailerAhead(file: ByteSeq, t: nat, more: seq<ByteSeq>)
    requires t <= |file| && HeaderPos(t) != t && more != [] && file[t..] == Log(t, more)
    ensures HeaderPos(t) == BlockEnd(t) < t + HEADER_SIZE && BlockEnd(t) + HEADER_SIZE <= |file|
    ensures forall i :: t <= i < BlockEnd(t) ==> file[i] == 0
  {
    TrailerIs(t);
    hide HeaderPos, Layout, BlockEnd;
    var e := HeaderPos(t);
    SameHeader(t, e);
    LogUnfolds(e, more);
    SameBytes(t, e, more);
    forall i | t <= i < e ensures file[i] == 0 {
      assert file[i] == file[t..][i - t] == (Zeros(e - t) + Log(e, more))[i - t];
    }
  }

  lemma TrailerIs(t: nat)
    requires HeaderPos(t) != t
    ensures t < HeaderPos(t) == BlockEnd(t) < t + HEADER_SIZE
  {
  }

  /** From anywhere in the new trailer the new log is read as from t. */
  lemma InTrailer(file: ByteSeq, t: nat, q: nat, more: seq<ByteSeq>)
    requires t <= q <= HeaderPos(t) && q <= |file| && more != [] && file[t..] == Log(t, more)
    ensures file[q..] == Log(q, more) && Entries(q, more) == Entries(t, more)
  {
    hide HeaderPos, Log, Entries;
    SameBytes(t, q, more);
    assert file[q..] == file[t..][q - t..];
  }

  /** The header is cut short: the zeros make it one of type 0 with the low byte of the length, or none. */
  lemma ZeroHeader(file: ByteSeq, p: nat, data: ByteSeq, begin: bool, t: nat) returns (n: nat)
    requires p <= t <= |file| && file[p..t] <= Fragment(p, data, begin)
    requires HeaderPos(p) < t < HeaderPos(p) + HEADER_SIZE <= BlockEnd(t) < t + HEADER_SIZE && BlockEnd(t) <= |file|
    requires forall i :: t <= i < BlockEnd(t) ==> file[i] == 0
    ensures HeaderPos(p) + HEADER_SIZE + n <= BlockEnd(t) == BlockEnd(HeaderPos(p)) && n < 256
    ensures file[HeaderPos(p)..HeaderPos(p) + HEADER_SIZE] == Header(n, ZERO_TYPE)
  {
    var h, m := HeaderPos(p), FragmentLength(p, |data|);
    n := if t >= h + 5 then m else 0;
    SameBlock(h, t);
    FragmentEnds(p, data, begin);
    TornHeaderBytes(file, p, data, begin, t);
    hide HeaderPos, FragmentLength, Fragment, FragmentType, BlockEnd;
    var header, whole := file[h..h + HEADER_SIZE], Header(m, FragmentType(begin, m == |data|));
    assert m < t - h < HEADER_SIZE;
    forall i | 0 <= i < HEADER_SIZE ensures header[i] == Header(n, ZERO_TYPE)[i] {
      if i < t - h {
        assert header[i] == file[h..t][i] == whole[..t - h][i];
      }
    }
  }

  lemma TornHeaderBytes(file: ByteSeq, p: nat, data: ByteSeq, begin: bool, t: nat)
    requires p <= t <= |file| && file[p..t] <= Fragment(p, data, begin) && HeaderPos(p) < t < HeaderPos(p) + HEADER_SIZE
    ensures var h, n := HeaderPos(p), FragmentLength(p, |data|);
      file[h..t] == Header(n, FragmentType(begin, n == |data|))[..t - h]
  {
    hide HeaderPos, FragmentLength, Header, FragmentType;
    var h, n := HeaderPos(p), FragmentLength(p, |data|);
    assert file[h..t] == file[p..t][h - p..] == Fragment(p, data, begin)[h - p..t - p];
  }

  /** A header of zeros ends the block. */
  lemma ZeroRecord(file: ByteSeq, s: State, p: nat) returns (v: State)
    requires At(file, s, p) && BlockEnd(HeaderPos(p)) < |file| && HeaderPos(p) + HEADER_SIZE <= BlockEnd(HeaderPos(p))
    requires file[HeaderPos(p)..HeaderPos(p) + HEADER_SIZE] == Header(0, ZERO_TYPE)
    ensures ReadPhysical(file, 0, s) == Physical(BAD_RECORD, [], v, [])
    ensures At(file, v, BlockEnd(HeaderPos(p)))
  {
    hide HeaderPos, ReadPhysical, ParseHeader;
    var u := Fill(file, 0, s, p);
    v := ParseZero(file, u, HeaderPos(p));
  }

  lemma ParseZero(file: ByteSeq, s: State, h: nat) returns (v: State)
    requires At(file, s, h) && |s.buffer| >= HEADER_SIZE && BlockEnd(h) < |file| && h + HEADER_SIZE <= BlockEnd(h)
    requires file[h..h + HEADER_SIZE] == Header(0, ZERO_TYPE)
    ensures ParseHeader(0, s) == Physical(BAD_RECORD, [], v, []) && At(file, v, BlockEnd(h))
  {
    BufferReachesBlockEnd(file, s, h);
    var header := file[h..h + HEADER_SIZE];
    assert s.buffer[..HEADER_SIZE] == header;
    assert s.buffer[4] == header[4] && s.buffer[5] == header[5] && s.buffer[6] == header[6];
    v := s.(buffer := []);
    assert v.end == BlockEnd(h);
  }

  /** The payload is cut short: the zeros complete it. */
  lemma ZeroFilled(file: ByteSeq, p: nat, data: ByteSeq, begin: bool, t: nat) returns (filled: ByteSeq)
    requires p <= t <= |file| && file[p..t] <= Fragment(p, data, begin) && HeaderPos(p) + HEADER_SIZE <= t
    requires t < p + |Fragment(p, data, begin)| <= |file|
    requires forall i :: t <= i < p + |Fragment(p, data, begin)| ==> file[i] == 0
    ensures |filled| == |data| && Fragment(p, filled, begin) <= file[p..]
  {
    hide HeaderPos, Header, FragmentLength, FragmentType;
    var n, m := FragmentLength(p, |data|), t - HeaderPos(p) - HEADER_SIZE;
    filled := data[..m] + Zeros(n - m) + data[n..];
    var f, g := Fragment(p, data, begin), Fragment(p, filled, begin);
    forall i | 0 <= i < |g| ensures g[i] == file[p + i] {
      if i < t - p {
        assert file[p..t][i] == f[i] == g[i];
      }
    }
  }

  /** In the last bytes of a block a fragment cut short, unless it is the record's last and its header is whole, is lost
      with the rest of its record, and nothing else is. */
  lemma LostInTail(file: ByteSeq, s: State, p: nat, data: ByteSeq, begin: bool, a: Assembly, t: nat, more: seq<ByteSeq>)
    returns (v: State, q: nat, b: Assembly, reports: seq<nat>)
    requires At(file, s, p) && p <= t <= |file| && file[p..t] <= Fragment(p, data, begin)
    requires HeaderPos(p) < t < p + |Fragment(p, data, begin)|
    requires HeaderPos(t) != t && more != [] && file[t..] == Log(t, more)
    requires a.open == !begin && (!begin ==> !s.resyncing)
    requires FragmentLength(p, |data|) < |data| || t < HeaderPos(p) + HEADER_SIZE
    ensures t <= q <= HeaderPos(t) && q <= |file| && At(file, v, q)
    ensures Assemble(file, 0, s, a) == Prepend(reports, Assemble(file, 0, v, b))
  {
    hide At, HeaderPos, Fragment, FragmentLength, BlockEnd, Assemble, Log, ReadPhysical, Dispatch, Header, WholeAt, Drop;
    TrailerAhead(file, t, more);
    FragmentEnds(p, data, begin);
    SameBlockEnd(HeaderPos(p), t);
    if t < HeaderPos(p) + HEADER_SIZE {
      v, q, b, reports := LostHeader(file, s, p, data, begin, a, t);
    } else {
      var filled := ZeroFilled(file, p, data, begin, t);
      SameLength(p, data, filled, begin);
      v := AssembleFragment(file, 0, s, p, filled, begin, a);
      q, b, reports := p + |Fragment(p, filled, begin)|, Grow(p, filled, begin, a), [];
      PrependNothing(Assemble(file, 0, v, b));
    }
  }

  lemma SameLength(p: nat, data: ByteSeq, other: ByteSeq, begin: bool)
    requires |other| == |data|
    ensures |Fragment(p, other, begin)| == |Fragment(p, data, begin)|
  {
  }

  lemma LostHeader(file: ByteSeq, s: State, p: nat, data: ByteSeq, begin: bool, a: Assembly, t: nat)
    returns (v: State, q: nat, b: Assembly, reports: seq<nat>)
    requires At(file, s, p) && p <= t <= |file| && file[p..t] <= Fragment(p, data, begin)
    requires HeaderPos(p) < t < HeaderPos(p) + HEADER_SIZE <= BlockEnd(t) < t + HEADER_SIZE && BlockEnd(t) < |file|
    requires forall i :: t <= i < BlockEnd(t) ==> file[i] == 0
    ensures t <= q <= BlockEnd(t) && At(file, v, q)
    ensures Assemble(file, 0, s, a) == Prepend(reports, Assemble(file, 0, v, b))
  {
    hide At, HeaderPos, Fragment, FragmentLength, BlockEnd, ReadPhysical, Dispatch, Header, Drop;
    var n := ZeroHeader(file, p, data, begin, t);
    if n > 0 {
      SameBlockFacts(HeaderPos(p), n);
      v := ForeignRecord(file, 0, s, p, n, ZERO_TYPE, a);
      q, b := HeaderPos(p) + HEADER_SIZE + n, Assembly(false, [], a.start);
      reports := Drop(0, v, n + if a.open then |a.scratch| else 0);
    } else {
      var u := ZeroRecord(file, s, p);
      v, q := u.(resyncing := false), BlockEnd(HeaderPos(p));
      AtIgnoresRecordState(file, u, v, q);
      DispatchForeign(0, ReadPhysical(file, 0, s), a);
      b := Assembly(false, if a.open then [] else a.scratch, a.start);
      reports := if a.open then Drop(0, v, |a.scratch|) else [];
    }
  }

  lemma SameBlockFacts(h: nat, n: nat)
    requires h + HEADER_SIZE + n <= BlockEnd(h)
    ensures h % BLOCK_SIZE + HEADER_SIZE + n <= BLOCK_SIZE
  {
  }

  /** Then the new log is read as if the torn record had never been. */
  lemma ReadLostInTail(file: ByteSeq, s: State, p: nat, data: ByteSeq, t: nat, more: seq<ByteSeq>)
    requires p <= t <= |file| < UINT64 && t < p + |Layout(p, data, true)| && file[p..t] <= Layout(p, data, true)
    requires HeaderPos(t) != t && more != [] && file[t..] == Log(t, more) && At(file, s, p)
    requires !Between(p, data, true, t) && !InLastPayload(p, data, true, t)
    ensures ReadAll(file, 0, s).records == Entries(t, more)
  {
    assert NOTHING == Assembly(false, [], 0);
    hide *;
    var u, q0, rest, first, a := ToTorn(file, s, p, data, true, NOTHING, t);
    SizeAtMost(q0, rest);
    var v, q, b, reports := LostInTail(file, u, q0, rest, first, a, t, more);
    InTrailer(file, t, q, more);
    ReadOpenThenLog(file, s, v, q, b, reports, more);
  }

  lemma SizeAtMost(p: nat, data: ByteSeq)
    ensures FragmentLength(p, |data|) <= |data|
  {
  }

  lemma ReadOpenThenLog(file: ByteSeq, s: State, v: State, q: nat, b: Assembly, reports: seq<nat>, more: seq<ByteSeq>)
    requires q <= |file| && At(file, v, q) && more != [] && file[q..] == Log(q, more)
    requires Assemble(file, 0, s, NOTHING) == Prepend(reports, Assemble(file, 0, v, b))
    ensures ReadAll(file, 0, s).records == Entries(q, more)
  {
    hide At, Assemble, Log, ReadAll, Entries;
    LogBegins(file, q, more);
    BeginWhileOpen(file, v, q, more[0], b);
    var dropped := if b.open && b.scratch != [] then [|b.scratch|] else [];
    Associative(reports, dropped, Assemble(file, 0, v, NOTHING).reports);
    DropFirst(file, s, v, reports + dropped);
    ReadLastLog(file, v, q, more);
  }

  // ---------- a crash in the payload of a record's last fragment ----------

  /** Bytes of which the last ones have been replaced. */
  function Refilled(data: ByteSeq, tail: ByteSeq): ByteSeq
    requires |tail| <= |data|
  {
    data[..|data| - |tail|] + tail
  }

  lemma RefilledFacts(data: ByteSeq, n: nat, tail: ByteSeq)
    requires n + |tail| <= |data|
    ensures |Refilled(data, tail)| == |data|
    ensures Refilled(data, tail)[..n] == data[..n] && Refilled(data, tail)[n..] == Refilled(data[n..], tail)
  {
  }

  lemma RefilledBehind(head: ByteSeq, body: ByteSeq, tail: ByteSeq)
    requires |tail| <= |body|
    ensures Refilled(head + body, tail) == head + Refilled(body, tail)
  {
  }

  /** The bytes that are missing are the last of the record: replacing them there or in the layout is the same. */
  lemma {:induction false} LayoutRefilled(p: nat, data: ByteSeq, begin: bool, t: nat, tail: ByteSeq)
    requires InLastPayload(p, data, begin, t) && t + |tail| == p + |Layout(p, data, begin)|
    ensures p <= t && |tail| <= |data|
    ensures Layout(p, Refilled(data, tail), begin) == Refilled(Layout(p, data, begin), tail)
    decreases |data|, Room(HeaderPos(p)) == 0
  {
    hide HeaderPos, Layout, Fragment, FragmentLength, Room, Refilled;
    LastPayloadEnds(p, data, begin, t);
    HeaderNotBefore(p);
    var n, next := FragmentLength(p, |data|), p + |Fragment(p, data, begin)|;
    LayoutStep(p, data, begin);
    FragmentEnds(p, data, begin);
    if n < |data| {
      LaterPart(p, data, begin, t);
      LayoutRefilled(next, data[n..], false, t, tail);
      RefilledLater(p, data, begin, tail);
    } else {
      RefilledHere(p, data, begin, tail);
    }
  }

  lemma LaterPart(p: nat, data: ByteSeq, begin: bool, t: nat)
    requires InLastPayload(p, data, begin, t) && FragmentLength(p, |data|) < |data|
    ensures InLastPayload(p + |Fragment(p, data, begin)|, data[FragmentLength(p, |data|)..], false, t)
  {
  }

  lemma OneFragment(p: nat, data: ByteSeq, begin: bool)
    requires FragmentLength(p, |data|) == |data|
    ensures Layout(p, data, begin) == Zeros(HeaderPos(p) - p) + Header(|data|, FragmentType(begin, true)) + data
  {
    hide HeaderPos, Layout, FragmentLength, Header, FragmentType;
    LayoutStep(p, data, begin);
    assert data[..|data|] == data;
  }

  lemma RefilledHere(p: nat, data: ByteSeq, begin: bool, tail: ByteSeq)
    requires FragmentLength(p, |data|) == |data| && |tail| <= |data|
    ensures |tail| <= |Layout(p, data, begin)|
    ensures Layout(p, Refilled(data, tail), begin) == Refilled(Layout(p, data, begin), tail)
  {
    HeaderNotBefore(p);
    hide HeaderPos, Layout, FragmentLength, Header, FragmentType, Refilled;
    OneFragment(p, data, begin);
    RefilledFacts(data, 0, tail);
    OneFragment(p, Refilled(data, tail), begin);
    RefilledBehind(Zeros(HeaderPos(p) - p) + Header(|data|, FragmentType(begin, true)), data, tail);
  }

  lemma SameStart(p: nat, data: ByteSeq, other: ByteSeq, begin: bool)
    requires |other| == |data| && other[..FragmentLength(p, |data|)] == data[..FragmentLength(p, |data|)]
    ensures Fragment(p, other, begin) == Fragment(p, data, begin)
  {
    hide HeaderPos, FragmentLength, Header, FragmentType;
  }

  lemma RefilledLater(p: nat, data: ByteSeq, begin: bool, tail: ByteSeq)
    requires FragmentLength(p, |data|) + |tail| <= |data| && FragmentLength(p, |data|) < |data|
    requires var n, next := FragmentLength(p, |data|), p + |Fragment(p, data, begin)|;
      && |tail| <= |Layout(next, data[n..], false)|
      && Layout(next, Refilled(data[n..], tail), false) == Refilled(Layout(next, data[n..], false), tail)
    ensures |tail| <= |Layout(p, data, begin)|
    ensures Layout(p, Refilled(data, tail), begin) == Refilled(Layout(p, data, begin), tail)
  {
    hide *;
    var n := FragmentLength(p, |data|);
    RefilledFacts(data, n, tail);
    LayoutGoesOn(p, data, begin);
    LayoutGoesOn(p, Refilled(data, tail), begin);
    SameStart(p, data, Refilled(data, tail), begin);
    RefilledBehind(Fragment(p, data, begin), Layout(p + |Fragment(p, data, begin)|, data[n..], false), tail);
  }

  lemma LayoutGoesOn(p: nat, data: ByteSeq, begin: bool)
    requires FragmentLength(p, |data|) < |data|
    ensures Layout(p, data, begin) == Fragment(p, data, begin)
      + Layout(p + |Fragment(p, data, begin)|, data[FragmentLength(p, |data|)..], false)
  {
    hide Fragment, FragmentLength, HeaderPos;
    LayoutStep(p, data, begin);
  }

  lemma LastPayloadBehind(p: nat, data: ByteSeq, t: nat)
    requires InLastPayload(p, data, true, t)
    ensures HeaderPos(p) < t
  {
    hide HeaderPos, Layout;
    LastPayloadEnds(p, data, true, t);
  }

  /** The record comes back, with new bytes for the missing ones. */
  lemma ReadRefilled(file: ByteSeq, s: State, p: nat, data: ByteSeq, t: nat, tail: ByteSeq) returns (v: State)
    requires InLastPayload(p, data, true, t) && At(file, s, p) && p <= t && t + |tail| == p + |Layout(p, data, true)|
    requires t + |tail| <= |file| && file[p..t] <= Layout(p, data, true) && file[t..t + |tail|] == tail
    ensures |tail| <= |data| && HeaderPos(p) < t && At(file, v, t + |tail|)
    ensures var rest := ReadAll(file, 0, v);
      ReadAll(file, 0, s) == Replay([(Refilled(data, tail), HeaderPos(p))] + rest.records, rest.reports)
  {
    hide *;
    LayoutRefilled(p, data, true, t, tail);
    LastPayloadBehind(p, data, t);
    RefilledFacts(Layout(p, data, true), 0, tail);
    var mixed := Refilled(data, tail);
    LongerPrefix(file, p, t, Layout(p, data, true), tail);
    v := ReadWhole(file, s, p, mixed);
  }

  lemma ReadWhole(file: ByteSeq, s: State, p: nat, data: ByteSeq) returns (v: State)
    requires p <= |file| && At(file, s, p) && Layout(p, data, true) <= file[p..]
    ensures At(file, v, p + |Layout(p, data, true)|)
    ensures var rest := ReadAll(file, 0, v);
      ReadAll(file, 0, s) == Replay([(data, HeaderPos(p))] + rest.records, rest.reports)
  {
    hide At, HeaderPos, Layout, Assemble, ReadAll;
    v := WholeRecord(file, 0, s, p, data, true, NOTHING);
    assert [] + data == data;
    ReadAllNext(file, 0, s, Outcome(true, data, v, []));
  }

  lemma LongerPrefix(file: ByteSeq, p: nat, t: nat, whole: ByteSeq, tail: ByteSeq)
    requires p <= t && t + |tail| <= |file| && file[p..t] <= whole && file[t..t + |tail|] == tail
    requires |whole| == t - p + |tail|
    ensures Refilled(whole, tail) <= file[p..]
  {
    assert whole[..t - p] == file[p..t];
    assert file[p..t] + file[t..t + |tail|] == file[p..t + |tail|] == file[p..][..t + |tail| - p];
  }

  // ---------- exactly when the new log is read back ----------

  /** What the new trailer fills up is read with zeros for the missing bytes. */
  lemma ReadRefilledInTail(file: ByteSeq, s: State, p: nat, data: ByteSeq, t: nat, more: seq<ByteSeq>)
    requires p <= t <= |file| < UINT64 && t < p + |Layout(p, data, true)| && file[p..t] <= Layout(p, data, true)
    requires HeaderPos(t) != t && more != [] && file[t..] == Log(t, more) && At(file, s, p)
    requires InLastPayload(p, data, true, t)
    ensures var missing := p + |Layout(p, data, true)| - t;
      && missing <= |data|
      && ReadAll(file, 0, s).records == [(Refilled(data, Zeros(missing)), HeaderPos(p))] + Entries(t, more)
      && HeaderPos(p) < t
  {
    hide At, HeaderPos, Layout, Log, ReadAll, Entries, InLastPayload, BlockEnd;
    var missing := p + |Layout(p, data, true)| - t;
    LastPayloadEnds(p, data, true, t);
    TrailerAhead(file, t, more);
    assert file[t..t + missing] == Zeros(missing);
    var v := ReadRefilled(file, s, p, data, t, Zeros(missing));
    InTrailer(file, t, t + missing, more);
    ReadLastLog(file, v, t + missing, more);
  }

  /** The condition: the crash fell between two fragments, or in the last bytes of a block and not in the payload of
      the record's last fragment. */
  ghost predicate Clean(p: nat, data: ByteSeq, t: nat) {
    Between(p, data, true, t) || (HeaderPos(t) != t && !InLastPayload(p, data, true, t))
  }

  lemma TornExactly(file: ByteSeq, s: State, p: nat, data: ByteSeq, t: nat, more: seq<ByteSeq>)
    requires p <= t <= |file| < UINT64 && t < p + |Layout(p, data, true)| && file[p..t] <= Layout(p, data, true)
    requires more != [] && file[t..] == Log(t, more) && At(file, s, p)
    ensures ReadAll(file, 0, s).records == Entries(t, more) <==> Clean(p, data, t)
  {
    hide At, HeaderPos, Layout, Log, ReadAll, Entries, InLastPayload, Between, Gathered;
    FirstEntry(t, more);
    if Between(p, data, true, t) {
      ReadTornThenLog(file, s, p, data, t, more);
    } else if HeaderPos(t) == t {
      NothingAt(file, s, p, data, t);
      assert Entries(t, more)[0] in Entries(t, more);
    } else if InLastPayload(p, data, true, t) {
      ReadRefilledInTail(file, s, p, data, t, more);
    } else {
      ReadLostInTail(file, s, p, data, t, more);
    }
  }

  lemma FirstEntry(t: nat, more: seq<ByteSeq>)
    requires more != []
    ensures Entries(t, more) != [] && Entries(t, more)[0].1 == HeaderPos(t) >= t && |Log(t, more)| >= HEADER_SIZE
  {
    hide Layout;
  }

  /** For every log, every point t at which a crash cuts it short and every list of records that a writer reopened at t
      adds: the reader returns exactly the complete old records and all the new ones if and only if nothing was added,
      no record was torn, or the crash was a clean one. */
  lemma ReopenExactly(written: seq<ByteSeq>, t: nat, k: nat, more: seq<ByteSeq>)
    requires t <= |Log(0, written)| && t + |Log(t, more)| < UINT64 && Complete(0, written, k, t)
    ensures ReadAll(Log(0, written)[..t] + Log(t, more), 0, Start(0)).records == Entries(0, written[..k]) + Entries(t, more)
      <==> more == [] || k == |written| || Clean(|Log(0, written[..k])|, written[k], t)
  {
    assert k <= |written|;
    hide *;
    if more == [] {
      NothingAdded(written, t, k);
    } else if k == |written| {
      NothingTorn(written, t, more);
    } else {
      ReopenTorn(written, t, k, more);
    }
  }

  lemma ReopenTorn(written: seq<ByteSeq>, t: nat, k: nat, more: seq<ByteSeq>)
    requires t <= |Log(0, written)| && t + |Log(t, more)| < UINT64 && Complete(0, written, k, t)
    requires more != [] && k < |written|
    ensures ReadAll(Log(0, written)[..t] + Log(t, more), 0, Start(0)).records == Entries(0, written[..k]) + Entries(t, more)
      <==> Clean(|Log(0, written[..k])|, written[k], t)
  {
    hide *;
    var file := Log(0, written)[..t] + Log(t, more);
    TornParts(written, t, k, more);
    TornEnd(written, k, t);
    var s := ReadFirstLog(file, written[..k]);
    TornExactly(file, s, |Log(0, written[..k])|, written[k], t, more);
    SameSuffix(Entries(0, written[..k]), ReadAll(file, 0, s).records, Entries(t, more));
  }

  lemma SameSuffix<T>(a: seq<T>, b: seq<T>, c: seq<T>)
    ensures a + b == a + c <==> b == c
  {
    if a + b == a + c {
      assert b == (a + b)[|a|..] && c == (a + c)[|a|..];
    }
  }

  lemma TornEnd(written: seq<ByteSeq>, k: nat, t: nat)
    requires Complete(0, written, k, t) && k < |written|
    ensures var p := |Log(0, written[..k])|; t < p + |Layout(p, written[k], true)| == |Log(0, written[..k + 1])|
  {
    LogSplits(written, k);
  }

  lemma NothingAdded(written: seq<ByteSeq>, t: nat, k: nat)
    requires t <= |Log(0, written)| && t < UINT64 && Complete(0, written, k, t)
    ensures ReadAll(Log(0, written)[..t] + Log(t, []), 0, Start(0)).records == Entries(0, written[..k]) + Entries(t, [])
  {
    CrashRecovery(written, t, k);
    hide ReadAll;
    assert Log(0, written)[..t] + [] == Log(0, written)[..t];
    AppendNothing(Entries(0, written[..k]));
  }

  lemma NothingTorn(written: seq<ByteSeq>, t: nat, more: seq<ByteSeq>)
    requires t <= |Log(0, written)| && t + |Log(t, more)| < UINT64 && Complete(0, written, |written|, t)
    ensures ReadAll(Log(0, written)[..t] + Log(t, more), 0, Start(0)).records
         == Entries(0, written[..|written|]) + Entries(t, more)
  {
    AllThere(written, t);
    TwoParts(Log(0, written), Log(t, more));
    hide *;
    var file := Log(0, written) + Log(t, more);
    var s := ReadFirstLog(file, written);
    ReadLastLog(file, s, t, more);
  }

  lemma AllThere(written: seq<ByteSeq>, t: nat)
    requires t <= |Log(0, written)| && Complete(0, written, |written|, t)
    ensures t == |Log(0, written)| && written[..|written|] == written && Log(0, written)[..t] == Log(0, written)
  {
    assert written[..|written|] == written;
    hide Log;
  }

  lemma TwoParts(a: ByteSeq, b: ByteSeq)
    ensures a <= (a + b)[0..] && (a + b)[|a|..] == b
  {
  }

  /** In the last bytes of a block, whatever is torn: exactly the old complete records and the new ones, and between them
      the torn record with zeros for the missing bytes if the crash fell in the payload of its last fragment. */
  lemma ReopenInTrailer(written: seq<ByteSeq>, t: nat, k: nat, more: seq<ByteSeq>)
    requires t <= |Log(0, written)| && t + |Log(t, more)| < UINT64 && Complete(0, written, k, t)
    requires more != [] && k < |written| && HeaderPos(t) != t
    ensures var p, missing := |Log(0, written[..k])|, |Log(0, written[..k + 1])| - t;
      && (InLastPayload(p, written[k], true, t) ==> 0 < missing <= |written[k]|)
      && ReadAll(Log(0, written)[..t] + Log(t, more), 0, Start(0)).records ==
           Entries(0, written[..k])
           + (if InLastPayload(p, written[k], true, t) then [(Refilled(written[k], Zeros(missing)), HeaderPos(p))] else [])
           + Entries(t, more)
  {
    hide *;
    var p, data, file := |Log(0, written[..k])|, written[k], Log(0, written)[..t] + Log(t, more);
    TornParts(written, t, k, more);
    TornEnd(written, k, t);
    var s := ReadFirstLog(file, written[..k]);
    if InLastPayload(p, data, true, t) {
      ReadRefilledInTail(file, s, p, data, t, more);
      var torn := [(Refilled(data, Zeros(p + |Layout(p, data, true)| - t)), HeaderPos(p))];
      Associative(Entries(0, written[..k]), torn, Entries(t, more));
    } else {
      AppendNothing(Entries(0, written[..k]));
      TornExactly(file, s, p, data, t, more);
      CleanHere(p, data, t);
    }
  }

  lemma CleanHere(p: nat, data: ByteSeq, t: nat)
    requires HeaderPos(t) != t && !InLastPayload(p, data, true, t)
    ensures Clean(p, data, t)
  {
  }

  /** Anywhere in the payload of the last fragment: the writer does not know of the bytes that the header promises, and
      the reader takes the missing ones from the new log. */
  lemma TornPayloadSwallows(written: seq<ByteSeq>, t: nat, k: nat, more: seq<ByteSeq>)
    requires t <= |Log(0, written)| && t + |Log(t, more)| < UINT64 && Complete(0, written, k, t) && k < |written|
    requires InLastPayload(|Log(0, written[..k])|, written[k], true, t)
    requires |Log(0, written[..k + 1])| - t <= |Log(t, more)|
    ensures var p, missing := |Log(0, written[..k])|, |Log(0, written[..k + 1])| - t;
      && 0 < missing <= |written[k]|
      && Entries(0, written[..k]) + [(Refilled(written[k], Log(t, more)[..missing]), HeaderPos(p))]
           <= ReadAll(Log(0, written)[..t] + Log(t, more), 0, Start(0)).records
  {
    hide *;
    var p, data, file := |Log(0, written[..k])|, written[k], Log(0, written)[..t] + Log(t, more);
    TornParts(written, t, k, more);
    TornEnd(written, k, t);
    var tail := Log(t, more)[..p + |Layout(p, data, true)| - t];
    StartOfTail(file, t, Log(t, more), |tail|);
    var s := ReadFirstLog(file, written[..k]);
    var v := ReadRefilled(file, s, p, data, t, tail);
    var rest := ReadAll(file, 0, v).records;
    Associative(Entries(0, written[..k]), [(Refilled(data, tail), HeaderPos(p))], rest);
  }

  lemma StartOfTail(file: ByteSeq, t: nat, tail: ByteSeq, n: nat)
    requires t <= |file| && file[t..] == tail && n <= |tail|
    ensures t + n <= |file| && file[t..t + n] == tail[..n]
  {
  }

  // ---------- end to end ----------

  /** Write, reopening at will; lose everything after the first t bytes; reopen, write on; read. */
  method CrashReopenAndRead(written: seq<ByteSeq>, reopen: seq<bool>, t: nat, ghost k: nat, more: seq<ByteSeq>)
    returns (survivors: seq<(ByteSeq, nat)>, reports: seq<nat>)
    requires |reopen| == |written| && t <= |Log(0, written)| && t + |Log(t, more)| < UINT64 && Complete(0, written, k, t)
    ensures survivors == Entries(0, written[..k]) + Entries(t, more)
      <==> more == [] || k == |written| || Clean(|Log(0, written[..k])|, written[k], t)
    // After a crash between two fragments, what these hold is reported.
    ensures more != [] && k < |written| && Between(|Log(0, written[..k])|, written[k], true, t) ==>
      var lost := Gathered(|Log(0, written[..k])|, written[k], true, t); reports == if lost == [] then [] else [|lost|]
  {
    assert k <= |written|;
    hide *;
    ReopenExactly(written, t, k, more);
    if more != [] && k < |written| && Between(|Log(0, written[..k])|, written[k], true, t) {
      ReopenAfterCrash(written, t, k, more);
    }
    var contents := LogWriter.WriteAll(written, reopen);
    contents := WriteOn(contents[..t], more);
    survivors, reports := ReadFile(contents, 0);
  }
}

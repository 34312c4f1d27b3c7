/** What a log written by LogWriter gives back when read by LogReader: whole, cut short by a crash, or
    entered in the middle. */
module LogRecovery {
  import opened Bytes
  import opened LogFormat
  import opened LogReader
  import LogWriter

  /** The reader has consumed exactly the first p bytes of the file. */
  ghost predicate At(file: ByteSeq, s: State, p: nat) {
    && s.end == s.filePos <= |file| < UINT64
    && |s.buffer| <= s.end && p == s.end - |s.buffer| && s.buffer == file[p..s.end]
    && (!s.eof ==> s.end % BLOCK_SIZE == 0 && |s.buffer| <= BLOCK_SIZE)
    && (s.eof ==> s.end == |file| && |s.buffer| <= |file| % BLOCK_SIZE)
  }

  /** Only the buffer, the file position and the end-of-file flag have moved. */
  predicate SameRecordState(s: State, t: State) {
    s.last == t.last && s.resyncing == t.resyncing
  }

  // ---------- one physical record ----------

  lemma BufferReachesBlockEnd(file: ByteSeq, s: State, p: nat)
    requires At(file, s, p) && s.buffer != []
    ensures p % BLOCK_SIZE + |s.buffer| <= BLOCK_SIZE
    ensures !s.eof ==> p % BLOCK_SIZE + |s.buffer| == BLOCK_SIZE
  {
  }

  /** When the file has a header after position p, the reader gets to it. */
  lemma Fill(file: ByteSeq, o: nat, s: State, p: nat) returns (t: State)
    requires At(file, s, p) && HeaderPos(p) + HEADER_SIZE <= |file|
    ensures At(file, t, HeaderPos(p)) && |t.buffer| >= HEADER_SIZE && SameRecordState(s, t)
    ensures ReadPhysical(file, o, s) == ParseHeader(o, t)
  {
    hide ParseHeader;
    if s.buffer != [] {
      BufferReachesBlockEnd(file, s, p);
    }
    if |s.buffer| >= HEADER_SIZE {
      t := s;
    } else {
      t := Load(file, s);
    }
  }

  /** What the reader makes of a whole fragment at header position h. */
  lemma ParseWhole(file: ByteSeq, o: nat, s: State, h: nat, n: nat, rtype: Byte) returns (t: State)
    requires At(file, s, h) && |s.buffer| >= HEADER_SIZE
    requires n < 65536 && h % BLOCK_SIZE + HEADER_SIZE + n <= BLOCK_SIZE && h + HEADER_SIZE + n <= |file|
    requires file[h..h + HEADER_SIZE] == Header(n, rtype) && (rtype != ZERO_TYPE || n > 0)
    ensures At(file, t, h + HEADER_SIZE + n) && SameRecordState(s, t)
    ensures ParseHeader(o, s) == if h < o then Physical(BAD_RECORD, [], t, [])
                                 else Physical(rtype, file[h + HEADER_SIZE..h + HEADER_SIZE + n], t, [])
  {
    BufferReachesBlockEnd(file, s, h);
    var header := file[h..h + HEADER_SIZE];
    assert s.buffer[..HEADER_SIZE] == header;
    assert s.buffer[4] == header[4] && s.buffer[5] == header[5] && s.buffer[6] == header[6];
    assert PayloadLength(s.buffer) == n;
    t := s.(buffer := s.buffer[HEADER_SIZE + n..]);
    assert s.buffer[HEADER_SIZE..HEADER_SIZE + n] == file[h + HEADER_SIZE..h + HEADER_SIZE + n];
    assert t.end - (|t.buffer| + HEADER_SIZE + n) == h;
  }

  /** The reader meets a whole fragment. */
  lemma PhysicalWhole(file: ByteSeq, o: nat, s: State, p: nat, data: ByteSeq, begin: bool) returns (t: State)
    requires p <= |file| && At(file, s, p) && Fragment(p, data, begin) <= file[p..]
    ensures At(file, t, p + |Fragment(p, data, begin)|) && SameRecordState(s, t)
    ensures var n := FragmentLength(p, |data|);
      ReadPhysical(file, o, s) == if HeaderPos(p) < o then Physical(BAD_RECORD, [], t, [])
                                  else Physical(FragmentType(begin, n == |data|), data[..n], t, [])
  {
    hide ParseHeader, ReadPhysical, At;
    var h, n := HeaderPos(p), FragmentLength(p, |data|);
    FragmentParts(file, p, data, begin);
    var u := Fill(file, o, s, p);
    t := ParseWhole(file, o, u, h, n, FragmentType(begin, n == |data|));
  }

  lemma FragmentParts(file: ByteSeq, p: nat, data: ByteSeq, begin: bool)
    requires p <= |file| && Fragment(p, data, begin) <= file[p..]
    ensures var h, n := HeaderPos(p), FragmentLength(p, |data|);
      && h + HEADER_SIZE + n <= |file| && h % BLOCK_SIZE + HEADER_SIZE + n <= BLOCK_SIZE
      && file[h..h + HEADER_SIZE] == Header(n, FragmentType(begin, n == |data|))
      && file[h + HEADER_SIZE..h + HEADER_SIZE + n] == data[..n]
  {
    hide HeaderPos, FragmentLength, Header, FragmentType;
    var h, n := HeaderPos(p), FragmentLength(p, |data|);
    var f, d := Fragment(p, data, begin), h - p;
    assert file[h..h + HEADER_SIZE] == f[d..d + HEADER_SIZE];
    assert file[h + HEADER_SIZE..h + HEADER_SIZE + n] == f[d + HEADER_SIZE..];
  }

  /** A reader at the end of the file, with nothing left. */
  predicate Ended(s: State) {
    s.eof && s.buffer == []
  }

  /** The file ends inside a fragment: the reader sees the end of the file and reports nothing. */
  lemma PhysicalTorn(file: ByteSeq, o: nat, s: State, p: nat, data: ByteSeq, begin: bool)
    requires p <= |file| && At(file, s, p)
    requires file[p..] <= Fragment(p, data, begin) && |file| - p < |Fragment(p, data, begin)|
    ensures var r := ReadPhysical(file, o, s); r.rtype == EOF && r.reports == [] && Ended(r.s)
  {
    var h, n := HeaderPos(p), FragmentLength(p, |data|);
    if h + HEADER_SIZE <= |file| {
      hide At, ReadPhysical, Fragment, HeaderPos;
      TornHeader(file, p, data, begin);
      var u := Fill(file, o, s, p);
      ParseTorn(file, o, u, h, n, FragmentType(begin, n == |data|));
    } else {
      NoHeader(file, o, s, p);
    }
  }

  lemma TornHeader(file: ByteSeq, p: nat, data: ByteSeq, begin: bool)
    requires p <= |file| && file[p..] <= Fragment(p, data, begin) && HeaderPos(p) + HEADER_SIZE <= |file|
    ensures var h, n := HeaderPos(p), FragmentLength(p, |data|);
      file[h..h + HEADER_SIZE] == Header(n, FragmentType(begin, n == |data|)) && h % BLOCK_SIZE + HEADER_SIZE + n <= BLOCK_SIZE
  {
    hide HeaderPos, FragmentLength, Header, FragmentType;
    var h, f := HeaderPos(p), Fragment(p, data, begin);
    assert file[h..h + HEADER_SIZE] == f[h - p..h - p + HEADER_SIZE];
  }

  lemma ParseTorn(file: ByteSeq, o: nat, s: State, h: nat, n: nat, rtype: Byte)
    requires At(file, s, h) && |s.buffer| >= HEADER_SIZE
    requires n < 65536 && h % BLOCK_SIZE + HEADER_SIZE + n <= BLOCK_SIZE && |file| < h + HEADER_SIZE + n
    requires file[h..h + HEADER_SIZE] == Header(n, rtype)
    ensures var r := ParseHeader(o, s); r.rtype == EOF && r.reports == [] && Ended(r.s)
  {
    BufferReachesBlockEnd(file, s, h);
    var header := file[h..h + HEADER_SIZE];
    assert s.buffer[..HEADER_SIZE] == header;
    assert s.buffer[4] == header[4] && s.buffer[5] == header[5];
    assert PayloadLength(s.buffer) == n;
  }

  lemma NoHeader(file: ByteSeq, o: nat, s: State, p: nat)
    requires At(file, s, p) && |file| < HeaderPos(p) + HEADER_SIZE
    ensures var r := ReadPhysical(file, o, s); r.rtype == EOF && r.reports == [] && Ended(r.s)
  {
    hide ParseHeader;
    if s.buffer != [] {
      BufferReachesBlockEnd(file, s, p);
    }
    if |s.buffer| < HEADER_SIZE && !s.eof {
      var t := Load(file, s);
      assert |t.buffer| < HEADER_SIZE;
      assert ReadPhysical(file, o, s) == ReadPhysical(file, o, t);
    }
  }

  // ---------- one record ----------

  /** The assembly after the next fragment of a record that began as in `begin`. */
  function Grow(p: nat, data: ByteSeq, begin: bool, a: Assembly): (b: Assembly)
    ensures b.open
  {
    Assembly(true, (if begin then [] else a.scratch) + data[..FragmentLength(p, |data|)],
             if begin then HeaderPos(p) else a.start)
  }

  lemma DispatchFragment(o: nat, p: nat, data: ByteSeq, begin: bool, a: Assembly, u: State)
    requires a.open == !begin && (!begin ==> !u.resyncing)
    requires Sub(u.end, |u.buffer| + HEADER_SIZE + FragmentLength(p, |data|)) == HeaderPos(p)
    ensures var n := FragmentLength(p, |data|); var ph := Physical(FragmentType(begin, n == |data|), data[..n], u, []);
      Dispatch(o, ph, a) ==
        if n == |data| then
          Return(Outcome(true, (if begin then [] else a.scratch) + data,
                         u.(resyncing := false, last := if begin then HeaderPos(p) else a.start), []))
        else Continue(u.(resyncing := false), Grow(p, data, begin, a), [])
  {
    hide HeaderPos, FragmentLength, Drop;
  }

  /** ReadRecord's loop on a whole fragment. */
  lemma AssembleFragment(file: ByteSeq, o: nat, s: State, p: nat, data: ByteSeq, begin: bool, a: Assembly) returns (t: State)
    requires p <= |file| && At(file, s, p) && Fragment(p, data, begin) <= file[p..]
    requires HeaderPos(p) >= o && a.open == !begin && (!begin ==> !s.resyncing)
    ensures At(file, t, p + |Fragment(p, data, begin)|) && !t.resyncing
    ensures FragmentLength(p, |data|) == |data| ==> t.last == (if begin then HeaderPos(p) else a.start)
    ensures FragmentLength(p, |data|) == |data| ==>
      Assemble(file, o, s, a) == Outcome(true, (if begin then [] else a.scratch) + data, t, [])
    ensures FragmentLength(p, |data|) < |data| ==>
      Assemble(file, o, s, a) == Assemble(file, o, t, Grow(p, data, begin, a))
  {
    hide HeaderPos, FragmentLength, Fragment, At, ReadPhysical, Dispatch, FragmentType, Grow, Sub;
    var u := PhysicalWhole(file, o, s, p, data, begin);
    OffsetExact(file, p, data, begin, u);
    DispatchFragment(o, p, data, begin, a, u);
    t := u.(resyncing := false);
    if FragmentLength(p, |data|) == |data| {
      t := t.(last := if begin then HeaderPos(p) else a.start);
    } else {
      PrependNothing(Assemble(file, o, t, Grow(p, data, begin, a)));
    }
    AtIgnoresRecordState(file, u, t, p + |Fragment(p, data, begin)|);
  }

  lemma PrependNothing(o: Outcome)
    ensures Prepend([], o) == o
  {
  }

  /** A whole record, or the rest of one, is returned with its offset and without a report. */
  lemma {:induction false} WholeRecord(file: ByteSeq, o: nat, s: State, p: nat, data: ByteSeq, begin: bool, a: Assembly)
    returns (t: State)
    requires p <= |file| && At(file, s, p) && Layout(p, data, begin) <= file[p..]
    requires HeaderPos(p) >= o && a.open == !begin && (!begin ==> !s.resyncing)
    ensures At(file, t, p + |Layout(p, data, begin)|)
    ensures t.last == if begin then HeaderPos(p) else a.start
    ensures Assemble(file, o, s, a) == Outcome(true, (if begin then [] else a.scratch) + data, t, [])
    decreases |data|, Room(HeaderPos(p)) == 0
  {
    hide HeaderPos, FragmentLength, Fragment, Layout, At, Assemble, Room;
    var n, here := FragmentLength(p, |data|), Fragment(p, data, begin);
    LayoutStep(p, data, begin);
    assert here <= file[p..];
    t := AssembleFragment(file, o, s, p, data, begin, a);
    if n < |data| {
      NextPart(file, p, data, begin);
      var b := Grow(p, data, begin, a);
      t := WholeRecord(file, o, t, p + |here|, data[n..], false, b);
      assert b.scratch + data[n..] == (if begin then [] else a.scratch) + data;
    }
  }

  /** Past a fragment the file goes on with the rest of the record. */
  lemma NextPart(file: ByteSeq, p: nat, data: ByteSeq, begin: bool)
    requires p <= |file| && FragmentLength(p, |data|) < |data|
    ensures var n, next := FragmentLength(p, |data|), p + |Fragment(p, data, begin)|;
      && (Layout(p, data, begin) <= file[p..] ==> next <= |file| && Layout(next, data[n..], false) <= file[next..])
      && (file[p..] <= Layout(p, data, begin) && next <= |file| ==> file[next..] <= Layout(next, data[n..], false))
      && |Layout(p, data, begin)| == next - p + |Layout(next, data[n..], false)|
  {
    hide HeaderPos, FragmentLength, Fragment, Layout;
    LayoutStep(p, data, begin);
    var here := Fragment(p, data, begin);
    var next := p + |here|;
    if next <= |file| {
      assert file[p..][|here|..] == file[next..];
      assert Layout(p, data, begin)[|here|..] == Layout(next, data[FragmentLength(p, |data|)..], false);
    }
  }

  lemma AtIgnoresRecordState(file: ByteSeq, s: State, t: State, p: nat)
    requires At(file, s, p) && t == s.(last := t.last, resyncing := t.resyncing)
    ensures At(file, t, p)
  {
  }

  lemma OffsetExact(file: ByteSeq, p: nat, data: ByteSeq, begin: bool, s: State)
    requires At(file, s, p + |Fragment(p, data, begin)|)
    ensures Sub(s.end, |s.buffer| + HEADER_SIZE + FragmentLength(p, |data|)) == HeaderPos(p)
  {
    hide Fragment, FragmentLength, HeaderPos;
  }

  /** A record cut short by the end of the file is dropped without a report. */
  lemma {:induction false} TornRecord(file: ByteSeq, o: nat, s: State, p: nat, data: ByteSeq, begin: bool, a: Assembly)
    requires p <= |file| && At(file, s, p)
    requires file[p..] <= Layout(p, data, begin) && |file| - p < |Layout(p, data, begin)|
    requires HeaderPos(p) >= o && a.open == !begin && (!begin ==> !s.resyncing)
    ensures var r := Assemble(file, o, s, a); !r.found && r.record == [] && r.reports == [] && Ended(r.s)
    decreases |data|, Room(HeaderPos(p)) == 0
  {
    hide HeaderPos, FragmentLength, Fragment, Layout, At, Room, Assemble, Grow;
    var n, here := FragmentLength(p, |data|), Fragment(p, data, begin);
    LayoutStep(p, data, begin);
    if |file| - p < |here| {
      PrefixesOfOne(file[p..], here, Layout(p, data, begin));
      TornFragment(file, o, s, p, data, begin, a);
    } else {
      PrefixesOfOne(here, file[p..], Layout(p, data, begin));
      var t := AssembleFragment(file, o, s, p, data, begin, a);
      NextPart(file, p, data, begin);
      TornRecord(file, o, t, p + |here|, data[n..], false, Grow(p, data, begin, a));
    }
  }

  lemma TornFragment(file: ByteSeq, o: nat, s: State, p: nat, data: ByteSeq, begin: bool, a: Assembly)
    requires p <= |file| && At(file, s, p)
    requires file[p..] <= Fragment(p, data, begin) && |file| - p < |Fragment(p, data, begin)|
    ensures var r := Assemble(file, o, s, a); !r.found && r.record == [] && r.reports == [] && Ended(r.s)
  {
    hide HeaderPos, FragmentLength, Fragment, At, ReadPhysical;
    PhysicalTorn(file, o, s, p, data, begin);
  }

  lemma PrefixesOfOne(a: ByteSeq, b: ByteSeq, whole: ByteSeq)
    requires a <= whole && b <= whole && |a| <= |b|
    ensures a <= b
  {
  }

  lemma EndOfFile(file: ByteSeq, o: nat, s: State, a: Assembly)
    requires At(file, s, |file|)
    ensures var r := Assemble(file, o, s, a); !r.found && r.record == [] && r.reports == [] && Ended(r.s)
  {
    NoHeader(file, o, s, |file|);
  }

  // ---------- whole files ----------

  /** Everything the reader returns until its first false, with LastRecordOffset after each record. */
  datatype Replay = Replay(records: seq<(ByteSeq, nat)>, reports: seq<nat>)

  function ReadAll(file: ByteSeq, o: nat, s: State): Replay
    decreases Unread(file, s)
  {
    var r := ReadRecordSpec(file, o, s);
    if !r.found then Replay([], r.reports)
    else
      var rest := ReadAll(file, o, r.s);
      Replay([(r.record, r.s.last)] + rest.records, r.reports + rest.reports)
  }

  /** Each record with the position of its first header. */
  function Entries(p: nat, records: seq<ByteSeq>): (e: seq<(ByteSeq, nat)>)
    ensures |e| == |records|
    ensures forall i :: 0 <= i < |e| ==> e[i].0 == records[i]
    decreases |records|
  {
    if records == [] then []
    else [(records[0], HeaderPos(p))] + Entries(p + |Layout(p, records[0], true)|, records[1..])
  }

  /** The records whose last fragment lies within the first t bytes. */
  ghost predicate Complete(p: nat, records: seq<ByteSeq>, k: nat, t: nat) {
    && k <= |records|
    && p + |Log(p, records[..k])| <= t
    && (k < |records| ==> t < p + |Log(p, records[..k + 1])|)
  }

  lemma {:induction false} ReadTruncated(file: ByteSeq, s: State, p: nat, records: seq<ByteSeq>, k: nat)
    requires p <= |file| && At(file, s, p) && file[p..] <= Log(p, records)
    requires Complete(p, records, k, |file|)
    ensures ReadAll(file, 0, s) == Replay(Entries(p, records[..k]), [])
    decreases |records|
  {
    hide At, Layout, HeaderPos, Assemble, ReadAll, Log, Entries;
    if k == 0 {
      ReadNone(file, s, p, records);
    } else {
      var next := p + |Layout(p, records[0], true)|;
      var t := ReadOne(file, s, p, records, k);
      ReadTruncated(file, t, next, records[1..], k - 1);
      assert records[..k][1..] == records[1..][..k - 1];
      EntriesFirst(p, records[..k]);
    }
  }

  /** No record is complete: the first ReadRecord returns false. */
  lemma ReadNone(file: ByteSeq, s: State, p: nat, records: seq<ByteSeq>)
    requires p <= |file| && At(file, s, p) && file[p..] <= Log(p, records)
    requires Complete(p, records, 0, |file|)
    ensures ReadAll(file, 0, s) == Replay(Entries(p, records[..0]), [])
  {
    hide At, Layout, HeaderPos, Assemble, ReadAll;
    if records == [] {
      EndOfFile(file, 0, s, NOTHING);
    } else {
      var here := Layout(p, records[0], true);
      assert records[..1] == [records[0]];
      assert Log(p, records[..1]) == here;
      PrefixesOfOne(file[p..], here, Log(p, records));
      TornRecord(file, 0, s, p, records[0], true, NOTHING);
    }
    ReadAllEnds(file, 0, s);
  }

  /** The first record is complete: ReadRecord returns it and the rest of the file is a shorter log. */
  lemma ReadOne(file: ByteSeq, s: State, p: nat, records: seq<ByteSeq>, k: nat) returns (t: State)
    requires p <= |file| && At(file, s, p) && file[p..] <= Log(p, records)
    requires k > 0 && Complete(p, records, k, |file|)
    ensures var next := p + |Layout(p, records[0], true)|;
      && next <= |file| && At(file, t, next) && file[next..] <= Log(next, records[1..])
      && Complete(next, records[1..], k - 1, |file|)
      && ReadAll(file, 0, s).records == [(records[0], HeaderPos(p))] + ReadAll(file, 0, t).records
      && ReadAll(file, 0, s).reports == ReadAll(file, 0, t).reports
  {
    hide At, Layout, HeaderPos, Assemble, ReadAll, Log;
    var here := Layout(p, records[0], true);
    LogFirst(p, records, k);
    PrefixesOfOne(here, file[p..], Log(p, records));
    t := WholeRecord(file, 0, s, p, records[0], true, NOTHING);
    assert file[p + |here|..] == file[p..][|here|..];
    assert [] + records[0] == records[0];
    ReadAllNext(file, 0, s, Outcome(true, records[0], t, []));
  }

  lemma EntriesFirst(p: nat, records: seq<ByteSeq>)
    requires records != []
    ensures Entries(p, records) == [(records[0], HeaderPos(p))] + Entries(p + |Layout(p, records[0], true)|, records[1..])
  {
  }

  lemma ReadAllEnds(file: ByteSeq, o: nat, s: State)
    requires !ReadRecordSpec(file, o, s).found
    ensures ReadAll(file, o, s) == Replay([], ReadRecordSpec(file, o, s).reports)
  {
  }

  lemma ReadAllNext(file: ByteSeq, o: nat, s: State, r: Outcome)
    requires ReadRecordSpec(file, o, s) == r && r.found && r.reports == []
    ensures ReadAll(file, o, s).records == [(r.record, r.s.last)] + ReadAll(file, o, r.s).records
    ensures ReadAll(file, o, s).reports == ReadAll(file, o, r.s).reports
  {
    hide ReadRecordSpec;
  }

  lemma LogFirst(p: nat, records: seq<ByteSeq>, k: nat)
    requires 0 < k <= |records|
    ensures var here := Layout(p, records[0], true);
      && Log(p, records[..k]) == here + Log(p + |here|, records[1..][..k - 1])
      && (k < |records| ==> Log(p, records[..k + 1]) == here + Log(p + |here|, records[1..][..k]))
      && Log(p, records) == here + Log(p + |here|, records[1..])
  {
    hide Layout;
    assert records[..k][1..] == records[1..][..k - 1];
    if k < |records| {
      assert records[..k + 1][1..] == records[1..][..k];
    }
  }

  lemma StartAtZero(file: ByteSeq)
    requires |file| < UINT64
    ensures At(file, Start(0), 0)
  {
  }

  /** After a crash that leaves the first t bytes, reading returns exactly the records that lie wholly
      within them, in order and with their offsets, and then false, and reports no corruption. */
  lemma CrashRecovery(records: seq<ByteSeq>, t: nat, k: nat)
    requires t <= |Log(0, records)| && t < UINT64
    requires Complete(0, records, k, t)
    ensures ReadAll(Log(0, records)[..t], 0, Start(0)) == Replay(Entries(0, records[..k]), [])
  {
    hide Log;
    var file := Log(0, records)[..t];
    StartAtZero(file);
    assert file[0..] == file;
    ReadTruncated(file, Start(0), 0, records, k);
  }

  /** Every truncation point determines how many records survive. */
  lemma {:induction false} SomeComplete(p: nat, records: seq<ByteSeq>, t: nat) returns (k: nat)
    requires p <= t
    ensures Complete(p, records, k, t)
    decreases |records|
  {
    hide Layout;
    k := 0;
    if records != [] {
      var here := Layout(p, records[0], true);
      assert records[..1] == [records[0]];
      if p + |here| <= t {
        var j := SomeComplete(p + |here|, records[1..], t);
        k := j + 1;
        LogFirst(p, records, k);
      }
    }
  }

  /** Reading a log gives back what was written, in order, and then false, with no corruption report. */
  lemma RoundTrip(records: seq<ByteSeq>)
    requires |Log(0, records)| < UINT64
    ensures ReadAll(Log(0, records), 0, Start(0)) == Replay(Entries(0, records), [])
  {
    var file := Log(0, records);
    assert records[..|records|] == records;
    assert file[..|file|] == file;
    CrashRecovery(records, |file|, |records|);
  }

  /** Once ReadRecord has returned false at the end of the file it keeps returning false. */
  lemma EndIsFinal(file: ByteSeq, o: nat, s: State)
    requires Ended(s)
    ensures var r := ReadRecordSpec(file, o, s); !r.found && r.reports == [] && Ended(r.s)
  {
  }

  // ---------- trailers ----------

  lemma LogUnfolds(p: nat, records: seq<ByteSeq>)
    ensures records == [] ==> Log(p, records) == [] && Entries(p, records) == []
    ensures records != [] ==>
      var here := Layout(p, records[0], true);
      && Log(p, records) == here + Log(p + |here|, records[1..])
      && Entries(p, records) == [(records[0], HeaderPos(p))] + Entries(p + |here|, records[1..])
  {
    hide Layout, HeaderPos;
  }

  lemma SameHeader(p: nat, t: nat)
    requires p <= t <= HeaderPos(p)
    ensures HeaderPos(t) == HeaderPos(p)
  {
  }

  /** Written at p or at t, after the zeros of a trailer: the same bytes, the same headers. */
  lemma SameBytes(p: nat, t: nat, records: seq<ByteSeq>)
    requires p <= t <= HeaderPos(p) && records != []
    ensures Log(p, records) == Zeros(t - p) + Log(t, records) && Entries(p, records) == Entries(t, records)
  {
    hide *;
    SameHeader(p, t);
    LogUnfolds(p, records);
    LogUnfolds(t, records);
    SameLayout(p, t, records[0], true);
    Associative(Zeros(t - p), Layout(t, records[0], true), Log(t + |Layout(t, records[0], true)|, records[1..]));
  }

  lemma SameLayout(p: nat, t: nat, data: ByteSeq, begin: bool)
    requires p <= t && HeaderPos(t) == HeaderPos(p)
    ensures Layout(p, data, begin) == Zeros(t - p) + Layout(t, data, begin)
    ensures p + |Layout(p, data, begin)| == t + |Layout(t, data, begin)|
  {
    hide HeaderPos, Layout, Header;
    LayoutStep(p, data, begin);
    LayoutStep(t, data, begin);
    assert Zeros(HeaderPos(p) - p) == Zeros(t - p) + Zeros(HeaderPos(p) - t);
    assert Fragment(p, data, begin) == Zeros(t - p) + Fragment(t, data, begin);
    assert p + |Fragment(p, data, begin)| == t + |Fragment(t, data, begin)|;
  }

  // ---------- the reader and the writer themselves ----------

  /** Reads a file to its first false. */
  method ReadFile(file: ByteSeq, initialOffset: nat) returns (records: seq<(ByteSeq, nat)>, reports: seq<nat>)
    ensures Replay(records, reports) == ReadAll(file, initialOffset, Start(initialOffset))
  {
    hide ReadRecordSpec;
    var reader := new Reader(file, initialOffset);
    records := [];
    var more := true;
    while more
      invariant fresh(reader) && reader.file == file && reader.initialOffset == initialOffset
      invariant var whole := ReadAll(file, initialOffset, Start(initialOffset));
        var rest := if more then ReadAll(file, initialOffset, reader.Abs()) else Replay([], []);
        whole == Replay(records + rest.records, reader.reports + rest.reports)
      decreases more, Unread(file, reader.Abs())
    {
      var found, record := reader.ReadRecord();
      if found {
        records := records + [(record, reader.lastRecordOffset)];
      }
      more := found;
    }
    reports := reader.reports;
  }

  /** Write, reopening at will; lose everything after the first t bytes; read. */
  method CrashAndRead(records: seq<ByteSeq>, reopen: seq<bool>, t: nat) returns (survivors: seq<(ByteSeq, nat)>,
                      reports: seq<nat>, ghost k: nat)
    requires |reopen| == |records| && t <= |Log(0, records)| < UINT64
    ensures Complete(0, records, k, t)
    ensures survivors == Entries(0, records[..k]) && reports == []
  {
    var contents := LogWriter.WriteAll(records, reopen);
    k := SomeComplete(0, records, t);
    CrashRecovery(records, t, k);
    survivors, reports := ReadFile(contents[..t], 0);
  }
}

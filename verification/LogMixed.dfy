/** Files with records whose type byte the writer never writes, and with headers that no record follows. */
module LogMixed {
  import opened Bytes
  import opened LogFormat
  import opened LogReader
  import opened LogRecovery

  // ---------- type bytes that the writer never writes ----------

  /** The file has a whole physical record with its header at h: n bytes of payload that end within the block.
      (A zero type with no payload is the mark of an unwritten region instead.) */
  ghost predicate WholeAt(file: ByteSeq, h: nat, n: nat, rtype: Byte) {
    && n < 65536 && h % BLOCK_SIZE + HEADER_SIZE + n <= BLOCK_SIZE && h + HEADER_SIZE + n <= |file|
    && file[h..h + HEADER_SIZE] == Header(n, rtype) && (rtype != ZERO_TYPE || n > 0)
  }

  /** The reader's own codes for the end of the input and for a bad record are read from the file as well: what
      ReadPhysicalRecord answers is the end exactly for type 5, and a bad record exactly for type 6 or a header
      before the initial offset. */
  lemma CodesCollide(file: ByteSeq, o: nat, s: State, p: nat, n: nat, rtype: Byte) returns (t: State)
    requires At(file, s, p) && WholeAt(file, HeaderPos(p), n, rtype)
    ensures var h, r := HeaderPos(p), ReadPhysical(file, o, s);
      && (r.rtype == EOF <==> h >= o && rtype == 5)
      && (r.rtype == BAD_RECORD <==> h < o || rtype == 6)
      && r == Physical(r.rtype, if h < o then [] else file[h + HEADER_SIZE..h + HEADER_SIZE + n], t, [])
      && At(file, t, h + HEADER_SIZE + n) && SameRecordState(s, t)
      && (h >= o ==> r.rtype == rtype)
  {
    hide ParseHeader, ReadPhysical, At, HeaderPos, Header;
    var u := Fill(file, o, s, p);
    t := ParseWhole(file, o, u, HeaderPos(p), n, rtype);
  }

  /** ReadRecord's loop on a whole record of a type the writer never writes.  Type 5 ends it without a report.  Any
      other one is skipped with the fragment that is open; the bytes of type 6 are in no report, those of the others
      are. */
  lemma ForeignRecord(file: ByteSeq, o: nat, s: State, p: nat, n: nat, rtype: Byte, a: Assembly) returns (t: State)
    requires At(file, s, p) && WholeAt(file, HeaderPos(p), n, rtype) && HeaderPos(p) >= o
    requires rtype == ZERO_TYPE || rtype > LAST_TYPE
    ensures At(file, t, HeaderPos(p) + HEADER_SIZE + n) && t.last == s.last && !t.resyncing
    ensures Assemble(file, o, s, a) ==
      if rtype == 5 then Outcome(false, [], t, [])
      else
        var left := Assembly(false, if a.open then [] else a.scratch, a.start);
        if rtype == 6 then
          Prepend(if a.open then Drop(o, t, |a.scratch|) else [], Assemble(file, o, t, left))
        else
          Prepend(Drop(o, t, n + if a.open then |a.scratch| else 0), Assemble(file, o, t, left.(scratch := [])))
    ensures Drop(o, t, n) == [n]
  {
    hide At, HeaderPos, ReadPhysical, Header, WholeAt, Dispatch, Drop;
    var u := CodesCollide(file, o, s, p, n, rtype);
    t := u.(resyncing := false);
    AtIgnoresRecordState(file, u, t, HeaderPos(p) + HEADER_SIZE + n);
    DropReported(file, o, t, HeaderPos(p), n);
    PayloadIs(file, HeaderPos(p), n, rtype);
    DispatchForeign(o, ReadPhysical(file, o, s), a);
  }

  lemma DispatchForeign(o: nat, ph: Physical, a: Assembly)
    requires ph.rtype == ZERO_TYPE || ph.rtype > LAST_TYPE
    ensures var t, left := ph.s.(resyncing := false), Assembly(false, if a.open then [] else a.scratch, a.start);
      Dispatch(o, ph, a) ==
        if ph.rtype == 5 then Return(Outcome(false, [], t, []))
        else if ph.rtype == 6 then Continue(t, left, if a.open then Drop(o, t, |a.scratch|) else [])
        else Continue(t, left.(scratch := []), Drop(o, t, |ph.fragment| + if a.open then |a.scratch| else 0))
    ensures forall rest :: Prepend([], rest) == rest
  {
    hide Drop;
  }

  lemma PayloadIs(file: ByteSeq, h: nat, n: nat, rtype: Byte)
    requires WholeAt(file, h, n, rtype)
    ensures h + HEADER_SIZE + n <= |file| && |file[h + HEADER_SIZE..h + HEADER_SIZE + n]| == n
  {
  }

  lemma DropReported(file: ByteSeq, o: nat, s: State, h: nat, n: nat)
    requires At(file, s, h + HEADER_SIZE + n) && h >= o
    ensures Drop(o, s, n) == [n]
  {
  }

  // ---------- a whole file with one such record ----------

  /** A whole log is read, and then what follows it. */
  lemma {:induction false} ReadLog(file: ByteSeq, s: State, p: nat, records: seq<ByteSeq>) returns (t: State)
    requires p <= |file| && At(file, s, p) && Log(p, records) <= file[p..]
    ensures At(file, t, p + |Log(p, records)|)
    ensures var rest := ReadAll(file, 0, t); ReadAll(file, 0, s) == Replay(Entries(p, records) + rest.records, rest.reports)
    decreases |records|
  {
    hide At, Layout, HeaderPos, Assemble, ReadAll, Log, Entries;
    LogUnfolds(p, records);
    if records == [] {
      t := s;
    } else {
      var here := Layout(p, records[0], true);
      assert here <= file[p..];
      var u := WholeRecord(file, 0, s, p, records[0], true, NOTHING);
      assert file[p + |here|..] == file[p..][|here|..];
      assert [] + records[0] == records[0];
      ReadAllNext(file, 0, s, Outcome(true, records[0], u, []));
      t := ReadLog(file, u, p + |here|, records[1..]);
      var rest := ReadAll(file, 0, t);
      assert [(records[0], HeaderPos(p))] + (Entries(p + |here|, records[1..]) + rest.records)
          == Entries(p, records) + rest.records;
    }
  }

  /** A log that reaches to the end of the file. */
  lemma ReadLastLog(file: ByteSeq, s: State, p: nat, records: seq<ByteSeq>)
    requires p <= |file| && At(file, s, p) && file[p..] == Log(p, records)
    ensures ReadAll(file, 0, s) == Replay(Entries(p, records), [])
  {
    hide At, Log, ReadAll, Assemble, Entries;
    var t := ReadLog(file, s, p, records);
    EndOfFile(file, 0, t, NOTHING);
    ReadAllEnds(file, 0, t);
    assert Entries(p, records) + [] == Entries(p, records);
  }

  /** A drop before the next record goes into the reports first. */
  lemma DropFirst(file: ByteSeq, s: State, t: State, reports: seq<nat>)
    requires ReadRecordSpec(file, 0, s) == Prepend(reports, ReadRecordSpec(file, 0, t))
    ensures ReadAll(file, 0, s) == Replay(ReadAll(file, 0, t).records, reports + ReadAll(file, 0, t).reports)
  {
    hide ReadRecordSpec;
    var r := ReadRecordSpec(file, 0, t);
    if r.found {
      var rest := ReadAll(file, 0, r.s);
      assert reports + (r.reports + rest.reports) == (reports + r.reports) + rest.reports;
    }
  }

  /** Trailer, header and payload of a record of any type. */
  function Foreign(p: nat, payload: ByteSeq, rtype: Byte): (f: ByteSeq)
    requires |payload| <= Room(HeaderPos(p))
    ensures |f| == HeaderPos(p) - p + HEADER_SIZE + |payload|
  {
    Zeros(HeaderPos(p) - p) + Header(|payload|, rtype) + payload
  }

  lemma ForeignParts(file: ByteSeq, p: nat, payload: ByteSeq, rtype: Byte)
    requires p <= |file| && |payload| <= Room(HeaderPos(p)) && Foreign(p, payload, rtype) <= file[p..]
    requires rtype > LAST_TYPE || (rtype == ZERO_TYPE && payload != [])
    ensures WholeAt(file, HeaderPos(p), |payload|, rtype)
    ensures p + |Foreign(p, payload, rtype)| == HeaderPos(p) + HEADER_SIZE + |payload|
  {
    hide Header, HeaderPos;
    var h, f := HeaderPos(p), Foreign(p, payload, rtype);
    var d := h - p;
    assert file[h..h + HEADER_SIZE] == f[d..d + HEADER_SIZE];
  }

  lemma ThreeParts(a: ByteSeq, b: ByteSeq, c: ByteSeq)
    ensures var file := a + b + c; a <= file[0..] && b <= file[|a|..] && file[|a| + |b|..] == c && |file| == |a| + |b| + |c|
  {
  }

  /** One record of a type the writer never writes, between two logs.  After type 5 nothing is read, and nothing is
      reported; type 6 disappears without a report; of any other type the payload is reported as dropped. */
  lemma OneForeignRecord(before: seq<ByteSeq>, payload: ByteSeq, rtype: Byte, after: seq<ByteSeq>)
    requires rtype > LAST_TYPE || (rtype == ZERO_TYPE && payload != [])
    requires |payload| <= Room(HeaderPos(|Log(0, before)|))
    requires var p := |Log(0, before)|; var q := p + |Foreign(p, payload, rtype)|; q + |Log(q, after)| < UINT64
    ensures var p := |Log(0, before)|; var q := p + |Foreign(p, payload, rtype)|;
      ReadAll(Log(0, before) + Foreign(p, payload, rtype) + Log(q, after), 0, Start(0)) ==
        if rtype == 5 then Replay(Entries(0, before), [])
        else Replay(Entries(0, before) + Entries(q, after), if rtype == 6 then [] else [|payload|])
  {
    var p := |Log(0, before)|;
    var here := Foreign(p, payload, rtype);
    ThreeParts(Log(0, before), here, Log(p + |here|, after));
    ForeignParts(Log(0, before) + here + Log(p + |here|, after), p, payload, rtype);
    ReadAround(Log(0, before) + here + Log(p + |here|, after), before, |payload|, rtype, after);
  }

  lemma ReadAround(file: ByteSeq, before: seq<ByteSeq>, n: nat, rtype: Byte, after: seq<ByteSeq>)
    requires |file| < UINT64 && Log(0, before) <= file[0..] && (rtype == ZERO_TYPE || rtype > LAST_TYPE)
    requires var h := HeaderPos(|Log(0, before)|);
      WholeAt(file, h, n, rtype) && h + HEADER_SIZE + n <= |file| && file[h + HEADER_SIZE + n..] == Log(h + HEADER_SIZE + n, after)
    ensures var q := HeaderPos(|Log(0, before)|) + HEADER_SIZE + n;
      ReadAll(file, 0, Start(0)) ==
        if rtype == 5 then Replay(Entries(0, before), [])
        else Replay(Entries(0, before) + Entries(q, after), if rtype == 6 then [] else [n])
  {
    hide *;
    var s := ReadFirstLog(file, before);
    ReadForeign(file, s, |Log(0, before)|, n, rtype, after);
    AppendNothing(Entries(0, before));
  }

  lemma ReadFirstLog(file: ByteSeq, records: seq<ByteSeq>) returns (t: State)
    requires |file| < UINT64 && Log(0, records) <= file[0..]
    ensures At(file, t, |Log(0, records)|)
    ensures var rest := ReadAll(file, 0, t);
      ReadAll(file, 0, Start(0)) == Replay(Entries(0, records) + rest.records, rest.reports)
  {
    StartAtZero(file);
    hide *;
    t := ReadLog(file, Start(0), 0, records);
  }

  lemma ReadForeign(file: ByteSeq, s: State, p: nat, n: nat, rtype: Byte, after: seq<ByteSeq>)
    requires At(file, s, p) && WholeAt(file, HeaderPos(p), n, rtype) && (rtype == ZERO_TYPE || rtype > LAST_TYPE)
    requires var q := HeaderPos(p) + HEADER_SIZE + n; q <= |file| && file[q..] == Log(q, after)
    ensures ReadAll(file, 0, s) ==
      if rtype == 5 then Replay([], [])
      else Replay(Entries(HeaderPos(p) + HEADER_SIZE + n, after), if rtype == 6 then [] else [n])
  {
    hide At, Log, ReadAll, Entries, HeaderPos, Assemble, Drop, WholeAt;
    var t := ForeignRecord(file, 0, s, p, n, rtype, NOTHING);
    if rtype == 5 {
      ReadAllEnds(file, 0, s);
    } else {
      assert Assembly(false, [], 0) == NOTHING;
      DropFirst(file, s, t, if rtype == 6 then [] else [n]);
      ReadLastLog(file, t, HeaderPos(p) + HEADER_SIZE + n, after);
    }
  }

  /** Whatever follows a record of type 5, nothing of it is read and nothing is reported. */
  lemma TypeFiveReadsAsEnd(before: seq<ByteSeq>, payload: ByteSeq, tail: ByteSeq)
    requires |payload| <= Room(HeaderPos(|Log(0, before)|))
    requires |Log(0, before)| + |Foreign(|Log(0, before)|, payload, 5)| + |tail| < UINT64
    ensures ReadAll(Log(0, before) + Foreign(|Log(0, before)|, payload, 5) + tail, 0, Start(0)) == Replay(Entries(0, before), [])
  {
    var p := |Log(0, before)|;
    var here := Foreign(p, payload, 5);
    var file := Log(0, before) + here + tail;
    ThreeParts(Log(0, before), here, tail);
    ForeignParts(file, p, payload, 5);
    hide At, Log, ReadAll, Entries, Foreign, HeaderPos, Room, Assemble, Drop, WholeAt;
    var s := ReadFirstLog(file, before);
    var t := ForeignRecord(file, 0, s, p, |payload|, 5, NOTHING);
    ReadAllEnds(file, 0, s);
    AppendNothing(Entries(0, before));
  }

  // ---------- headers that no record follows ----------

  /** The end of the block of h, given by its number. */
  function BlockOf(h: nat): (q: nat)
    ensures q % 32768 == 0 && h < q <= h + 32768
  {
    (h / 32768 + 1) * 32768
  }

  /** The header at h is in a whole block and names a length that runs past the end of the block. */
  ghost predicate RunsOver(file: ByteSeq, h: nat) {
    h + 7 <= BlockOf(h) <= |file| && h + 7 + LengthAt(file, h) > BlockOf(h)
  }

  /** The length that the header at h names. */
  function LengthAt(file: ByteSeq, h: nat): nat
    requires h + 7 <= |file|
  {
    var low: nat, high: nat := file[h + 4], file[h + 5];
    low + 256 * high
  }

  /** The header at h is in a whole block, of type zero and names the length zero. */
  ghost predicate IsBlank(file: ByteSeq, h: nat) {
    h + 7 <= BlockOf(h) <= |file| && file[h + 4] == 0 && file[h + 5] == 0 && file[h + 6] == 0
  }

  /** The reader before a header in a whole block has the rest of the block in its buffer, and more may follow. */
  lemma RestOfBlock(file: ByteSeq, s: State, h: nat)
    requires At(file, s, h) && |s.buffer| >= HEADER_SIZE && BlockOf(h) <= |file|
    ensures !s.eof && s.end == BlockOf(h) && |s.buffer| == BlockOf(h) - h
    ensures At(file, s.(buffer := []), BlockOf(h))
    ensures forall i :: 0 <= i < HEADER_SIZE ==> s.buffer[i] == file[h + i]
  {
    BufferReachesBlockEnd(file, s, h);
    var q := BlockOf(h);
    assert h % BLOCK_SIZE + (q - h) == BLOCK_SIZE;
  }

  /** A length that runs past a whole block: the rest of the block is dropped, from the header on, and reported if
      the header is not before the initial offset. */
  lemma PhysicalRunsOver(file: ByteSeq, o: nat, s: State, p: nat) returns (t: State)
    requires At(file, s, p) && RunsOver(file, HeaderPos(p))
    ensures var h := HeaderPos(p); var q := BlockOf(h);
      && ReadPhysical(file, o, s) == Physical(BAD_RECORD, [], t, if h >= o then [q - h] else [])
      && At(file, t, q) && SameRecordState(s, t)
  {
    hide ReadPhysical, HeaderPos;
    var h := HeaderPos(p);
    var u := Fill(file, o, s, p);
    hide At;
    RestOfBlock(file, u, h);
    t := u.(buffer := []);
    AtBounds(file, u, h);
  }

  lemma AtBounds(file: ByteSeq, s: State, p: nat)
    requires At(file, s, p)
    ensures p == s.end - |s.buffer| && s.end < UINT64
  {
  }

  /** A blank header: the rest of the block is skipped without a report. */
  lemma PhysicalBlank(file: ByteSeq, o: nat, s: State, p: nat) returns (t: State)
    requires At(file, s, p) && IsBlank(file, HeaderPos(p))
    ensures ReadPhysical(file, o, s) == Physical(BAD_RECORD, [], t, [])
    ensures At(file, t, BlockOf(HeaderPos(p))) && SameRecordState(s, t)
  {
    hide ReadPhysical, HeaderPos;
    var h := HeaderPos(p);
    var u := Fill(file, o, s, p);
    hide At;
    RestOfBlock(file, u, h);
    t := u.(buffer := []);
  }

  /** What ReadRecord's loop does with either: an open fragment is reported and given up, and it goes on in the next
      block. */
  lemma NoRecord(file: ByteSeq, o: nat, s: State, p: nat, a: Assembly) returns (t: State)
    requires At(file, s, p) && (RunsOver(file, HeaderPos(p)) || IsBlank(file, HeaderPos(p)))
    ensures var h := HeaderPos(p); var q := BlockOf(h);
      && At(file, t, q) && t.last == s.last && !t.resyncing
      && Assemble(file, o, s, a) ==
           Prepend((if RunsOver(file, h) && h >= o then [q - h] else []) + (if a.open then Drop(o, t, |a.scratch|) else []),
                   Assemble(file, o, t, Assembly(false, if a.open then [] else a.scratch, a.start)))
  {
    hide At, HeaderPos, ReadPhysical, Dispatch, Drop, RunsOver, IsBlank, BlockOf;
    var u;
    NotBoth(file, HeaderPos(p));
    if RunsOver(file, HeaderPos(p)) {
      u := PhysicalRunsOver(file, o, s, p);
    } else {
      u := PhysicalBlank(file, o, s, p);
    }
    t := u.(resyncing := false);
    AtIgnoresRecordState(file, u, t, BlockOf(HeaderPos(p)));
    DispatchForeign(o, ReadPhysical(file, o, s), a);
    var b := Assembly(false, if a.open then [] else a.scratch, a.start);
    Associative(ReadPhysical(file, o, s).reports, if a.open then Drop(o, t, |a.scratch|) else [], Assemble(file, o, t, b).reports);
  }

  lemma NotBoth(file: ByteSeq, h: nat)
    ensures !(RunsOver(file, h) && IsBlank(file, h))
  {
  }

  /** A log, then any bytes to the end of the block, then another log.  If the first header in between runs past the
      block, exactly its own bytes to the end of the block are reported; if it is blank, nothing is; and all records of
      both logs are returned. */
  lemma OneBadBlock(before: seq<ByteSeq>, junk: ByteSeq, after: seq<ByteSeq>)
    requires var p := |Log(0, before)|; var h := HeaderPos(p); var q := BlockOf(h);
      && p + |junk| == q && q + |Log(q, after)| < UINT64
      && var file := Log(0, before) + junk + Log(q, after);
         RunsOver(file, h) || IsBlank(file, h)
    ensures var p := |Log(0, before)|; var h := HeaderPos(p); var q := BlockOf(h);
      var file := Log(0, before) + junk + Log(q, after);
      ReadAll(file, 0, Start(0)) == Replay(Entries(0, before) + Entries(q, after), if RunsOver(file, h) then [q - h] else [])
  {
    var p := |Log(0, before)|;
    var q := BlockOf(HeaderPos(p));
    ThreeParts(Log(0, before), junk, Log(q, after));
    hide *;
    ReadBadBlock(Log(0, before) + junk + Log(q, after), before, p, after);
  }

  lemma ReadBadBlock(file: ByteSeq, before: seq<ByteSeq>, p: nat, after: seq<ByteSeq>)
    requires |file| < UINT64 && p == |Log(0, before)| && Log(0, before) <= file[0..]
    requires var h := HeaderPos(p);
      (RunsOver(file, h) || IsBlank(file, h)) && BlockOf(h) <= |file| && file[BlockOf(h)..] == Log(BlockOf(h), after)
    ensures var h := HeaderPos(p); var q := BlockOf(h);
      ReadAll(file, 0, Start(0)) == Replay(Entries(0, before) + Entries(q, after), if RunsOver(file, h) then [q - h] else [])
  {
    assert NOTHING == Assembly(false, [], 0);
    hide *;
    var h := HeaderPos(p);
    var s := ReadFirstLog(file, before);
    var t := NoRecord(file, 0, s, p, NOTHING);
    var dropped := if RunsOver(file, h) then [BlockOf(h) - h] else [];
    SameSpec(file, s, t, dropped);
    DropFirst(file, s, t, dropped);
    ReadLastLog(file, t, BlockOf(h), after);
    AppendNothing(dropped);
  }

  lemma SameSpec(file: ByteSeq, s: State, t: State, dropped: seq<nat>)
    requires Assemble(file, 0, s, NOTHING) == Prepend(dropped + [], Assemble(file, 0, t, NOTHING))
    ensures ReadRecordSpec(file, 0, s) == Prepend(dropped, ReadRecordSpec(file, 0, t))
  {
    hide Assemble;
    AppendNothing(dropped);
  }

  /** The file ends before the header at h is complete, or before the record that it announces is, in a block that is
      not whole. */
  ghost predicate RunsOut(file: ByteSeq, h: nat) {
    |file| < BlockOf(h) && (h + 7 > |file| || h + 7 + LengthAt(file, h) > |file|)
  }

  /** A log and then such bytes: exactly the log is read, and nothing is reported. */
  lemma OneTornTail(before: seq<ByteSeq>, junk: ByteSeq)
    requires |Log(0, before)| + |junk| < UINT64
    requires RunsOut(Log(0, before) + junk, HeaderPos(|Log(0, before)|))
    ensures ReadAll(Log(0, before) + junk, 0, Start(0)) == Replay(Entries(0, before), [])
  {
    var p, file := |Log(0, before)|, Log(0, before) + junk;
    ThreeParts(Log(0, before), junk, []);
    assert Log(0, before) + junk + [] == file;
    hide At, Log, ReadAll, Entries, HeaderPos, Assemble, RunsOut;
    var s := ReadFirstLog(file, before);
    PhysicalRunsOut(file, 0, s, p);
    hide ReadPhysical;
    ReadAllEnds(file, 0, s);
    AppendNothing(Entries(0, before));
  }

  lemma PhysicalRunsOut(file: ByteSeq, o: nat, s: State, p: nat)
    requires At(file, s, p) && RunsOut(file, HeaderPos(p))
    ensures var r := ReadPhysical(file, o, s); r.rtype == EOF && r.reports == [] && Ended(r.s)
    ensures var r := Assemble(file, o, s, NOTHING); !r.found && r.reports == []
  {
    hide ReadPhysical, HeaderPos;
    var h := HeaderPos(p);
    if h + HEADER_SIZE <= |file| {
      var u := Fill(file, o, s, p);
      ParseRunsOut(file, o, u, h);
    } else {
      NoHeader(file, o, s, p);
    }
  }

  lemma ParseRunsOut(file: ByteSeq, o: nat, s: State, h: nat)
    requires At(file, s, h) && |s.buffer| >= HEADER_SIZE && RunsOut(file, h) && h + HEADER_SIZE <= |file|
    ensures var r := ParseHeader(o, s); r.rtype == EOF && r.reports == [] && Ended(r.s)
  {
    BufferReachesBlockEnd(file, s, h);
    assert forall i :: 0 <= i < HEADER_SIZE ==> s.buffer[i] == file[h + i];
    assert PayloadLength(s.buffer) == LengthAt(file, h);
    assert BlockOf(h) == h - h % BLOCK_SIZE + BLOCK_SIZE;
  }
}

/** src/log_reader/log_reader.cpp: the specification functions are total over any file bytes and any
    reader state, and the class's methods compute exactly them. */
module LogReader {
  import opened Bytes
  import opened LogFormat

  const UINT64 := 0x1_0000_0000_0000_0000

  /** Unsigned 64-bit subtraction. */
  function Sub(a: nat, b: nat): nat {
    (a - b) % UINT64
  }

  datatype State = State(
    filePos: nat,         // how far the file has been read or skipped
    buffer: ByteSeq,
    eof: bool,
    end: nat,             // end_of_buffer_offset_
    last: nat,            // last_record_offset_
    resyncing: bool)

  /** Bytes the reader has not yet consumed. */
  function Unread(file: ByteSeq, s: State): nat {
    |s.buffer| + Max(0, |file| - s.filePos)
  }

  function NextBlock(file: ByteSeq, filePos: nat): ByteSeq {
    if filePos >= |file| then [] else file[filePos..Min(filePos + BLOCK_SIZE, |file|)]
  }

  /** Reading one block into an exhausted buffer. */
  function Load(file: ByteSeq, s: State): State {
    var block := NextBlock(file, s.filePos);
    s.(filePos := s.filePos + |block|, buffer := block, end := s.end + |block|, eof := |block| < BLOCK_SIZE)
  }

  /** ReportDrop: a drop that lies before the initial offset is not reported. */
  function Drop(initialOffset: nat, s: State, bytes: nat): seq<nat> {
    if Sub(s.end, |s.buffer| + bytes) >= initialOffset then [bytes] else []
  }

  datatype Physical = Physical(rtype: nat, fragment: ByteSeq, s: State, reports: seq<nat>)

  function PayloadLength(header: ByteSeq): (n: nat)
    requires |header| >= HEADER_SIZE
  {
    var low: int, high: int := header[4], header[5];
    high * 256 + low
  }

  /** ReadPhysicalRecord once at least a header is in the buffer. */
  function ParseHeader(initialOffset: nat, s: State): (r: Physical)
    requires |s.buffer| >= HEADER_SIZE
    ensures |r.s.buffer| < |s.buffer| && r.s.filePos == s.filePos
    ensures r.s == s.(buffer := r.s.buffer)
  {
    var length := PayloadLength(s.buffer);
    var rtype := s.buffer[6];
    if HEADER_SIZE + length > |s.buffer| then
      var s' := s.(buffer := []);
      if s.eof then Physical(EOF, [], s', []) else Physical(BAD_RECORD, [], s', Drop(initialOffset, s', |s.buffer|))
    else if rtype == ZERO_TYPE && length == 0 then
      Physical(BAD_RECORD, [], s.(buffer := []), [])
    else
      var s' := s.(buffer := s.buffer[HEADER_SIZE + length..]);
      if Sub(s'.end, |s'.buffer| + HEADER_SIZE + length) < initialOffset then Physical(BAD_RECORD, [], s', [])
      else Physical(rtype, s.buffer[HEADER_SIZE..HEADER_SIZE + length], s', [])
  }

  /** ReadPhysicalRecord */
  function ReadPhysical(file: ByteSeq, initialOffset: nat, s: State): (r: Physical)
    ensures r.rtype != EOF ==> Unread(file, r.s) < Unread(file, s)
    ensures Unread(file, r.s) <= Unread(file, s)
    ensures r.s.last == s.last && r.s.resyncing == s.resyncing
    decreases if s.eof then 0 else 1 + Max(0, |file| - s.filePos)
  {
    if |s.buffer| >= HEADER_SIZE then ParseHeader(initialOffset, s)
    else if s.eof then Physical(EOF, [], s.(buffer := []), [])
    else ReadPhysical(file, initialOffset, Load(file, s))
  }

  datatype Outcome = Outcome(found: bool, record: ByteSeq, s: State, reports: seq<nat>)

  function Prepend(reports: seq<nat>, o: Outcome): Outcome {
    o.(reports := reports + o.reports)
  }

  /** The fragment being assembled: whether one is open, its bytes so far and where it began. */
  datatype Assembly = Assembly(open: bool, scratch: ByteSeq, start: nat)

  const NOTHING := Assembly(false, [], 0)

  /** What ReadRecord does with one physical record: stop with an outcome, or go on. */
  datatype Step = Return(o: Outcome) | Continue(s: State, a: Assembly, reports: seq<nat>)

  function Dispatch(initialOffset: nat, ph: Physical, a: Assembly): (step: Step)
    ensures step.Continue? ==> step.s.filePos == ph.s.filePos && step.s.buffer == ph.s.buffer && ph.rtype != EOF
  {
    var at := Sub(ph.s.end, |ph.s.buffer| + HEADER_SIZE + |ph.fragment|);
    if ph.s.resyncing && ph.rtype == MIDDLE_TYPE then Continue(ph.s, a, [])
    else if ph.s.resyncing && ph.rtype == LAST_TYPE then Continue(ph.s.(resyncing := false), a, [])
    else
      var s := ph.s.(resyncing := false);
      var abandoned := if a.open && a.scratch != [] then Drop(initialOffset, s, |a.scratch|) else [];
      if ph.rtype == FULL_TYPE then
        Return(Outcome(true, ph.fragment, s.(last := at), abandoned))
      else if ph.rtype == FIRST_TYPE then
        Continue(s, Assembly(true, ph.fragment, at), abandoned)
      else if ph.rtype == MIDDLE_TYPE then
        if a.open then Continue(s, a.(scratch := a.scratch + ph.fragment), [])
        else Continue(s, a, Drop(initialOffset, s, |ph.fragment|))
      else if ph.rtype == LAST_TYPE then
        if a.open then Return(Outcome(true, a.scratch + ph.fragment, s.(last := a.start), []))
        else Continue(s, a, Drop(initialOffset, s, |ph.fragment|))
      else if ph.rtype == EOF then
        Return(Outcome(false, [], s, []))
      else if ph.rtype == BAD_RECORD then
        if a.open then Continue(s, NOTHING.(start := a.start), Drop(initialOffset, s, |a.scratch|))
        else Continue(s, a, [])
      else
        var lost := |ph.fragment| + (if a.open then |a.scratch| else 0);
        Continue(s, NOTHING.(start := a.start), Drop(initialOffset, s, lost))
  }

  /** ReadRecord's loop. */
  function Assemble(file: ByteSeq, initialOffset: nat, s: State, a: Assembly): (o: Outcome)
    ensures o.found ==> Unread(file, o.s) < Unread(file, s)
    decreases Unread(file, s)
  {
    var ph := ReadPhysical(file, initialOffset, s);
    Prepend(ph.reports,
      match Dispatch(initialOffset, ph, a)
      case Return(o) => o
      case Continue(s', a', reports) => Prepend(reports, Assemble(file, initialOffset, s', a')))
  }

  /** Start of the first block that can hold a header at or after the initial offset. */
  function InitialBlock(initialOffset: nat): nat {
    var inBlock := initialOffset % BLOCK_SIZE;
    initialOffset - inBlock + (if inBlock > BLOCK_SIZE - 6 then BLOCK_SIZE else 0)
  }

  /** SkipToInitialBlock */
  function SkipToInitial(initialOffset: nat, s: State): State {
    s.(end := InitialBlock(initialOffset), filePos := s.filePos + InitialBlock(initialOffset))
  }

  /** ReadRecord */
  function ReadRecordSpec(file: ByteSeq, initialOffset: nat, s: State): (o: Outcome)
    ensures o.found ==> Unread(file, o.s) < Unread(file, s)
  {
    Assemble(file, initialOffset, if s.last < initialOffset then SkipToInitial(initialOffset, s) else s, NOTHING)
  }

  function Start(initialOffset: nat): State {
    State(0, [], false, 0, 0, initialOffset > 0)
  }

  class Reader {
    const file: ByteSeq
    const initialOffset: nat
    var filePos: nat
    var buffer: ByteSeq
    var eof: bool
    var lastRecordOffset: nat
    var endOfBufferOffset: nat
    var resyncing: bool
    var reports: seq<nat>   // bytes passed to the reporter's Corruption, in order

    function Abs(): State
      reads this
    {
      State(filePos, buffer, eof, endOfBufferOffset, lastRecordOffset, resyncing)
    }

    constructor (file: ByteSeq, initialOffset: nat)
      ensures this.file == file && this.initialOffset == initialOffset
      ensures Abs() == Start(initialOffset) && reports == []
    {
      this.file := file;
      this.initialOffset := initialOffset;
      filePos, buffer, eof := 0, [], false;
      lastRecordOffset, endOfBufferOffset := 0, 0;
      resyncing := initialOffset > 0;
      reports := [];
    }

    method ReportDrop(bytes: nat)
      modifies `reports
      ensures reports == old(reports) + Drop(initialOffset, Abs(), bytes)
      // The place of the drop is computed in unsigned 64-bit numbers.
      ensures reports == old(reports) +
        if (endOfBufferOffset - |buffer| - bytes) % 0x1_0000_0000_0000_0000 >= initialOffset then [bytes] else []
    {
      if Sub(endOfBufferOffset, |buffer| + bytes) >= initialOffset {
        reports := reports + [bytes];
      }
    }

    method ReadPhysicalRecord() returns (rtype: nat, result: ByteSeq)
      modifies this
      ensures var r := ReadPhysical(file, initialOffset, old(Abs()));
        rtype == r.rtype && result == r.fragment && Abs() == r.s && reports == old(reports) + r.reports
    {
      hide ParseHeader, PayloadLength;
      while |buffer| < HEADER_SIZE
        invariant reports == old(reports)
        invariant ReadPhysical(file, initialOffset, Abs()) == ReadPhysical(file, initialOffset, old(Abs()))
        decreases if eof then 0 else 1 + Max(0, |file| - filePos)
      {
        if !eof {
          buffer := NextBlock(file, filePos);
          filePos := filePos + |buffer|;
          endOfBufferOffset := endOfBufferOffset + |buffer|;
          eof := |buffer| < BLOCK_SIZE;
        } else {
          buffer := [];
          return EOF, [];
        }
      }
      rtype, result := ParseBufferedRecord();
    }

    /** The rest of ReadPhysicalRecord's loop, reached with a header in the buffer. */
    method ParseBufferedRecord() returns (rtype: nat, result: ByteSeq)
      requires |buffer| >= HEADER_SIZE
      modifies this
      ensures var r := ParseHeader(initialOffset, old(Abs()));
        rtype == r.rtype && result == r.fragment && Abs() == r.s && reports == old(reports) + r.reports
    {
      var header := buffer;
      var length := PayloadLength(header);
      rtype, result := header[6], [];
      if HEADER_SIZE + length > |buffer| {
        var dropSize := |buffer|;
        buffer := [];
        if !eof {
          ReportDrop(dropSize);
          return BAD_RECORD, [];
        }
        return EOF, [];
      }
      if rtype == ZERO_TYPE && length == 0 {
        buffer := [];
        return BAD_RECORD, [];
      }
      buffer := buffer[HEADER_SIZE + length..];
      if Sub(endOfBufferOffset, |buffer| + HEADER_SIZE + length) < initialOffset {
        return BAD_RECORD, [];
      }
      result := header[HEADER_SIZE..HEADER_SIZE + length];
    }

    method SkipToInitialBlock()
      modifies this
      ensures Abs() == SkipToInitial(initialOffset, old(Abs())) && reports == old(reports)
      // The block of the offset, or the next one if the offset lies in its last five bytes.
      ensures endOfBufferOffset == (initialOffset / 32768 + if initialOffset % 32768 > 32762 then 1 else 0) * 32768
      ensures filePos == old(filePos) + endOfBufferOffset
    {
      var offsetInBlock := initialOffset % BLOCK_SIZE;
      var blockStart := initialOffset - offsetInBlock;
      if offsetInBlock > BLOCK_SIZE - 6 {
        blockStart := blockStart + BLOCK_SIZE;
      }
      endOfBufferOffset := blockStart;
      if blockStart > 0 {
        filePos := filePos + blockStart;
      }
    }

    /** ReadRecord's switch on one physical record. */
    method DispatchRecord(rtype: nat, fragment: ByteSeq, a: Assembly)
      returns (done: bool, found: bool, record: ByteSeq, a': Assembly)
      modifies `lastRecordOffset, `resyncing, `reports
      ensures match Dispatch(initialOffset, Physical(rtype, fragment, old(Abs()), []), a)
        case Return(o) =>
          done && found == o.found && record == o.record && Abs() == o.s && reports == old(reports) + o.reports
        case Continue(s, next, dropped) =>
          !done && record == [] && a' == next && Abs() == s && reports == old(reports) + dropped
    {
      done, found, record, a' := false, false, [], a;
      var at := Sub(endOfBufferOffset, |buffer| + HEADER_SIZE + |fragment|);
      if resyncing {
        if rtype == MIDDLE_TYPE {
          return;
        }
        resyncing := false;
        if rtype == LAST_TYPE {
          return;
        }
      }
      if rtype == FULL_TYPE {
        if a.open && a.scratch != [] {
          ReportDrop(|a.scratch|);
        }
        lastRecordOffset := at;
        done, found, record := true, true, fragment;
      } else if rtype == FIRST_TYPE {
        if a.open && a.scratch != [] {
          ReportDrop(|a.scratch|);
        }
        a' := Assembly(true, fragment, at);
      } else if rtype == MIDDLE_TYPE {
        if !a.open {
          ReportDrop(|fragment|);
        } else {
          a' := a.(scratch := a.scratch + fragment);
        }
      } else if rtype == LAST_TYPE {
        if !a.open {
          ReportDrop(|fragment|);
        } else {
          lastRecordOffset := a.start;
          done, found, record := true, true, a.scratch + fragment;
        }
      } else if rtype == EOF {
        done := true;
      } else if rtype == BAD_RECORD {
        if a.open {
          ReportDrop(|a.scratch|);
          a' := Assembly(false, [], a.start);
        }
      } else {
        ReportDrop(|fragment| + (if a.open then |a.scratch| else 0));
        a' := Assembly(false, [], a.start);
      }
    }

    /** ReadRecord: false at the end of the input; on success the reader's state holds the record's offset. */
    method ReadRecord() returns (found: bool, record: ByteSeq)
      modifies this
      ensures var o := ReadRecordSpec(file, initialOffset, old(Abs()));
        found == o.found && record == o.record && Abs() == o.s && reports == old(reports) + o.reports
    {
      hide ReadPhysical, Dispatch;
      if lastRecordOffset < initialOffset {
        SkipToInitialBlock();
      }
      var a, done := NOTHING, false;
      found, record := false, [];
      ghost var s0 := Abs();
      while !done
        invariant !done ==> record == []
        invariant Prepend(old(reports), Assemble(file, initialOffset, s0, NOTHING))
               == Prepend(reports, if done then Outcome(found, record, Abs(), []) else Assemble(file, initialOffset, Abs(), a))
        decreases !done, Unread(file, Abs())
      {
        ghost var r0 := reports;
        ghost var ph := ReadPhysical(file, initialOffset, Abs());
        var rtype, fragment := ReadPhysicalRecord();
        SwitchIgnoresReports(initialOffset, ph, a);
        done, found, record, a := DispatchRecord(rtype, fragment, a);
      }
    }
  }

  lemma SwitchIgnoresReports(initialOffset: nat, ph: Physical, a: Assembly)
    ensures Dispatch(initialOffset, ph, a) == Dispatch(initialOffset, ph.(reports := []), a)
  {
  }
}

/** PosixWritableFile of src/env/env_posix.cpp: a buffer in front of write(), which may take any positive part of
    what it is given, be interrupted or fail. */
module WritableFile {
  import opened Bytes

  const BUFFER_SIZE := 65536

  /** How the system answers the next call of write(). */
  datatype Answer = Takes(atMost: nat) | Interrupted | Fails

  /** What is on disk, what is buffered, the answers still to come and whether the file is open.  When no answers
      are left, write() takes all it is given. */
  datatype File = File(disk: ByteSeq, buffer: ByteSeq, script: seq<Answer>, open: bool)

  /** What becomes of writing `size` bytes: how many reach the disk, and the answers left over. */
  datatype Outcome = Outcome(written: nat, ok: bool, rest: seq<Answer>)

  /** The loop of WriteUnbuffered against the given answers. */
  function WriteAll(script: seq<Answer>, open: bool, size: nat): (r: Outcome)
    ensures r.written <= size && (r.ok <==> r.written == size)
    decreases |script|
  {
    if size == 0 then Outcome(0, true, script)
    else if !open then Outcome(0, false, script)
    else if script == [] then Outcome(size, true, [])
    else match script[0] {
      case Interrupted => WriteAll(script[1..], open, size)
      case Fails => Outcome(0, false, script[1..])
      case Takes(atMost) =>
        var n := Max(1, Min(atMost, size));
        var r := WriteAll(script[1..], open, size - n);
        r.(written := n + r.written)
    }
  }

  // ---------- the calls on values ----------

  function FlushSpec(f: File): (File, bool) {
    var r := WriteAll(f.script, f.open, |f.buffer|);
    (f.(disk := f.disk + f.buffer[..r.written], buffer := [], script := r.rest), r.ok)
  }

  function WriteSpec(f: File, data: ByteSeq): (File, bool) {
    var r := WriteAll(f.script, f.open, |data|);
    (f.(disk := f.disk + data[..r.written], script := r.rest), r.ok)
  }

  function AppendSpec(f: File, data: ByteSeq): (File, bool)
    requires |f.buffer| <= BUFFER_SIZE
  {
    var copy := Min(|data|, BUFFER_SIZE - |f.buffer|);
    var filled, rest := f.(buffer := f.buffer + data[..copy]), data[copy..];
    if rest == [] then (filled, true)
    else
      var (g, ok) := FlushSpec(filled);
      if !ok then (g, false)
      else if |rest| < BUFFER_SIZE then (g.(buffer := rest), true)
      else WriteSpec(g, rest)
  }

  /** Close; closing the descriptor may fail as well. */
  function CloseSpec(f: File, closes: bool): (File, bool) {
    var (g, ok) := FlushSpec(f);
    (g.(open := false), ok && closes)
  }

  datatype Call = Append(data: ByteSeq) | Flush | Close(closes: bool)

  function Do(f: File, call: Call): (r: (File, bool))
    requires |f.buffer| <= BUFFER_SIZE
    ensures |r.0.buffer| <= BUFFER_SIZE
  {
    match call
    case Append(data) => AppendSpec(f, data)
    case Flush => FlushSpec(f)
    case Close(closes) => CloseSpec(f, closes)
  }

  function DataOf(call: Call): ByteSeq {
    if call.Append? then call.data else []
  }

  function AllData(calls: seq<Call>): ByteSeq {
    if calls == [] then [] else AllData(calls[..|calls| - 1]) + DataOf(calls[|calls| - 1])
  }

  /** The file after a run of calls, and whether all of them succeeded. */
  function Run(f: File, calls: seq<Call>): (r: (File, bool))
    requires |f.buffer| <= BUFFER_SIZE
    ensures |r.0.buffer| <= BUFFER_SIZE
  {
    if calls == [] then (f, true)
    else
      var (g, ok) := Run(f, calls[..|calls| - 1]);
      var (h, last) := Do(g, calls[|calls| - 1]);
      (h, ok && last)
  }

  /** What the file has been given, and has not lost. */
  function Contents(f: File): ByteSeq {
    f.disk + f.buffer
  }

  lemma FlushKeeps(f: File)
    ensures var (g, ok) := FlushSpec(f);
      && f.disk <= g.disk <= Contents(f)
      && (ok ==> Contents(g) == g.disk == Contents(f))
  {
  }

  lemma WriteKeeps(f: File, data: ByteSeq)
    requires f.buffer == []
    ensures var (g, ok) := WriteSpec(f, data);
      && f.disk <= g.disk <= Contents(f) + data
      && (ok ==> Contents(g) == Contents(f) + data)
  {
  }

  lemma AppendKeeps(f: File, data: ByteSeq)
    requires |f.buffer| <= BUFFER_SIZE
    ensures var (g, ok) := AppendSpec(f, data);
      && f.disk <= g.disk <= Contents(f) + data
      && (ok ==> Contents(g) == Contents(f) + data)
  {
    var copy := Min(|data|, BUFFER_SIZE - |f.buffer|);
    var filled, rest := f.(buffer := f.buffer + data[..copy]), data[copy..];
    assert data == data[..copy] + rest;
    assert Contents(filled) + rest == Contents(f) + data;
    hide FlushSpec, WriteSpec;
    if rest != [] {
      FlushKeeps(filled);
      FlushEmpties(filled);
      var (g, ok) := FlushSpec(filled);
      if ok && |rest| >= BUFFER_SIZE {
        WriteKeeps(g, rest);
      }
    }
  }

  /** What fits the buffer is only copied; otherwise the full buffer goes to the disk, and after it the rest of the data
      unless that fits the buffer. */
  ghost predicate Appended(disk: ByteSeq, buffer: ByteSeq, data: ByteSeq, disk': ByteSeq, buffer': ByteSeq, ok: bool) {
    && disk <= disk' <= disk + buffer + data
    && (|buffer| + |data| <= 65536 ==> ok && disk' == disk && buffer' == buffer + data)
    && (|buffer| + |data| > 65536 && ok ==>
          && disk' + buffer' == disk + buffer + data
          && |buffer'| == if |buffer| + |data| < 2 * 65536 then |buffer| + |data| - 65536 else 0)
  }

  lemma AppendMeans(f: File, data: ByteSeq)
    requires |f.buffer| <= BUFFER_SIZE
    ensures var (g, ok) := AppendSpec(f, data); Appended(f.disk, f.buffer, data, g.disk, g.buffer, ok)
  {
    AppendKeeps(f, data);
    var copy := Min(|data|, BUFFER_SIZE - |f.buffer|);
    var filled, rest := f.(buffer := f.buffer + data[..copy]), data[copy..];
    hide FlushSpec, WriteSpec;
    FlushEmpties(filled);
    if rest == [] {
      assert data[..copy] == data;
    } else {
      WriteLeavesBuffer(FlushSpec(filled).0, rest);
    }
  }

  lemma WriteLeavesBuffer(f: File, data: ByteSeq)
    ensures WriteSpec(f, data).0.buffer == f.buffer
  {
  }

  lemma FlushEmpties(f: File)
    ensures FlushSpec(f).0.buffer == []
  {
  }

  /** A call that succeeds adds its data; one that fails leaves on disk a prefix of the whole. */
  lemma DoKeeps(f: File, call: Call)
    requires |f.buffer| <= BUFFER_SIZE
    ensures var (g, ok) := Do(f, call);
      && f.disk <= g.disk <= Contents(f) + DataOf(call)
      && (ok ==> Contents(g) == Contents(f) + DataOf(call))
  {
    assert Contents(f) + [] == Contents(f);
    hide AppendSpec, FlushSpec;
    match call
    case Flush => FlushKeeps(f);
    case Close(_) => FlushKeeps(f);
    case Append(data) => AppendKeeps(f, data);
  }

  /** Over any run of calls: while they succeed nothing is lost or reordered, and through the first one that fails
      the disk holds a prefix of the data. */
  lemma {:induction false} NothingLost(f: File, calls: seq<Call>)
    requires |f.buffer| <= BUFFER_SIZE
    requires calls == [] || Run(f, calls[..|calls| - 1]).1
    ensures var (g, ok) := Run(f, calls);
      && g.disk <= Contents(f) + AllData(calls)
      && (ok ==> Contents(g) == Contents(f) + AllData(calls))
  {
    if calls != [] {
      var n := |calls| - 1;
      if n > 0 {
        AllBefore(f, calls[..n]);
      }
      hide Do, DataOf, Contents, Run, AllData;
      NothingLost(f, calls[..n]);
      DoKeeps(Run(f, calls[..n]).0, calls[n]);
      RunLast(f, calls);
    } else {
      assert Contents(f) + [] == Contents(f);
    }
  }

  lemma RunLast(f: File, calls: seq<Call>)
    requires |f.buffer| <= BUFFER_SIZE && calls != []
    ensures var n := |calls| - 1; var (g, ok) := Run(f, calls[..n]); var (h, last) := Do(g, calls[n]);
      Run(f, calls) == (h, ok && last) && Contents(f) + AllData(calls) == Contents(f) + AllData(calls[..n]) + DataOf(calls[n])
  {
    hide Do, Contents, DataOf, Run;
    RunUnfolds(f, calls);
    var n := |calls| - 1;
    assert AllData(calls) == AllData(calls[..n]) + DataOf(calls[n]);
    hide AllData;
    Associative(Contents(f), AllData(calls[..n]), DataOf(calls[n]));
  }

  lemma RunUnfolds(f: File, calls: seq<Call>)
    requires |f.buffer| <= BUFFER_SIZE && calls != []
    ensures var n := |calls| - 1; var (g, ok) := Run(f, calls[..n]); var (h, last) := Do(g, calls[n]);
      Run(f, calls) == (h, ok && last)
  {
    hide Do;
  }

  lemma AllBefore(f: File, calls: seq<Call>)
    requires |f.buffer| <= BUFFER_SIZE && calls != [] && Run(f, calls).1
    ensures Run(f, calls[..|calls| - 1]).1
  {
  }

  /** After a run of successful calls that ends in Close or Flush everything is on the disk alone. */
  lemma AllOnDisk(f: File, calls: seq<Call>)
    requires |f.buffer| <= BUFFER_SIZE && calls != [] && !calls[|calls| - 1].Append? && Run(f, calls).1
    ensures Run(f, calls).0.disk == Contents(f) + AllData(calls) && Run(f, calls).0.buffer == []
  {
    var n := |calls| - 1;
    AllBefore(f, calls);
    hide Do, DataOf, Run, AllData, WriteAll;
    RunLast(f, calls);
    NothingLost(f, calls);
    LastEmpties(Run(f, calls[..n]).0, calls[n]);
    AppendNothing(Run(f, calls).0.disk);
  }

  lemma LastEmpties(f: File, call: Call)
    requires |f.buffer| <= BUFFER_SIZE && !call.Append?
    ensures Do(f, call).0.buffer == []
  {
  }

  /** After a failure the buffer is dropped, so what is written later need not follow what came before. */
  lemma LossAfterFailure()
    ensures var calls := [Append([1]), Flush, Append([2]), Flush];
      Run(File([], [], [Fails], true), calls).0.disk == [2] && AllData(calls) == [1, 2]
  {
    var f, calls := File([], [], [Fails], true), [Append([1]), Flush, Append([2]), Flush];
    var c3, c2, c1 := calls[..3], calls[..2], calls[..1];
    assert c3[..2] == c2 && c2[..1] == c1 && c1[..0] == [] && c1 == [Append([1])] && c2 == [Append([1]), Flush];
    assert AllData(c1) == [1] && AllData(c2) == [1] && AllData(c3) == [1, 2];
    assert Do(f, calls[0]).0 == f.(buffer := [1]);
    assert Run(f, c1).0 == f.(buffer := [1]);
    assert Run(f, c2).0 == File([], [], [], true);
    assert Do(File([], [], [], true), calls[2]).0 == File([], [2], [], true);
    assert Run(f, c3).0 == File([], [2], [], true);
  }

  // ---------- nothing is lost exactly when nothing fails ----------

  lemma DoSize(f: File, call: Call)
    requires |f.buffer| <= BUFFER_SIZE && !call.Close?
    ensures var (g, ok) := Do(f, call);
      && |Contents(g)| <= |Contents(f)| + |DataOf(call)|
      && (ok <==> |Contents(g)| == |Contents(f)| + |DataOf(call)|)
  {
  }

  /** Over any run of Append and Flush, failing or not: all the data is on disk or in the buffer exactly if no
      call failed. */
  lemma {:induction false} LostExactlyOnFailure(f: File, calls: seq<Call>)
    requires |f.buffer| <= BUFFER_SIZE && forall c :: c in calls ==> !c.Close?
    ensures var (g, ok) := Run(f, calls);
      && |Contents(g)| <= |Contents(f) + AllData(calls)|
      && (Contents(g) == Contents(f) + AllData(calls) <==> ok)
      && (ok <==> |Contents(g)| == |Contents(f) + AllData(calls)|)
  {
    if calls != [] {
      var n := |calls| - 1;
      hide Do, DataOf;
      assert calls[n] in calls;
      LostExactlyOnFailure(f, calls[..n]);
      DoSize(Run(f, calls[..n]).0, calls[n]);
      DoKeeps(Run(f, calls[..n]).0, calls[n]);
      assert Contents(f) + AllData(calls[..n]) + DataOf(calls[n]) == Contents(f) + AllData(calls);
    }
  }

  /** The answers that a write takes, and when they let it succeed. */
  lemma {:induction false} WriteTakes(script: seq<Answer>, open: bool, size: nat) returns (used: seq<Answer>)
    ensures var r := WriteAll(script, open, size);
      && script == used + r.rest
      && (r.ok <==> size == 0 || (open && Fails !in used)) && (!open ==> used == [])
    decreases |script|
  {
    used := [];
    if size > 0 && open && script != [] {
      match script[0] {
        case Interrupted =>
          var more := WriteTakes(script[1..], open, size);
          used := [Interrupted] + more;
        case Fails =>
          used := [Fails];
        case Takes(atMost) =>
          var more := WriteTakes(script[1..], open, size - Max(1, Min(atMost, size)));
          used := [script[0]] + more;
      }
    }
  }

  /** The call writes to the descriptor. */
  predicate Writes(f: File, call: Call) {
    match call
    case Append(data) => |f.buffer| + |data| > BUFFER_SIZE
    case Flush => f.buffer != []
    case Close(_) => f.buffer != []
  }

  lemma FlushTakes(f: File) returns (used: seq<Answer>)
    ensures var (g, ok) := FlushSpec(f);
      && f.script == used + g.script && g.open == f.open && g.buffer == []
      && (ok <==> f.buffer == [] || (f.open && Fails !in used)) && (!f.open ==> used == [])
  {
    used := WriteTakes(f.script, f.open, |f.buffer|);
  }

  lemma AppendTakes(f: File, data: ByteSeq) returns (used: seq<Answer>)
    requires |f.buffer| <= BUFFER_SIZE
    ensures var (g, ok) := AppendSpec(f, data);
      && f.script == used + g.script && g.open == f.open
      && (ok <==> Fails !in used && (f.open || |f.buffer| + |data| <= BUFFER_SIZE))
  {
    var copy := Min(|data|, BUFFER_SIZE - |f.buffer|);
    var filled, rest := f.(buffer := f.buffer + data[..copy]), data[copy..];
    used := [];
    hide FlushSpec, WriteAll;
    if rest != [] {
      assert |filled.buffer| == BUFFER_SIZE;
      used := FlushTakes(filled);
      var (g, ok) := FlushSpec(filled);
      if ok && |rest| >= BUFFER_SIZE {
        var more := WriteTakes(g.script, g.open, |rest|);
        used := used + more;
      }
    }
  }

  /** Nothing is lost in a call that takes these answers. */
  predicate Safe(f: File, call: Call, used: seq<Answer>) {
    Fails !in used && (f.open || !Writes(f, call))
  }

  lemma DoTakes(f: File, call: Call) returns (used: seq<Answer>)
    requires |f.buffer| <= BUFFER_SIZE
    ensures var (g, ok) := Do(f, call);
      && f.script == used + g.script
      && (ok <==> Safe(f, call, used) && (call.Close? ==> call.closes))
      && |Contents(g)| <= |Contents(f)| + |DataOf(call)|
      && (|Contents(g)| == |Contents(f)| + |DataOf(call)| <==> Safe(f, call, used))
      && (Safe(f, call, used) ==> Contents(g) == Contents(f) + DataOf(call))
  {
    hide FlushSpec, AppendSpec;
    FlushEmpty(f);
    DoSize(f, if call.Close? then Flush else call);
    DoKeeps(f, if call.Close? then Flush else call);
    match call
    case Append(data) =>
      used := AppendTakes(f, data);
    case _ =>
      used := FlushTakes(f);
  }

  lemma FlushEmpty(f: File)
    ensures f.buffer == [] ==> FlushSpec(f).0.script == f.script
  {
  }

  /** Every call of the run finds the file open or does not write. */
  predicate OnlyOpen(f: File, calls: seq<Call>)
    requires |f.buffer| <= BUFFER_SIZE
  {
    if calls == [] then true
    else
      var n := |calls| - 1;
      var g := Run(f, calls[..n]).0;
      OnlyOpen(f, calls[..n]) && (g.open || !Writes(g, calls[n]))
  }

  /** Over any run of calls, in terms of what the system answers: data is lost exactly if one of the answers that the
      run takes is a failure, or a write meets a closed file. */
  lemma {:induction false} LostExactlyOnFails(f: File, calls: seq<Call>) returns (used: seq<Answer>)
    requires |f.buffer| <= BUFFER_SIZE
    ensures var (g, ok) := Run(f, calls);
      && f.script == used + g.script
      && (Contents(g) == Contents(f) + AllData(calls) <==> Fails !in used && OnlyOpen(f, calls))
      && |Contents(g)| <= |Contents(f) + AllData(calls)|
      && (|Contents(g)| == |Contents(f) + AllData(calls)| <==> Fails !in used && OnlyOpen(f, calls))
      && (ok <==> Fails !in used && OnlyOpen(f, calls) && forall c :: c in calls && c.Close? ==> c.closes)
  {
    used := [];
    if calls == [] {
      assert Contents(f) + [] == Contents(f);
    } else {
      var n := |calls| - 1;
      used := LostExactlyOnFails(f, calls[..n]);
      var more := DoTakes(Run(f, calls[..n]).0, calls[n]);
      RunTakes(f, calls, used, more);
      used := used + more;
    }
  }

  lemma RunTakes(f: File, calls: seq<Call>, used: seq<Answer>, more: seq<Answer>)
    requires |f.buffer| <= BUFFER_SIZE && calls != []
    requires var n := |calls| - 1; var (g, before) := Run(f, calls[..n]); var (h, last) := Do(g, calls[n]);
      && f.script == used + g.script && g.script == more + h.script
      && (Contents(g) == Contents(f) + AllData(calls[..n]) <==> Fails !in used && OnlyOpen(f, calls[..n]))
      && |Contents(g)| <= |Contents(f) + AllData(calls[..n])|
      && (|Contents(g)| == |Contents(f) + AllData(calls[..n])| <==> Fails !in used && OnlyOpen(f, calls[..n]))
      && |Contents(h)| <= |Contents(g)| + |DataOf(calls[n])|
      && (|Contents(h)| == |Contents(g)| + |DataOf(calls[n])| <==> Safe(g, calls[n], more))
      && (Safe(g, calls[n], more) ==> Contents(h) == Contents(g) + DataOf(calls[n]))
    ensures var (h, _) := Run(f, calls);
      && f.script == used + more + h.script
      && (Fails !in used + more && OnlyOpen(f, calls) <==>
            Fails !in used && OnlyOpen(f, calls[..|calls| - 1]) && Safe(Run(f, calls[..|calls| - 1]).0, calls[|calls| - 1], more))
      && (Contents(h) == Contents(f) + AllData(calls) <==> Fails !in used + more && OnlyOpen(f, calls))
      && |Contents(h)| <= |Contents(f) + AllData(calls)|
      && (|Contents(h)| == |Contents(f) + AllData(calls)| <==> Fails !in used + more && OnlyOpen(f, calls))
  {
    hide Do, Contents, DataOf, Writes, Run, AllData;
    RunLast(f, calls);
    assert Fails !in used + more <==> Fails !in used && Fails !in more;
  }

  // ---------- the file ----------

  lemma NothingToWrite(script: seq<Answer>, open: bool)
    ensures WriteAll(script, open, 0) == Outcome(0, true, script)
  {
  }

  class PosixWritableFile {
    const buf: array<Byte>
    var pos: nat
    var open: bool            // fd_ >= 0
    var disk: ByteSeq         // what the system holds
    var script: seq<Answer>   // how it will answer

    ghost predicate Valid()
      reads this
    {
      buf.Length == BUFFER_SIZE && pos <= BUFFER_SIZE
    }

    ghost function State(): File
      reads this, buf
      requires Valid()
    {
      File(disk, buf[..pos], script, open)
    }

    constructor (script: seq<Answer>)
      ensures Valid() && fresh(buf) && State() == File([], [], script, true)
    {
      buf := new Byte[BUFFER_SIZE];
      pos, open, disk, this.script := 0, true, [], script;
    }

    /** One call of write(): how many bytes it took, or an error. */
    method Write(data: ByteSeq) returns (taken: nat, error: Option<Answer>)
      requires data != []
      modifies this`disk, this`script
      ensures error == Some(Interrupted) || error == None || error == Some(Fails)
      ensures error != None ==> disk == old(disk)
      ensures error == None ==> 1 <= taken <= |data| && disk == old(disk) + data[..taken] && open
      ensures |script| <= |old(script)| && (error == Some(Interrupted) ==> |script| < |old(script)|)
      ensures var rest := if error == None then |data| - taken else |data|;
        error != Some(Fails) ==>
          WriteAll(old(script), open, |data|) ==
            var r := WriteAll(script, open, rest); r.(written := |data| - rest + r.written)
      ensures error == Some(Fails) ==> WriteAll(old(script), open, |data|) == Outcome(0, false, script)
    {
      taken, error := 0, None;
      if !open {
        error := Some(Fails);
      } else if script == [] {
        taken := |data|;
        disk := disk + data;
      } else {
        match script[0] {
          case Interrupted => error := Some(Interrupted);
          case Fails => error := Some(Fails);
          case Takes(atMost) =>
            taken := Max(1, Min(atMost, |data|));
            disk := disk + data[..taken];
        }
        script := script[1..];
      }
    }

    method WriteUnbuffered(data: ByteSeq) returns (ok: bool)
      modifies this`disk, this`script
      ensures var r := WriteAll(old(script), open, |data|);
        ok == r.ok && disk == old(disk) + data[..r.written] && script == r.rest
      ensures old(disk) <= disk <= old(disk) + data && (ok <==> disk == old(disk) + data)
    {
      var rest := data;
      hide WriteAll;
      NothingToWrite(script, open);
      while rest != []
        invariant |rest| <= |data| && rest == data[|data| - |rest|..] && disk == old(disk) + data[..|data| - |rest|]
        invariant var r := WriteAll(script, open, |rest|);
          WriteAll(old(script), open, |data|) == r.(written := |data| - |rest| + r.written)
        decreases |rest| + |script|
      {
        var taken, error := Write(rest);
        if error == Some(Interrupted) {
          continue;
        }
        if error != None {
          return false;
        }
        rest := rest[taken..];
      }
      NothingToWrite(script, open);
      return true;
    }

    method FlushBuffer() returns (ok: bool)
      requires Valid()
      modifies this`pos, this`disk, this`script
      ensures Valid() && (State(), ok) == FlushSpec(old(State()))
      ensures pos == 0 && old(disk) <= disk <= old(disk) + old(buf[..pos]) && (ok <==> disk == old(disk) + old(buf[..pos]))
    {
      ok := WriteUnbuffered(buf[..pos]);
      pos := 0;
    }

    /** Copies the data into the buffer from position `at` on. */
    method CopyIn(at: nat, data: ByteSeq)
      requires at + |data| <= buf.Length
      modifies buf
      ensures buf[..at + |data|] == old(buf[..at]) + data
    {
      forall i | 0 <= i < |data| {
        buf[at + i] := data[i];
      }
    }

    method Append(data: ByteSeq) returns (ok: bool)
      requires Valid()
      modifies this`pos, this`disk, this`script, buf
      ensures Valid() && (State(), ok) == AppendSpec(old(State()), data)
      ensures Appended(old(disk), old(buf[..pos]), data, disk, buf[..pos], ok)
    {
      var copy := Min(|data|, BUFFER_SIZE - pos);
      CopyIn(pos, data[..copy]);
      var rest := data[copy..];
      pos := pos + copy;
      AppendMeans(old(State()), data);
      hide FlushSpec, WriteAll, Appended;
      assert State() == old(State()).(buffer := old(buf[..pos]) + data[..copy]);
      if rest == [] {
        return true;
      }
      ok := FlushBuffer();
      if !ok {
        return false;
      }
      if |rest| < BUFFER_SIZE {
        ghost var g := State();
        CopyIn(0, rest);
        pos := |rest|;
        assert State() == g.(buffer := rest);
        return true;
      }
      ok := WriteUnbuffered(rest);
    }

    method Flush() returns (ok: bool)
      requires Valid()
      modifies this`pos, this`disk, this`script
      ensures Valid() && (State(), ok) == FlushSpec(old(State()))
      ensures pos == 0 && old(disk) <= disk <= old(disk) + old(buf[..pos]) && (ok <==> disk == old(disk) + old(buf[..pos]))
    {
      ok := FlushBuffer();
    }

    method Close(closes: bool) returns (ok: bool)
      requires Valid()
      modifies this`pos, this`disk, this`script, this`open
      ensures Valid() && (State(), ok) == CloseSpec(old(State()), closes)
      ensures pos == 0 && !open && old(disk) <= disk <= old(disk) + old(buf[..pos])
      ensures ok <==> closes && disk == old(disk) + old(buf[..pos])
    {
      ok := FlushBuffer();
      if !closes && ok {
        ok := false;
      }
      open := false;
    }
  }
}

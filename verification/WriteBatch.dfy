/** src/write_batch/write_batch.cpp: a list of puts and deletes kept as the bytes that go to the log. */
module WriteBatch {
  import opened Bytes
  import opened Coding
  import opened DbFormat

  const HEADER_SIZE := 12
  const INT32_LIMIT := 0x8000_0000

  datatype Op = Put(key: ByteSeq, value: ByteSeq) | Delete(key: ByteSeq)

  datatype Error = TooSmall | BadPut | BadDelete | UnknownTag | WrongCount

  /** Lengths are written as 32-bit varints. */
  predicate Encodable(op: Op) {
    |op.key| < UINT32 && (op.Put? ==> |op.value| < UINT32)
  }

  function EncodeOp(op: Op): (b: ByteSeq)
    ensures |b| >= 2 && b[0] == if op.Put? then 1 else 0
  {
    match op
    case Put(key, value) => [TYPE_VALUE] + LengthPrefixed(key) + LengthPrefixed(value)
    case Delete(key) => [TYPE_DELETION] + LengthPrefixed(key)
  }

  function EncodeOps(ops: seq<Op>): ByteSeq {
    if ops == [] then [] else EncodeOp(ops[0]) + EncodeOps(ops[1..])
  }

  /** The batch's bytes stand for these operations; the first eight bytes are the sequence number. */
  ghost predicate Holds(rep: ByteSeq, ops: seq<Op>) {
    && |rep| >= HEADER_SIZE
    && rep[8..12] == Fixed(4, |ops|)
    && rep[12..] == EncodeOps(ops)
    && (forall op :: op in ops ==> Encodable(op))
  }

  // ---------- reading ----------

  /** One record off the front of the input. */
  datatype Parsed = Done(op: Op, rest: ByteSeq) | Bad(error: Error)

  function ParseOp(input: ByteSeq): (p: Parsed)
    requires input != []
    ensures p.Done? ==> |p.rest| < |input|
  {
    if input[0] == TYPE_VALUE then
      match GetLengthPrefixed(input[1..])
      case None => Bad(BadPut)
      case Some(k) =>
        (match GetLengthPrefixed(k.1)
         case None => Bad(BadPut)
         case Some(v) => Done(Put(k.0, v.0), v.1))
    else if input[0] == TYPE_DELETION then
      match GetLengthPrefixed(input[1..])
      case None => Bad(BadDelete)
      case Some(k) => Done(Delete(k.0), k.1)
    else Bad(UnknownTag)
  }

  /** What the handler is given, in order, and how the iteration ended. */
  datatype Iteration = Iteration(ops: seq<Op>, error: Option<Error>)

  function ParseOps(input: ByteSeq): Iteration
    decreases |input|
  {
    if input == [] then Iteration([], None)
    else
      match ParseOp(input)
      case Bad(error) => Iteration([], Some(error))
      case Done(op, rest) =>
        var it := ParseOps(rest);
        it.(ops := [op] + it.ops)
  }

  /** Count: the stored 32 bits read as a signed integer. */
  function CountOf(rep: ByteSeq): int
    requires |rep| >= HEADER_SIZE
  {
    var n := FromFixed(rep[8..12]);
    if n >= INT32_LIMIT then n - UINT32 else n
  }

  function IterateSpec(rep: ByteSeq): Iteration {
    if |rep| < HEADER_SIZE then Iteration([], Some(TooSmall))
    else
      var it := ParseOps(rep[12..]);
      if it.error == None && |it.ops| != CountOf(rep) then it.(error := Some(WrongCount)) else it
  }

  // ---------- the batch ----------

  class WriteBatch {
    var rep: ByteSeq

    constructor ()
      ensures Holds(rep, [])
    {
      rep := Zeros(HEADER_SIZE);
      new;
      ZeroCount();
    }

    method Clear()
      modifies this
      ensures Holds(rep, [])
    {
      rep := Zeros(HEADER_SIZE);
      ZeroCount();
    }

    method SetCount(n: nat)
      requires |rep| >= HEADER_SIZE
      modifies this
      ensures rep == old(rep)[..8] + Fixed(4, n) + old(rep)[12..]
    {
      rep := rep[..8] + Fixed(4, n) + rep[12..];
    }

    method SetSequence(sequence: nat)
      requires |rep| >= HEADER_SIZE
      modifies this
      ensures rep == Fixed(8, sequence) + old(rep)[8..]
    {
      rep := Fixed(8, sequence) + rep[8..];
    }

    /** Put adds one operation at the end and leaves the sequence number alone. */
    method Put(key: ByteSeq, value: ByteSeq, ghost ops: seq<Op>)
      requires Holds(rep, ops) && |ops| + 1 < INT32_LIMIT
      requires Encodable(Op.Put(key, value))
      modifies this
      ensures Holds(rep, ops + [Op.Put(key, value)]) && rep[..8] == old(rep)[..8]
    {
      hide Holds, Fixed, LengthPrefixed, CountOf, EncodeOps;
      CountIs(rep, ops);
      SetCount(CountOf(rep) + 1);
      rep := rep + [TYPE_VALUE];
      rep := rep + LengthPrefixed(key);
      rep := rep + LengthPrefixed(value);
      OneOp(Op.Put(key, value));
      Extended(old(rep), ops, [Op.Put(key, value)], rep);
    }

    method Delete(key: ByteSeq, ghost ops: seq<Op>)
      requires Holds(rep, ops) && |ops| + 1 < INT32_LIMIT
      requires Encodable(Op.Delete(key))
      modifies this
      ensures Holds(rep, ops + [Op.Delete(key)]) && rep[..8] == old(rep)[..8]
    {
      hide Holds, Fixed, LengthPrefixed, CountOf, EncodeOps;
      CountIs(rep, ops);
      SetCount(CountOf(rep) + 1);
      rep := rep + [TYPE_DELETION];
      rep := rep + LengthPrefixed(key);
      OneOp(Op.Delete(key));
      Extended(old(rep), ops, [Op.Delete(key)], rep);
    }

    /** Append, which may be given the batch itself. */
    method Append(source: WriteBatch, ghost ops: seq<Op>, ghost more: seq<Op>)
      requires Holds(rep, ops) && Holds(source.rep, more) && |ops| + |more| < INT32_LIMIT
      modifies this
      ensures Holds(rep, ops + more) && rep[..8] == old(rep)[..8]
    {
      hide Holds, Fixed, CountOf, EncodeOps;
      CountIs(rep, ops);
      CountIs(source.rep, more);
      SetCount(CountOf(rep) + CountOf(source.rep));
      rep := rep + source.rep[12..];
      Extended(old(rep), ops, more, rep);
    }

    /** Iterate over a handler that records what it is given. */
    method Iterate() returns (it: Iteration)
      ensures it == IterateSpec(rep)
    {
      hide ParseOp, CountOf;
      if |rep| < HEADER_SIZE {
        return Iteration([], Some(TooSmall));
      }
      var input := rep[12..];
      var found, handled := 0, [];
      while input != []
        invariant found == |handled|
        invariant ParseOps(rep[12..]) == Iteration(handled + ParseOps(input).ops, ParseOps(input).error)
        decreases |input|
      {
        found := found + 1;
        match ParseOp(input)
        case Bad(error) =>
          return Iteration(handled, Some(error));
        case Done(op, rest) =>
          handled := handled + [op];
          input := rest;
      }
      if found != CountOf(rep) {
        return Iteration(handled, Some(WrongCount));
      }
      return Iteration(handled, None);
    }
  }

  lemma ZeroCount()
    ensures Holds(Zeros(HEADER_SIZE), [])
  {
    var rep := Zeros(HEADER_SIZE);
    assert rep[8..12] == [0, 0, 0, 0] == Fixed(4, 0) by {
      assert Fixed(1, 0) == [0];
      assert Fixed(2, 0) == [0, 0];
      assert Fixed(3, 0) == [0, 0, 0];
    }
  }

  lemma OneOp(op: Op)
    requires Encodable(op)
    ensures EncodeOps([op]) == EncodeOp(op)
    ensures forall x :: x in [op] ==> Encodable(x)
  {
    hide EncodeOp;
    assert EncodeOps([op]) == EncodeOp(op) + EncodeOps([]);
  }

  /** Rewriting the count and adding encoded operations at the end. */
  lemma Extended(before: ByteSeq, ops: seq<Op>, more: seq<Op>, after: ByteSeq)
    requires Holds(before, ops) && forall op :: op in more ==> Encodable(op)
    requires after == before[..8] + Fixed(4, |ops| + |more|) + before[12..] + EncodeOps(more)
    ensures Holds(after, ops + more) && after[..8] == before[..8]
  {
    hide Fixed, EncodeOps, Encodable;
    EncodeAppend(ops, more);
    assert after[8..12] == Fixed(4, |ops + more|);
    assert after[12..] == before[12..] + EncodeOps(more);
  }

  lemma CountIs(rep: ByteSeq, ops: seq<Op>)
    requires Holds(rep, ops) && |ops| < INT32_LIMIT
    ensures |rep| >= HEADER_SIZE && CountOf(rep) == |ops|
    ensures rep[12..] == EncodeOps(ops)
    ensures forall op :: op in ops ==> Encodable(op)
  {
    hide Fixed, FromFixed, EncodeOps, Encodable;
    Fixed32RoundTrip(|ops|);
  }

  lemma {:induction false} EncodeAppend(a: seq<Op>, b: seq<Op>)
    ensures EncodeOps(a + b) == EncodeOps(a) + EncodeOps(b)
    decreases |a|
  {
    if a == [] {
      assert a + b == b;
    } else {
      assert (a + b)[1..] == a[1..] + b;
      EncodeAppend(a[1..], b);
    }
  }

  // ---------- round trip, concatenation, truncation ----------

  lemma OpRoundTrip(op: Op, rest: ByteSeq)
    requires Encodable(op)
    ensures ParseOp(EncodeOp(op) + rest) == Done(op, rest)
  {
    hide LengthPrefixed, GetLengthPrefixed;
    var input := EncodeOp(op) + rest;
    if op.Put? {
      var tail := LengthPrefixed(op.value) + rest;
      assert input[1..] == LengthPrefixed(op.key) + tail;
      LengthPrefixedRoundTrip(op.key, tail);
      LengthPrefixedRoundTrip(op.value, rest);
    } else {
      assert input[1..] == LengthPrefixed(op.key) + rest;
      LengthPrefixedRoundTrip(op.key, rest);
    }
  }

  lemma {:induction false} OpsRoundTrip(ops: seq<Op>)
    requires forall op :: op in ops ==> Encodable(op)
    ensures ParseOps(EncodeOps(ops)) == Iteration(ops, None)
    decreases |ops|
  {
    hide EncodeOp, ParseOp, Encodable;
    if ops != [] {
      OpRoundTrip(ops[0], EncodeOps(ops[1..]));
      OpsRoundTrip(ops[1..]);
    }
  }

  /** Iterate replays exactly the operations the batch was given. */
  lemma IterateReplays(rep: ByteSeq, ops: seq<Op>)
    requires Holds(rep, ops) && |ops| < INT32_LIMIT
    ensures IterateSpec(rep) == Iteration(ops, None)
  {
    OpsRoundTrip(ops);
    CountIs(rep, ops);
  }

  /** How a record cut short is found out. */
  function TornError(op: Op): Error {
    if op.Put? then BadPut else BadDelete
  }

  lemma TornOp(op: Op, input: ByteSeq)
    requires Encodable(op) && input != [] && input < EncodeOp(op)
    ensures ParseOp(input) == Bad(TornError(op))
  {
    hide LengthPrefixed, GetLengthPrefixed;
    var rest := input[1..];
    var key := LengthPrefixed(op.key);
    if |rest| < |key| {
      assert rest < key;
      TornLengthPrefixed(op.key, rest);
    } else {
      assert op.Put?;
      var tail := rest[|key|..];
      assert rest == key + tail;
      LengthPrefixedRoundTrip(op.key, tail);
      assert tail < LengthPrefixed(op.value);
      TornLengthPrefixed(op.value, tail);
    }
  }

  /** A strict prefix of the records holds the first j of them, and then possibly part of the next. */
  lemma {:induction false} TornOps(ops: seq<Op>, input: ByteSeq) returns (j: nat)
    requires forall op :: op in ops ==> Encodable(op)
    requires input < EncodeOps(ops)
    ensures j < |ops| && EncodeOps(ops[..j]) <= input < EncodeOps(ops[..j]) + EncodeOp(ops[j])
    ensures ParseOps(input) ==
      Iteration(ops[..j], if input == EncodeOps(ops[..j]) then None else Some(TornError(ops[j])))
    decreases |ops|
  {
    hide EncodeOp, ParseOp, Encodable;
    j := 0;
    assert ops[..0] == [] && EncodeOps(ops[..0]) == [];
    var first := EncodeOp(ops[0]);
    assert [] + first == first;
    if 0 < |input| < |first| {
      assert input < first;
      TornOp(ops[0], input);
    } else if |input| >= |first| {
      var rest := input[|first|..];
      assert input == first + rest;
      OpRoundTrip(ops[0], rest);
      assert rest < EncodeOps(ops[1..]);
      var i := TornOps(ops[1..], rest);
      j := i + 1;
      assert ops[..j][1..] == ops[1..][..i] && ops[..j][0] == ops[0];
      assert EncodeOps(ops[..j]) == first + EncodeOps(ops[1..][..i]);
      assert first + (EncodeOps(ops[1..][..i]) + EncodeOp(ops[j])) == EncodeOps(ops[..j]) + EncodeOp(ops[j]);
    }
  }

  /** Every strict prefix of a batch that keeps its header is found corrupt: after the j operations that are whole have
      been delivered, by the count if it ends there, and by the next record if it ends within that.  One that does not
      is found too small. */
  lemma TornBatch(rep: ByteSeq, ops: seq<Op>, n: nat) returns (j: nat)
    requires Holds(rep, ops) && |ops| < INT32_LIMIT && n < |rep|
    ensures IterateSpec(rep[..n]).error.Some?
    ensures IterateSpec(rep[..n]).ops <= ops
    ensures IterateSpec(rep[..n]).error == Some(TooSmall) <==> n < HEADER_SIZE
    ensures n >= HEADER_SIZE ==>
      && j < |ops| && HEADER_SIZE + |EncodeOps(ops[..j])| <= n < HEADER_SIZE + |EncodeOps(ops[..j + 1])|
      && IterateSpec(rep[..n])
           == Iteration(ops[..j], Some(if n == HEADER_SIZE + |EncodeOps(ops[..j])| then WrongCount else TornError(ops[j])))
  {
    j := 0;
    if n >= HEADER_SIZE {
      var torn := rep[..n];
      assert torn[8..12] == rep[8..12];
      assert torn[12..] < EncodeOps(ops);
      CountIs(rep, ops);
      hide EncodeOp, EncodeOps, ParseOps;
      j := TornOps(ops, torn[12..]);
      NextEncoded(ops, j);
    }
  }

  lemma NextEncoded(ops: seq<Op>, j: nat)
    requires j < |ops|
    ensures EncodeOps(ops[..j + 1]) == EncodeOps(ops[..j]) + EncodeOp(ops[j])
  {
    hide EncodeOp;
    assert ops[..j + 1] == ops[..j] + [ops[j]];
    EncodeAppend(ops[..j], [ops[j]]);
    assert EncodeOps([ops[j]]) == EncodeOp(ops[j]) + EncodeOps([]);
  }

  // ---------- batches that Put and Delete do not make ----------

  /** A tag that is neither 0 nor 1 ends the iteration after exactly the operations before it, whatever the count and
      whatever follows. */
  lemma UnknownTagEnds(header: ByteSeq, ops: seq<Op>, tag: Byte, tail: ByteSeq)
    requires |header| == 12 && tag > 1 && forall op :: op in ops ==> Encodable(op)
    ensures IterateSpec(header + EncodeOps(ops) + [tag] + tail) == Iteration(ops, Some(UnknownTag))
  {
    hide EncodeOps, ParseOps, CountOf;
    var rep := header + EncodeOps(ops) + [tag] + tail;
    BehindHeader(header, EncodeOps(ops), [tag], tail);
    UnknownTagAt(tag, tail);
    ParseAfter(ops, [tag] + tail);
    AppendNothing(ops);
  }

  lemma BehindHeader(header: ByteSeq, a: ByteSeq, b: ByteSeq, c: ByteSeq)
    requires |header| == 12
    ensures (header + a + b + c)[12..] == a + (b + c)
  {
  }

  lemma UnknownTagAt(tag: Byte, tail: ByteSeq)
    requires tag > 1
    ensures ParseOps([tag] + tail) == Iteration([], Some(UnknownTag))
  {
    hide GetLengthPrefixed;
    assert ParseOp([tag] + tail) == Bad(UnknownTag);
  }

  /** Whatever follows encoded operations is parsed after they have been delivered. */
  lemma {:induction false} ParseAfter(ops: seq<Op>, tail: ByteSeq)
    requires forall op :: op in ops ==> Encodable(op)
    ensures ParseOps(EncodeOps(ops) + tail) == Iteration(ops + ParseOps(tail).ops, ParseOps(tail).error)
    decreases |ops|
  {
    hide EncodeOp, ParseOp, Encodable;
    if ops == [] {
      assert EncodeOps(ops) + tail == tail;
      assert ops + ParseOps(tail).ops == ParseOps(tail).ops;
    } else {
      var rest := EncodeOps(ops[1..]) + tail;
      assert EncodeOps(ops) + tail == EncodeOp(ops[0]) + rest;
      OpRoundTrip(ops[0], rest);
      ParseAfter(ops[1..], tail);
      assert ops + ParseOps(tail).ops == [ops[0]] + (ops[1..] + ParseOps(tail).ops);
    }
  }

  /** The count that the header stores: its last four bytes, least significant first, as a signed number. */
  function Stored(header: ByteSeq): int
    requires |header| == 12
  {
    var a: nat, b: nat, c: nat, d: nat := header[8], header[9], header[10], header[11];
    var n := a + 0x100 * b + 0x1_0000 * c + 0x100_0000 * d;
    if d < 128 then n else n - 0x1_0000_0000
  }

  /** All operations are delivered, and the batch is found in order exactly if the stored count is their number. */
  lemma CountDecides(header: ByteSeq, ops: seq<Op>)
    requires |header| == 12 && forall op :: op in ops ==> Encodable(op)
    ensures IterateSpec(header + EncodeOps(ops)) == Iteration(ops, if Stored(header) == |ops| then None else Some(WrongCount))
  {
    var rep := header + EncodeOps(ops);
    hide EncodeOps, ParseOps, FromFixed, Encodable;
    assert rep[8..12] == header[8..12] && rep[12..] == EncodeOps(ops);
    OpsRoundTrip(ops);
    FourBytes(header[8..12]);
    CountIsStored(rep, header);
  }

  lemma CountIsStored(rep: ByteSeq, header: ByteSeq)
    requires |header| == 12 <= |rep| && rep[8..12] == header[8..12]
    ensures CountOf(rep) == Stored(header)
  {
    hide FromFixed;
    FourBytes(header[8..12]);
  }

  lemma FourBytes(b: ByteSeq)
    requires |b| == 4
    ensures var w: nat, x: nat, y: nat, z: nat := b[0], b[1], b[2], b[3];
      FromFixed(b) == w + 0x100 * x + 0x1_0000 * y + 0x100_0000 * z
  {
    assert b[1..][1..] == b[2..] && b[2..][1..] == b[3..] && b[3..][1..] == [];
    var w: nat, x: nat, y: nat, z: nat := b[0], b[1], b[2], b[3];
    assert FromFixed(b[3..]) == z;
    assert FromFixed(b[2..]) == y + 256 * FromFixed(b[3..]);
    assert FromFixed(b[1..]) == x + 256 * FromFixed(b[2..]);
    assert FromFixed(b) == w + 256 * FromFixed(b[1..]);
  }
}

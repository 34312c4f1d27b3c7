/** src/log_writer/log_writer.cpp over a destination that is a sequence of bytes. */
module LogWriter {
  import opened Bytes
  import opened LogFormat

  /** How a block offset determines the next fragment. */
  lemma OffsetDecides(p: nat, offset: nat, left: nat)
    requires offset <= BLOCK_SIZE && offset % BLOCK_SIZE == p % BLOCK_SIZE
    ensures HeaderPos(p) == if BLOCK_SIZE - offset < HEADER_SIZE then p + (BLOCK_SIZE - offset) else p
    ensures FragmentLength(p, left)
         == Min(left, (if BLOCK_SIZE - offset < HEADER_SIZE then BLOCK_SIZE else BLOCK_SIZE - offset) - HEADER_SIZE)
  {
  }

  lemma OffsetAdvances(p: nat, offset: nat, n: nat)
    requires offset <= BLOCK_SIZE && offset % BLOCK_SIZE == p % BLOCK_SIZE
    requires n <= Room(HeaderPos(p))
    ensures ((if BLOCK_SIZE - offset < HEADER_SIZE then 0 else offset) + HEADER_SIZE + n) % BLOCK_SIZE
         == (HeaderPos(p) + HEADER_SIZE + n) % BLOCK_SIZE
  {
  }

  lemma FragmentIs(p: nat, data: ByteSeq, begin: bool, rtype: Byte)
    requires rtype == FragmentType(begin, FragmentLength(p, |data|) == |data|)
    ensures var n := FragmentLength(p, |data|);
      Fragment(p, data, begin) == Zeros(HeaderPos(p) - p) + Header(n, rtype) + data[..n]
  {
  }

  class Writer {
    var dest: ByteSeq
    var blockOffset: nat

    /** The offset in the block is that of the file's end; a full block may be counted as 0 or as a block. */
    ghost predicate Valid()
      reads this
    {
      blockOffset <= BLOCK_SIZE && blockOffset % BLOCK_SIZE == |dest| % BLOCK_SIZE
    }

    /** Starts an empty log. */
    constructor ()
      ensures Valid() && dest == []
    {
      dest := [];
      blockOffset := 0;
    }

    /** Reopens a log; the second constructor, given the length of what is there. */
    constructor Reopen(contents: ByteSeq)
      ensures Valid() && dest == contents
    {
      dest := contents;
      blockOffset := |contents| % BLOCK_SIZE;
    }

    method AddRecord(slice: ByteSeq)
      requires Valid()
      modifies this
      ensures Valid()
      ensures dest == old(dest) + Layout(|old(dest)|, slice, true)
    {
      hide HeaderPos, Layout, Fragment, FragmentLength, Room;
      var left := slice;
      var begin := true;
      var more := true;
      while more
        invariant Valid()
        invariant more ==> dest + Layout(|dest|, left, begin) == old(dest) + Layout(|old(dest)|, slice, true)
        invariant !more ==> dest == old(dest) + Layout(|old(dest)|, slice, true)
        decreases more, |left|, Room(HeaderPos(|dest|)) == 0
      {
        LayoutStep(|dest|, left, begin);
        var fragmentLength := AddFragment(left, begin);
        left := left[fragmentLength..];
        begin := false;
        more := |left| > 0;
      }
    }

    /** One turn of AddRecord's loop: the trailer if one is due, then a fragment. */
    method AddFragment(left: ByteSeq, begin: bool) returns (fragmentLength: nat)
      requires Valid()
      modifies this
      ensures Valid()
      ensures fragmentLength == FragmentLength(|old(dest)|, |left|)
      ensures dest == old(dest) + Fragment(|old(dest)|, left, begin)
    {
      hide HeaderPos, Fragment, FragmentLength, Header, Room;
      ghost var p := |dest|;
      OffsetDecides(p, blockOffset, |left|);
      OffsetAdvances(p, blockOffset, FragmentLength(p, |left|));
      var leftOver := BLOCK_SIZE - blockOffset;
      if leftOver < HEADER_SIZE {
        if leftOver > 0 {
          dest := dest + Zeros(leftOver);
        }
        blockOffset := 0;
      }
      var avail := BLOCK_SIZE - blockOffset - HEADER_SIZE;
      fragmentLength := if |left| < avail then |left| else avail;
      var end := |left| == fragmentLength;
      var rtype := if begin && end then FULL_TYPE
                   else if begin then FIRST_TYPE
                   else if end then LAST_TYPE
                   else MIDDLE_TYPE;
      FragmentIs(p, left, begin, rtype);
      EmitPhysicalRecord(rtype, left[..fragmentLength]);
    }

    method EmitPhysicalRecord(rtype: Byte, payload: ByteSeq)
      requires |payload| < 65536
      requires blockOffset + HEADER_SIZE + |payload| <= BLOCK_SIZE
      modifies this
      ensures dest == old(dest) + Header(|payload|, rtype) + payload
      ensures blockOffset == old(blockOffset) + HEADER_SIZE + |payload|
    {
      var buf := [0, 0, 0, 0, |payload| % 256, |payload| / 256, rtype];
      dest := dest + buf;
      dest := dest + payload;
      blockOffset := blockOffset + (HEADER_SIZE + |payload|);
    }
  }

  /** Writes a list of records, closing and reopening the file before record i whenever reopen[i]. */
  method WriteAll(records: seq<ByteSeq>, reopen: seq<bool>) returns (contents: ByteSeq)
    requires |reopen| == |records|
    ensures contents == Log(0, records)
  {
    hide Layout;
    var w := new Writer();
    for i := 0 to |records|
      invariant fresh(w) && w.Valid()
      invariant w.dest == Log(0, records[..i])
    {
      if reopen[i] {
        w := new Writer.Reopen(w.dest);
      }
      w.AddRecord(records[i]);
      assert records[..i + 1] == records[..i] + [records[i]];
      LogConcat(0, records[..i], [records[i]]);
      assert Log(|Log(0, records[..i])|, [records[i]]) == Layout(|Log(0, records[..i])|, records[i], true);
    }
    assert records[..|records|] == records;
    contents := w.dest;
  }
}

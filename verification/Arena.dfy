/** src/memory/arena.cpp.  Addresses are numbers; where `new` puts a block is any place that is aligned to 8
    bytes and overlaps no earlier block. */
module Arena {

  const BLOCK_SIZE := 4096
  const ALIGN := 8
  const POINTER_SIZE := 8

  datatype Range = Range(start: nat, size: nat)

  predicate Apart(a: Range, b: Range) {
    a.start + a.size <= b.start || b.start + b.size <= a.start
  }

  predicate Inside(a: Range, b: Range) {
    b.start <= a.start && a.start + a.size <= b.start + b.size
  }

  ghost predicate AllApart(s: seq<Range>) {
    forall i, j :: 0 <= i < j < |s| ==> Apart(s[i], s[j])
  }

  predicate ApartFromAll(s: seq<Range>, r: Range) {
    forall i :: 0 <= i < |s| ==> Apart(s[i], r)
  }

  /** In one of the blocks; only an empty range may be at the null address instead. */
  ghost predicate InBlock(r: Range, blocks: seq<Range>) {
    r == Range(0, 0) || exists b :: b in blocks && Inside(r, b)
  }

  /** Blocks, what was handed out and the free space: nothing overlaps, and all is inside the blocks. */
  ghost predicate Layout(blocks: seq<Range>, ranges: seq<Range>, free: Range) {
    && AllApart(blocks) && (forall i :: 0 <= i < |blocks| ==> blocks[i].start % ALIGN == 0)
    && AllApart(ranges) && (forall i :: 0 <= i < |ranges| ==> InBlock(ranges[i], blocks))
    && InBlock(free, blocks) && ApartFromAll(ranges, free)
  }

  lemma BumpKeeps(blocks: seq<Range>, ranges: seq<Range>, free: Range, skip: nat, bytes: nat)
    requires Layout(blocks, ranges, free) && skip + bytes <= free.size
    ensures Layout(blocks, ranges + [Range(free.start + skip, bytes)], Range(free.start + skip + bytes, free.size - skip - bytes))
  {
    if free != Range(0, 0) {
      var b :| b in blocks && Inside(free, b);
      assert Inside(Range(free.start + skip, bytes), b);
      assert Inside(Range(free.start + skip + bytes, free.size - skip - bytes), b);
    }
  }

  lemma ApartFromInside(blocks: seq<Range>, r: Range, x: Range)
    requires ApartFromAll(blocks, r) && InBlock(x, blocks)
    ensures Apart(x, r)
  {
  }

  /** A new block changes nothing about what is there, and overlaps none of it. */
  lemma NewBlockKeeps(blocks: seq<Range>, ranges: seq<Range>, free: Range, r: Range)
    requires Layout(blocks, ranges, free) && ApartFromAll(blocks, r) && r.start % ALIGN == 0
    ensures Layout(blocks + [r], ranges, free) && InBlock(r, blocks + [r])
    ensures ApartFromAll(ranges, r) && Apart(free, r)
  {
    var more := blocks + [r];
    assert more[|blocks|] == r && Inside(r, r);
    forall x | InBlock(x, blocks) ensures InBlock(x, more) && Apart(x, r) {
      ApartFromInside(blocks, r, x);
      if x != Range(0, 0) {
        var b :| b in blocks && Inside(x, b);
        assert b in more;
      }
    }
  }

  function Sizes(s: seq<Range>): nat {
    if s == [] then 0 else Sizes(s[..|s| - 1]) + s[|s| - 1].size
  }

  function Total(s: seq<nat>): nat {
    if s == [] then 0 else Total(s[..|s| - 1]) + s[|s| - 1]
  }

  function End(s: seq<Range>): nat {
    if s == [] then 1 else
      var before, last := End(s[..|s| - 1]), s[|s| - 1];
      if last.start + last.size > before then last.start + last.size else before
  }

  lemma {:induction false} EndIsBeyond(s: seq<Range>)
    ensures forall i :: 0 <= i < |s| ==> s[i].start + s[i].size <= End(s)
  {
    if s != [] {
      EndIsBeyond(s[..|s| - 1]);
    }
  }

  /** new uint8_t[size] */
  method NewBytes(size: nat, blocks: seq<Range>) returns (start: nat)
    ensures start % ALIGN == 0 && start > 0 && ApartFromAll(blocks, Range(start, size))
  {
    EndIsBeyond(blocks);
    ghost var a := (End(blocks) / ALIGN + 1) * ALIGN;
    start :| start % ALIGN == 0 && start > 0 && ApartFromAll(blocks, Range(start, size)) by {
      assert a % ALIGN == 0 && a > End(blocks);
      assert ApartFromAll(blocks, Range(a, size));
    }
  }

  lemma SizesMore(s: seq<Range>, r: Range)
    ensures Sizes(s + [r]) == Sizes(s) + r.size
  {
    assert (s + [r])[..|s|] == s;
  }

  lemma TotalMore(s: seq<nat>, n: nat)
    ensures Total(s + [n]) == Total(s) + n
  {
    assert (s + [n])[..|s|] == s;
  }

  /** The result is the start of a new block: one of its own above 1024 bytes, otherwise one of 4096. */
  predicate FromNewBlock(p: nat, bytes: nat, before: seq<Range>, after: seq<Range>) {
    after == before + [Range(p, if bytes > 1024 then bytes else 4096)]
  }

  lemma SlopIs(p: nat, slop: nat)
    requires slop == if p % 8 == 0 then 0 else 8 - p % 8
    ensures slop == (8 - p % 8) % 8 < 8 && (p + slop) % 8 == 0
  {
  }

  class Arena {
    var allocPtr: nat
    var remaining: nat              // alloc_bytes_remaining_
    var blocks: seq<Range>
    var memoryUsage: nat
    ghost var ranges: seq<Range>    // what was handed out, in order
    ghost var slack: nat            // bytes skipped for alignment
    ghost var stranded: seq<nat>    // what was left in each retired block

    ghost function Free(): Range
      reads this
    {
      Range(allocPtr, remaining)
    }

    ghost predicate Valid()
      reads this
    {
      && Layout(blocks, ranges, Free())
      && memoryUsage == Sizes(blocks) + POINTER_SIZE * |blocks|
      // Every byte of a block was handed out, skipped, left behind or is still free.
      && Sizes(blocks) == Sizes(ranges) + slack + Total(stranded) + remaining
      && forall i :: 0 <= i < |stranded| ==> stranded[i] <= 1030
    }

    constructor ()
      ensures Valid() && blocks == [] && ranges == [] && stranded == [] && memoryUsage == 0
    {
      allocPtr, remaining, blocks, memoryUsage := 0, 0, [], 0;
      ranges, slack, stranded := [], 0, [];
    }

    /** AllocateNewBlock */
    method AllocateNewBlock(bytes: nat) returns (p: nat)
      modifies this`blocks, this`memoryUsage
      ensures p % ALIGN == 0 && p > 0 && ApartFromAll(old(blocks), Range(p, bytes))
      ensures blocks == old(blocks) + [Range(p, bytes)] && memoryUsage == old(memoryUsage) + bytes + POINTER_SIZE
    {
      p := NewBytes(bytes, blocks);
      blocks := blocks + [Range(p, bytes)];
      memoryUsage := memoryUsage + bytes + POINTER_SIZE;
    }

    /** The free space gives up its first `skip` bytes and hands out the next `bytes`. */
    method Bump(skip: nat, bytes: nat) returns (p: nat)
      requires Valid() && skip + bytes <= remaining
      modifies this`allocPtr, this`remaining, this`ranges, this`slack
      ensures Valid() && p == old(allocPtr) + skip && allocPtr == p + bytes && remaining == old(remaining) - skip - bytes
      ensures ranges == old(ranges) + [Range(p, bytes)]
    {
      hide Layout, Sizes, Total;
      p := allocPtr + skip;
      SizesMore(ranges, Range(p, bytes));
      BumpKeeps(blocks, ranges, Free(), skip, bytes);
      allocPtr := p + bytes;
      remaining := remaining - skip - bytes;
      ranges := ranges + [Range(p, bytes)];
      slack := slack + skip;
    }

    /** AllocateFallback: a large request gets a block of its own, any other starts a new block and strands what
        is left of the current one. */
    method AllocateFallback(bytes: nat) returns (p: nat)
      requires Valid() && (bytes > BLOCK_SIZE / 4 || remaining <= 1030)
      modifies this
      ensures Valid() && p % ALIGN == 0 && ranges == old(ranges) + [Range(p, bytes)]
      ensures stranded == if bytes > BLOCK_SIZE / 4 then old(stranded) else old(stranded) + [old(remaining)]
      ensures memoryUsage == old(memoryUsage) + (if bytes > BLOCK_SIZE / 4 then bytes else BLOCK_SIZE) + POINTER_SIZE
      ensures FromNewBlock(p, bytes, old(blocks), blocks)
      ensures if bytes > 1024 then allocPtr == old(allocPtr) && remaining == old(remaining)
              else allocPtr == p + bytes && remaining == 4096 - bytes
    {
      hide Layout, Sizes, Total;
      if bytes > BLOCK_SIZE / 4 {
        p := AllocateNewBlock(bytes);
        WholeBlockKeeps(old(blocks), ranges, Free(), Range(p, bytes));
        SizesMore(old(blocks), Range(p, bytes));
        SizesMore(ranges, Range(p, bytes));
        ranges := ranges + [Range(p, bytes)];
        return;
      }
      var block := AllocateNewBlock(BLOCK_SIZE);
      NewBlockKeeps(old(blocks), ranges, Free(), Range(block, BLOCK_SIZE));
      NewFree(blocks, ranges, Free(), Range(block, BLOCK_SIZE));
      SizesMore(old(blocks), Range(block, BLOCK_SIZE));
      TotalMore(stranded, remaining);
      stranded := stranded + [remaining];
      allocPtr := block;
      remaining := BLOCK_SIZE;
      p := Bump(0, bytes);
    }

    method Allocate(bytes: nat) returns (p: nat)
      requires Valid() && bytes > 0
      modifies this
      ensures Valid() && ranges == old(ranges) + [Range(p, bytes)]
      ensures stranded == old(stranded) || (stranded == old(stranded) + [old(remaining)] && old(remaining) < bytes <= BLOCK_SIZE / 4)
      ensures bytes <= old(remaining) ==>
        blocks == old(blocks) && p == old(allocPtr) && allocPtr == p + bytes && remaining == old(remaining) - bytes
      ensures bytes > old(remaining) ==> FromNewBlock(p, bytes, old(blocks), blocks)
    {
      if bytes <= remaining {
        p := Bump(0, bytes);
      } else {
        p := AllocateFallback(bytes);
      }
    }

    method AllocateAligned(bytes: nat) returns (p: nat)
      requires Valid()
      modifies this
      ensures Valid() && p % ALIGN == 0 && ranges == old(ranges) + [Range(p, bytes)]
      ensures stranded == old(stranded) || stranded == old(stranded) + [old(remaining)]
      // It comes out of the current block, at the next multiple of 8, exactly if it fits there.
      ensures var slop := (8 - old(allocPtr) % 8) % 8;
        if bytes + slop <= old(remaining)
        then blocks == old(blocks) && p == old(allocPtr) + slop && allocPtr == p + bytes && remaining == old(remaining) - bytes - slop
        else FromNewBlock(p, bytes, old(blocks), blocks)
    {
      hide Layout, Sizes, Total;
      var currentMod := allocPtr % ALIGN;
      var slop := if currentMod == 0 then 0 else ALIGN - currentMod;
      SlopIs(allocPtr, slop);
      if bytes + slop <= remaining {
        p := Bump(slop, bytes);
      } else {
        p := AllocateFallback(bytes);
      }
    }
  }

  lemma WholeBlockKeeps(blocks: seq<Range>, ranges: seq<Range>, free: Range, r: Range)
    requires Layout(blocks, ranges, free) && ApartFromAll(blocks, r) && r.start % ALIGN == 0
    ensures Layout(blocks + [r], ranges + [r], free)
  {
    NewBlockKeeps(blocks, ranges, free, r);
  }

  lemma NewFree(blocks: seq<Range>, ranges: seq<Range>, free: Range, r: Range)
    requires Layout(blocks, ranges, free) && InBlock(r, blocks) && ApartFromAll(ranges, r)
    ensures Layout(blocks, ranges, r)
  {
  }
}

/** The physical format of the write-ahead log: 32 KiB blocks, records cut into fragments that never
    cross a block, seven-byte headers, and zero trailers where no header fits. */
module LogFormat {
  import opened Bytes

  const BLOCK_SIZE := 32768
  const HEADER_SIZE := 7
  const ZERO_TYPE := 0
  const FULL_TYPE := 1
  const FIRST_TYPE := 2
  const MIDDLE_TYPE := 3
  const LAST_TYPE := 4
  // The reader's own codes, which are also possible values of a header's type byte.
  const EOF := 5
  const BAD_RECORD := 6

  /** Where the header goes when the file has p bytes: after a trailer if fewer than seven bytes are left. */
  function HeaderPos(p: nat): (h: nat)
    ensures p <= h < p + HEADER_SIZE && h % BLOCK_SIZE + HEADER_SIZE <= BLOCK_SIZE
    ensures h == p || (h % BLOCK_SIZE == 0 && BLOCK_SIZE - p % BLOCK_SIZE < HEADER_SIZE)
  {
    var left := BLOCK_SIZE - p % BLOCK_SIZE;
    if left < HEADER_SIZE then p + left else p
  }

  lemma HeaderNotBefore(p: nat)
    ensures p <= HeaderPos(p)
  {
  }

  /** Payload bytes that fit in the block after a header at h. */
  function Room(h: nat): nat
    requires h % BLOCK_SIZE + HEADER_SIZE <= BLOCK_SIZE
  {
    BLOCK_SIZE - h % BLOCK_SIZE - HEADER_SIZE
  }

  function FragmentLength(p: nat, left: nat): (n: nat)
    ensures n <= left && n <= Room(HeaderPos(p)) < 65536
  {
    Min(left, Room(HeaderPos(p)))
  }

  function FragmentType(begin: bool, end: bool): Byte {
    if begin && end then FULL_TYPE else if begin then FIRST_TYPE else if end then LAST_TYPE else MIDDLE_TYPE
  }

  /** Checksum (left zero by the writer), little-endian length, type. */
  function Header(length: nat, rtype: Byte): (h: ByteSeq)
    requires length < 65536
    ensures |h| == HEADER_SIZE
  {
    [0, 0, 0, 0, length % 256, length / 256, rtype]
  }

  /** Trailer, header and payload of the next fragment of a record. */
  function Fragment(p: nat, data: ByteSeq, begin: bool): (f: ByteSeq)
    ensures |f| == HeaderPos(p) - p + HEADER_SIZE + FragmentLength(p, |data|)
  {
    var n := FragmentLength(p, |data|);
    Zeros(HeaderPos(p) - p) + Header(n, FragmentType(begin, n == |data|)) + data[..n]
  }

  /** A fragment byte by byte: zeros where fewer than seven bytes are left in the block, four zeros for the checksum,
      the length with the low byte first, the type (1 whole, 2 first, 3 middle, 4 last), and as much of the data as the
      block has room for. */
  lemma FragmentBytes(p: nat, data: ByteSeq, begin: bool)
    ensures var left := 32768 - p % 32768;
      var h := if left < 7 then p + left else p;
      var n := Min(|data|, 32768 - h % 32768 - 7);
      var f := Fragment(p, data, begin);
      && n >= 0 && |f| == h - p + 7 + n
      && (forall i :: 0 <= i < h - p + 4 ==> f[i] == 0)
      && f[h - p + 4] == n % 256 && f[h - p + 5] == n / 256
      && f[h - p + 6] == (if begin then if n == |data| then 1 else 2 else if n == |data| then 4 else 3)
      && f[h - p + 7..] == data[..n]
  {
    var h := HeaderPos(p);
    var n := FragmentLength(p, |data|);
    var head := Zeros(h - p) + Header(n, FragmentType(begin, n == |data|));
    assert Fragment(p, data, begin) == head + data[..n];
    hide HeaderPos, FragmentLength, FragmentType;
    assert (head + data[..n])[h - p + 7..] == data[..n];
    forall i | 0 <= i < h - p + 4 ensures head[i] == 0 {
    }
  }

  /** The bytes a record, or what is left of one, occupies from file position p on. */
  function Layout(p: nat, data: ByteSeq, begin: bool): (f: ByteSeq)
    ensures |f| >= HEADER_SIZE && HeaderPos(p) + HEADER_SIZE <= p + |f|
    decreases |data|, Room(HeaderPos(p)) == 0
  {
    var n := FragmentLength(p, |data|);
    var here := Fragment(p, data, begin);
    if n == |data| then here else here + Layout(p + |here|, data[n..], false)
  }

  /** One turn of the writer's loop; a zero-length fragment is followed by one in a fresh block. */
  lemma LayoutStep(p: nat, data: ByteSeq, begin: bool)
    ensures var n := FragmentLength(p, |data|); var next := p + |Fragment(p, data, begin)|;
      && (n == |data| ==> Layout(p, data, begin) == Fragment(p, data, begin))
      && (n < |data| ==> Layout(p, data, begin) == Fragment(p, data, begin) + Layout(next, data[n..], false))
      && (n == 0 && |data| > 0 ==> Room(HeaderPos(p)) == 0 && Room(HeaderPos(next)) != 0)
  {
    EmptyFragment(p, |data|);
    hide Fragment, HeaderPos;
  }

  lemma EmptyFragment(p: nat, left: nat)
    ensures FragmentLength(p, left) == 0 && left > 0 ==>
      Room(HeaderPos(p)) == 0 && Room(HeaderPos(HeaderPos(p) + HEADER_SIZE)) != 0
  {
  }

  /** A whole log, from file position p on. */
  function Log(p: nat, records: seq<ByteSeq>): ByteSeq
    decreases |records|
  {
    if records == [] then []
    else
      var here := Layout(p, records[0], true);
      here + Log(p + |here|, records[1..])
  }

  lemma {:induction false} LogConcat(p: nat, a: seq<ByteSeq>, b: seq<ByteSeq>)
    ensures Log(p, a + b) == Log(p, a) + Log(p + |Log(p, a)|, b)
    decreases |a|
  {
    hide Layout, HeaderPos;
    if a == [] {
      assert a + b == b;
    } else {
      assert (a + b)[1..] == a[1..] + b;
      LogConcat(p + |Layout(p, a[0], true)|, a[1..], b);
    }
  }
}

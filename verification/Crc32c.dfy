/** CRC-32C as computed by src/util/crc32c.cpp.  A 32-bit word is its list of bits, least significant
    first, so that every step of the algorithm is a linear map over GF(2). */
module Crc32c {

  type Word = w: seq<bool> | |w| == 32 witness seq(32, i => false)
  type Byte = b: seq<bool> | |b| == 8 witness seq(8, i => false)

  function Zero(): Word {
    seq(32, i => false)
  }

  function Xor(a: Word, b: Word): Word {
    seq(32, i requires 0 <= i < 32 => a[i] != b[i])
  }

  function ShiftRight(a: Word, n: nat): Word {
    seq(32, i requires 0 <= i < 32 => i + n < 32 && a[i + n])
  }

  /** Shifts a word left, dropping what leaves it. */
  function ShiftLeft(c: Word, n: nat): Word {
    seq(32, i requires 0 <= i < 32 => n <= i && c[i - n])
  }

  /** a & 0xFF */
  function LowByte(a: Word): Word {
    seq(32, i requires 0 <= i < 32 => i < 8 && a[i])
  }

  predicate FitsByte(c: Word) {
    forall i :: 8 <= i < 32 ==> !c[i]
  }

  /** Zero-extends up to 32 bits to a word. */
  function Pad(bits: seq<bool>): Word
    requires |bits| <= 32
  {
    seq(32, i requires 0 <= i < 32 => i < |bits| && bits[i])
  }

  predicate Odd(v: bv32) {
    v & 1 == 1
  }

  function Half(v: bv32): bv32 {
    v >> 1
  }

  /** The lowest n bits of a number, least significant first. */
  function Bits(v: bv32, n: nat): (bits: seq<bool>)
    ensures |bits| == n
  {
    if n == 0 then [] else [Odd(v)] + Bits(Half(v), n - 1)
  }

  /** The word for a number. */
  function Number(v: bv32): Word {
    Bits(v, 32)
  }

  /** kCrc32Xor */
  function Ones(): Word {
    Number(0xFFFF_FFFF)
  }

  /** The Castagnoli polynomial of section 12.1 of RFC 3720, bit-reversed. */
  function Polynomial(): Word {
    Number(0x82F6_3B78)
  }

  // ---------- reference: the shift register, one message bit at a time ----------

  function Feedback(l: Word, on: bool): Word {
    if on then Xor(ShiftRight(l, 1), Polynomial()) else ShiftRight(l, 1)
  }

  function BitSerial(l: Word, bits: seq<bool>): Word
    decreases |bits|
  {
    if bits == [] then l else BitSerial(Feedback(l, l[0] != bits[0]), bits[1..])
  }

  function MessageBits(data: seq<Byte>): seq<bool> {
    if data == [] then [] else data[0] + MessageBits(data[1..])
  }

  /** The CRC of A followed by `data`, when `crc` is the CRC of A. */
  function Crc(crc: Word, data: seq<Byte>): Word {
    Xor(BitSerial(Xor(crc, Ones()), MessageBits(data)), Ones())
  }

  // ---------- running the register over zero bits: the linear map behind every table ----------

  function ZeroBits(l: Word, n: nat): Word
    decreases n
  {
    if n == 0 then l else ZeroBits(Feedback(l, l[0]), n - 1)
  }

  function ByteExtensionTable(c: Word): Word
    requires FitsByte(c)
  {
    ZeroBits(c, 8)
  }

  /** kStrideExtensionTable<3 - k>: the effect of byte k of a stride state over 16 bytes. */
  function StrideExtensionTable(k: nat, c: Word): Word
    requires FitsByte(c) && k < 4
  {
    ZeroBits(ShiftLeft(c, 8 * k), 128)
  }

  lemma FeedbackLinear(a: Word, b: Word, p: bool, q: bool)
    ensures Feedback(Xor(a, b), p != q) == Xor(Feedback(a, p), Feedback(b, q))
  {
  }

  /** The register is linear: its run over zero bits distributes over xor. */
  lemma {:induction false} ZeroBitsLinear(a: Word, b: Word, n: nat)
    ensures ZeroBits(Xor(a, b), n) == Xor(ZeroBits(a, n), ZeroBits(b, n))
    decreases n
  {
    if n > 0 {
      FeedbackLinear(a, b, a[0], b[0]);
      ZeroBitsLinear(Feedback(a, a[0]), Feedback(b, b[0]), n - 1);
    }
  }

  lemma {:induction false} ZeroBitsAdd(a: Word, m: nat, n: nat)
    ensures ZeroBits(a, m + n) == ZeroBits(ZeroBits(a, m), n)
    decreases m
  {
    if m > 0 {
      ZeroBitsAdd(Feedback(a, a[0]), m - 1, n);
    }
  }

  /** Zero low bits are simply shifted out. */
  lemma {:induction false} ShiftOut(a: Word, n: nat)
    requires n <= 32 && forall i :: 0 <= i < n ==> !a[i]
    ensures ZeroBits(a, n) == ShiftRight(a, n)
    decreases n
  {
    if n == 0 {
      assert ShiftRight(a, 0) == a;
    } else {
      ShiftOne(a, n);
      hide ShiftRight, Feedback;
      ShiftOut(ShiftRight(a, 1), n - 1);
    }
  }

  lemma ShiftOne(a: Word, n: nat)
    requires 0 < n <= 32 && forall i :: 0 <= i < n ==> !a[i]
    ensures Feedback(a, a[0]) == ShiftRight(a, 1) && ShiftRight(ShiftRight(a, 1), n - 1) == ShiftRight(a, n)
    ensures forall i :: 0 <= i < n - 1 ==> !ShiftRight(a, 1)[i]
  {
  }

  /** Up to 32 message bits may be xored into the register at once. */
  lemma {:induction false} SerialIsXorThenZeros(l: Word, bits: seq<bool>)
    requires |bits| <= 32
    ensures BitSerial(l, bits) == ZeroBits(Xor(l, Pad(bits)), |bits|)
    decreases |bits|
  {
    if bits == [] {
      assert Xor(l, Pad(bits)) == l;
    } else {
      var next := Feedback(l, l[0] != bits[0]);
      SerialIsXorThenZeros(next, bits[1..]);
      OneBitIn(l, bits);
      hide Feedback, Xor, Pad;
    }
  }

  lemma OneBitIn(l: Word, bits: seq<bool>)
    requires 0 < |bits| <= 32
    ensures var v := Xor(l, Pad(bits)); Feedback(v, v[0]) == Xor(Feedback(l, l[0] != bits[0]), Pad(bits[1..]))
  {
    hide Polynomial;
  }

  lemma {:induction false} BitSerialConcat(l: Word, a: seq<bool>, b: seq<bool>)
    ensures BitSerial(l, a + b) == BitSerial(BitSerial(l, a), b)
    decreases |a|
  {
    if a == [] {
      assert a + b == b;
    } else {
      assert (a + b)[1..] == a[1..] + b;
      BitSerialConcat(Feedback(l, l[0] != a[0]), a[1..], b);
    }
  }

  lemma {:induction false} MessageBitsConcat(a: seq<Byte>, b: seq<Byte>)
    ensures MessageBits(a + b) == MessageBits(a) + MessageBits(b)
    decreases |a|
  {
    if a == [] {
      assert a + b == b;
    } else {
      assert (a + b)[1..] == a[1..] + b;
      MessageBitsConcat(a[1..], b);
    }
  }

  /** The register after the whole of `data`. */
  function Serial(l: Word, data: seq<Byte>): Word {
    BitSerial(l, MessageBits(data))
  }

  lemma SerialConcat(l: Word, a: seq<Byte>, b: seq<Byte>)
    ensures Serial(l, a + b) == Serial(Serial(l, a), b)
  {
    MessageBitsConcat(a, b);
    BitSerialConcat(l, MessageBits(a), MessageBits(b));
  }

  // ---------- the macros of Extend ----------

  /** STEP1 */
  function Step1(l: Word, b: Byte): Word {
    Xor(ByteExtensionTable(Xor(LowByte(l), Pad(b))), ShiftRight(l, 8))
  }

  /** v without its low byte. */
  function HighBytes(v: Word): Word {
    Xor(v, LowByte(v))
  }

  lemma SplitLowByte(v: Word)
    ensures Xor(LowByte(v), HighBytes(v)) == v
    ensures forall i :: 0 <= i < 8 ==> !HighBytes(v)[i]
    ensures ShiftRight(HighBytes(v), 8) == ShiftRight(v, 8)
  {
  }

  lemma TableStep(v: Word)
    ensures Xor(ByteExtensionTable(LowByte(v)), ShiftRight(v, 8)) == ZeroBits(v, 8)
  {
    SplitLowByte(v);
    ShiftOut(HighBytes(v), 8);
    ZeroBitsLinear(LowByte(v), HighBytes(v), 8);
  }

  lemma Step1Correct(l: Word, b: Byte)
    ensures Step1(l, b) == Serial(l, [b])
  {
    var v := Xor(l, Pad(b));
    TableStep(v);
    assert Xor(LowByte(l), Pad(b)) == LowByte(v);
    assert ShiftRight(v, 8) == ShiftRight(l, 8);
    assert MessageBits([b]) == b + MessageBits([]) == b;
    SerialIsXorThenZeros(l, b);
  }

  /** ReadUint32LE */
  function ReadWord(data: seq<Byte>): Word
    requires |data| >= 4
  {
    var low: seq<bool> := data[0];
    low + data[1] + data[2] + data[3]
  }

  function ByteAt(w: Word, k: nat): (c: Word)
    ensures FitsByte(c)
  {
    LowByte(ShiftRight(w, 8 * k))
  }

  /** STEP4 */
  function Step4(crc: Word, w: Word): Word {
    Xor(w, Xor(StrideExtensionTable(0, ByteAt(crc, 0)), Xor(StrideExtensionTable(1, ByteAt(crc, 1)),
      Xor(StrideExtensionTable(2, ByteAt(crc, 2)), StrideExtensionTable(3, ByteAt(crc, 3))))))
  }

  lemma ShiftBack(crc: Word, k: nat)
    requires k < 4
    ensures forall i :: 0 <= i < 32 ==> ShiftLeft(ByteAt(crc, k), 8 * k)[i] == (8 * k <= i < 8 * k + 8 && crc[i])
  {
  }

  lemma Partition(crc: Word)
    ensures Xor(ShiftLeft(ByteAt(crc, 0), 8 * 0), Xor(ShiftLeft(ByteAt(crc, 1), 8 * 1),
      Xor(ShiftLeft(ByteAt(crc, 2), 8 * 2), ShiftLeft(ByteAt(crc, 3), 8 * 3)))) == crc
  {
    ShiftBack(crc, 0);
    ShiftBack(crc, 1);
    ShiftBack(crc, 2);
    ShiftBack(crc, 3);
  }

  lemma Step4Correct(crc: Word, w: Word)
    ensures Step4(crc, w) == Xor(w, ZeroBits(crc, 128))
  {
    var p0, p1 := ShiftLeft(ByteAt(crc, 0), 8 * 0), ShiftLeft(ByteAt(crc, 1), 8 * 1);
    var p2, p3 := ShiftLeft(ByteAt(crc, 2), 8 * 2), ShiftLeft(ByteAt(crc, 3), 8 * 3);
    Partition(crc);
    ZeroBitsLinear(p2, p3, 128);
    ZeroBitsLinear(p1, Xor(p2, p3), 128);
    ZeroBitsLinear(p0, Xor(p1, Xor(p2, p3)), 128);
  }

  /** One round of STEP4W's loop. */
  function WordRound(w: Word): Word {
    Xor(ShiftRight(w, 8), ByteExtensionTable(LowByte(w)))
  }

  /** STEP4W */
  function Step4W(l: Word, w: Word): Word {
    WordRound(WordRound(WordRound(WordRound(Xor(w, l)))))
  }

  lemma XorComm(a: Word, b: Word)
    ensures Xor(a, b) == Xor(b, a)
  {
  }

  lemma WordRoundCorrect(w: Word)
    ensures WordRound(w) == ZeroBits(w, 8)
  {
    TableStep(w);
    XorComm(ShiftRight(w, 8), ByteExtensionTable(LowByte(w)));
  }

  lemma Step4WCorrect(l: Word, w: Word)
    ensures Step4W(l, w) == ZeroBits(Xor(l, w), 32)
  {
    var w0 := Xor(w, l);
    XorComm(w, l);
    WordRoundCorrect(w0);
    WordRoundCorrect(ZeroBits(w0, 8));
    ZeroBitsAdd(w0, 8, 8);
    WordRoundCorrect(ZeroBits(w0, 16));
    ZeroBitsAdd(w0, 16, 8);
    WordRoundCorrect(ZeroBits(w0, 24));
    ZeroBitsAdd(w0, 24, 8);
  }

  lemma WordSerial(l: Word, data: seq<Byte>)
    requires |data| == 4
    ensures Serial(l, data) == ZeroBits(Xor(l, ReadWord(data)), 32)
  {
    assert data == [data[0]] + ([data[1]] + ([data[2]] + [data[3]]));
    MessageBitsConcat([data[0]], [data[1]] + ([data[2]] + [data[3]]));
    MessageBitsConcat([data[1]], [data[2]] + [data[3]]);
    MessageBitsConcat([data[2]], [data[3]]);
    forall b: Byte ensures MessageBits([b]) == b {
      assert MessageBits([b]) == b + MessageBits([]) == b;
    }
    var w: seq<bool> := ReadWord(data);
    assert MessageBits(data) == w;
    SerialIsXorThenZeros(l, w);
    assert Pad(w) == w;
  }

  // ---------- combining the four strides ----------

  /** What the four STEP4W calls at the end make of the stride states. */
  function Combine(c0: Word, c1: Word, c2: Word, c3: Word): Word {
    Step4W(Step4W(Step4W(Step4W(Zero(), c0), c1), c2), c3)
  }

  /** Each stride state still has this many zero bytes to go. */
  lemma CombineSum(c0: Word, c1: Word, c2: Word, c3: Word)
    ensures Combine(c0, c1, c2, c3)
         == Xor(Xor(Xor(ZeroBits(c0, 128), ZeroBits(c1, 96)), ZeroBits(c2, 64)), ZeroBits(c3, 32))
  {
    assert Xor(Zero(), c0) == c0;
    Step4WCorrect(Zero(), c0);
    var l1 := ZeroBits(c0, 32);
    Step4WCorrect(l1, c1);
    ZeroBitsLinear(l1, c1, 32);
    ZeroBitsAdd(c0, 32, 32);
    var l2 := Xor(ZeroBits(c0, 64), ZeroBits(c1, 32));
    Step4WCorrect(l2, c2);
    ZeroBitsLinear(l2, c2, 32);
    ZeroBitsLinear(ZeroBits(c0, 64), ZeroBits(c1, 32), 32);
    ZeroBitsAdd(c0, 64, 32);
    ZeroBitsAdd(c1, 32, 32);
    var l3 := Xor(Xor(ZeroBits(c0, 96), ZeroBits(c1, 64)), ZeroBits(c2, 32));
    Step4WCorrect(l3, c3);
    ZeroBitsLinear(l3, c3, 32);
    ZeroBitsLinear(Xor(ZeroBits(c0, 96), ZeroBits(c1, 64)), ZeroBits(c2, 32), 32);
    ZeroBitsLinear(ZeroBits(c0, 96), ZeroBits(c1, 64), 32);
    ZeroBitsAdd(c0, 96, 32);
    ZeroBitsAdd(c1, 64, 32);
    ZeroBitsAdd(c2, 32, 32);
  }

  /** Advancing one word: the oldest stride takes the new word and goes to the back of the queue. */
  lemma AdvanceWord(c0: Word, c1: Word, c2: Word, c3: Word, data: seq<Byte>)
    requires |data| == 4
    ensures Combine(c1, c2, c3, Step4(c0, ReadWord(data))) == Serial(Combine(c0, c1, c2, c3), data)
  {
    var w := ReadWord(data);
    var c := Combine(c0, c1, c2, c3);
    WordSerial(c, data);
    Step4Correct(c0, w);
    CombineSum(c0, c1, c2, c3);
    CombineSum(c1, c2, c3, Step4(c0, w));
    var z0, z1, z2, z3 := ZeroBits(c0, 128), ZeroBits(c1, 96), ZeroBits(c2, 64), ZeroBits(c3, 32);
    ZeroBitsLinear(w, z0, 32);
    ZeroBitsLinear(c, w, 32);
    ZeroBitsLinear(Xor(Xor(z0, z1), z2), z3, 32);
    ZeroBitsLinear(Xor(z0, z1), z2, 32);
    ZeroBitsLinear(z0, z1, 32);
    ZeroBitsAdd(c1, 96, 32);
    ZeroBitsAdd(c2, 64, 32);
    ZeroBitsAdd(c3, 32, 32);
    XorRegroup(ZeroBits(z0, 32), ZeroBits(z1, 32), ZeroBits(z2, 32), ZeroBits(z3, 32), ZeroBits(w, 32));
  }

  lemma XorRegroup(a: Word, b: Word, c: Word, d: Word, w: Word)
    ensures Xor(Xor(Xor(b, c), d), Xor(w, a)) == Xor(Xor(Xor(Xor(a, b), c), d), w)
  {
  }

  /** The register after four words. */
  function FourWords(l: Word, d0: seq<Byte>, d1: seq<Byte>, d2: seq<Byte>, d3: seq<Byte>): Word {
    Serial(Serial(Serial(Serial(l, d0), d1), d2), d3)
  }

  /** A 16-byte swath is four word advances. */
  lemma AdvanceSwath(c0: Word, c1: Word, c2: Word, c3: Word, d0: seq<Byte>, d1: seq<Byte>, d2: seq<Byte>, d3: seq<Byte>)
    requires |d0| == |d1| == |d2| == |d3| == 4
    ensures Combine(Step4(c0, ReadWord(d0)), Step4(c1, ReadWord(d1)), Step4(c2, ReadWord(d2)), Step4(c3, ReadWord(d3)))
         == FourWords(Combine(c0, c1, c2, c3), d0, d1, d2, d3)
  {
    var e0, e1, e2 := Step4(c0, ReadWord(d0)), Step4(c1, ReadWord(d1)), Step4(c2, ReadWord(d2));
    AdvanceWord(c0, c1, c2, c3, d0);
    AdvanceWord(c1, c2, c3, e0, d1);
    AdvanceWord(c2, c3, e0, e1, d2);
    AdvanceWord(c3, e0, e1, e2, d3);
  }

  lemma FourWordsIs(l: Word, d0: seq<Byte>, d1: seq<Byte>, d2: seq<Byte>, d3: seq<Byte>)
    ensures FourWords(l, d0, d1, d2, d3) == Serial(Serial(Serial(Serial(l, d0), d1), d2), d3)
  {
  }

  lemma CombineIs(c0: Word, c1: Word, c2: Word, c3: Word)
    ensures Combine(c0, c1, c2, c3) == Step4W(Step4W(Step4W(Step4W(Zero(), c0), c1), c2), c3)
  {
  }

  lemma LoadWord(l: Word, d: seq<Byte>)
    requires |d| == 4
    ensures Step4W(l, ReadWord(d)) == Serial(l, d)
  {
    Step4WCorrect(l, ReadWord(d));
    WordSerial(l, d);
  }

  lemma XorZero(w: Word, l: Word)
    ensures Xor(Zero(), Xor(w, l)) == Xor(l, w)
  {
  }

  lemma LoadSwath(l: Word, d0: seq<Byte>, d1: seq<Byte>, d2: seq<Byte>, d3: seq<Byte>)
    requires |d0| == |d1| == |d2| == |d3| == 4
    ensures Combine(Xor(ReadWord(d0), l), ReadWord(d1), ReadWord(d2), ReadWord(d3)) == FourWords(l, d0, d1, d2, d3)
  {
    CombineIs(Xor(ReadWord(d0), l), ReadWord(d1), ReadWord(d2), ReadWord(d3));
    FourWordsIs(l, d0, d1, d2, d3);
    var w := ReadWord(d0);
    XorZero(w, l);
    hide *;
    Step4WCorrect(Zero(), Xor(w, l));
    WordSerial(l, d0);
    LoadWord(Serial(l, d0), d1);
    LoadWord(Serial(Serial(l, d0), d1), d2);
    LoadWord(Serial(Serial(Serial(l, d0), d1), d2), d3);
  }

  /** Reading on from p to q extends the register by that slice. */
  lemma SerialSlice(l: Word, data: seq<Byte>, p: nat, q: nat)
    requires p <= q <= |data|
    ensures Serial(l, data[..q]) == Serial(Serial(l, data[..p]), data[p..q])
  {
    assert data[..q] == data[..p] + data[p..q];
    SerialConcat(l, data[..p], data[p..q]);
  }

  lemma NextByte(l: Word, data: seq<Byte>, p: nat)
    requires p < |data|
    ensures Step1(Serial(l, data[..p]), data[p]) == Serial(l, data[..p + 1])
  {
    hide *;
    Step1Correct(Serial(l, data[..p]), data[p]);
    SerialSlice(l, data, p, p + 1);
    assert data[p..p + 1] == [data[p]];
  }

  // ---------- Extend ----------

  /** STEP1 from p to q: the alignment prologue and the tail of Extend. */
  method StepBytes(l0: Word, ghost start: Word, data: seq<Byte>, p0: nat, q: nat) returns (l: Word)
    requires p0 <= q <= |data| && l0 == Serial(start, data[..p0])
    ensures l == Serial(start, data[..q])
  {
    hide *;
    l := l0;
    var p := p0;
    while p != q
      invariant p0 <= p <= q
      invariant l == Serial(start, data[..p])
      decreases q - p
    {
      NextByte(start, data, p);
      l := Step1(l, data[p]);
      p := p + 1;
    }
  }

  /** The four-stride part of Extend, for at least 16 remaining bytes. */
  method Strides(l0: Word, ghost start: Word, data: seq<Byte>, p0: nat) returns (l: Word, p: nat)
    requires p0 + 16 <= |data| && l0 == Serial(start, data[..p0])
    ensures p0 <= p <= |data| && |data| - p < 4
    ensures l == Serial(start, data[..p])
  {
    hide *;
    var e := |data|;
    p := p0;
    var crc0 := Xor(ReadWord(data[p..p + 4]), l0);
    var crc1 := ReadWord(data[p + 4..p + 8]);
    var crc2 := ReadWord(data[p + 8..p + 12]);
    var crc3 := ReadWord(data[p + 12..p + 16]);
    LoadSwath(l0, data[p..p + 4], data[p + 4..p + 8], data[p + 8..p + 12], data[p + 12..p + 16]);
    SwathSlice(start, data, p);
    p := p + 16;
    while e - p >= 16
      invariant p0 <= p <= e
      invariant Combine(crc0, crc1, crc2, crc3) == Serial(start, data[..p])
      decreases e - p
    {
      AdvanceSwath(crc0, crc1, crc2, crc3, data[p..p + 4], data[p + 4..p + 8], data[p + 8..p + 12], data[p + 12..p + 16]);
      SwathSlice(start, data, p);
      crc0 := Step4(crc0, ReadWord(data[p..p + 4]));
      crc1 := Step4(crc1, ReadWord(data[p + 4..p + 8]));
      crc2 := Step4(crc2, ReadWord(data[p + 8..p + 12]));
      crc3 := Step4(crc3, ReadWord(data[p + 12..p + 16]));
      p := p + 16;
    }
    while e - p >= 4
      invariant p0 <= p <= e
      invariant Combine(crc0, crc1, crc2, crc3) == Serial(start, data[..p])
      decreases e - p
    {
      AdvanceWord(crc0, crc1, crc2, crc3, data[p..p + 4]);
      SerialSlice(start, data, p, p + 4);
      crc0 := Step4(crc0, ReadWord(data[p..p + 4]));
      crc0, crc1, crc2, crc3 := crc1, crc2, crc3, crc0;
      p := p + 4;
    }
    l := Combine(crc0, crc1, crc2, crc3);
  }

  /** Extend(init_crc, data, n); `address` is where the first byte lies, which decides the prologue. */
  method Extend(initCrc: Word, data: seq<Byte>, address: nat) returns (crc: Word)
    ensures crc == Crc(initCrc, data)
  {
    var l := Xor(initCrc, Ones());
    ghost var start := l;
    var p, e := 0, |data|;
    assert data[..0] == [];
    var x := (4 - address % 4) % 4;
    if x <= e {
      l := StepBytes(l, start, data, p, x);
      p := x;
    }
    if e - p >= 16 {
      l, p := Strides(l, start, data, p);
    }
    l := StepBytes(l, start, data, p, e);
    assert data[..e] == data;
    crc := Xor(l, Ones());
  }

  lemma SwathSlice(l: Word, data: seq<Byte>, p: nat)
    requires p + 16 <= |data|
    ensures FourWords(Serial(l, data[..p]), data[p..p + 4], data[p + 4..p + 8], data[p + 8..p + 12], data[p + 12..p + 16])
         == Serial(l, data[..p + 16])
  {
    SerialSlice(l, data, p, p + 4);
    SerialSlice(l, data, p + 4, p + 8);
    SerialSlice(l, data, p + 8, p + 12);
    SerialSlice(l, data, p + 12, p + 16);
  }

  /** Extend composes: a stream may be fed in pieces. */
  lemma ExtendComposes(c: Word, a: seq<Byte>, b: seq<Byte>)
    ensures Crc(Crc(c, a), b) == Crc(c, a + b)
  {
    var l := Xor(c, Ones());
    SerialConcat(l, a, b);
    assert Xor(Xor(Serial(l, a), Ones()), Ones()) == Serial(l, a);
  }
}

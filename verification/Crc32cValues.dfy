/** Values of src/util/crc32c.cpp, computed: entries of its tables, and checksums that are published or named in
    the source. */
module Crc32cValues {
  import opened Crc32c

  // ---------- words as numbers ----------

  /** A byte of the message. */
  function Octet(x: bv32): Byte {
    Bits(x, 8)
  }

  function Octets(xs: seq<bv32>): (data: seq<Byte>)
    ensures |data| == |xs|
  {
    if xs == [] then [] else [Octet(xs[0])] + Octets(xs[1..])
  }

  function Shifted(v: bv32, n: nat): bv32 {
    if n == 0 then v else Shifted(Half(v), n - 1)
  }

  lemma {:induction false} BitIs(v: bv32, n: nat, i: nat)
    requires i < n
    ensures Bits(v, n)[i] == Odd(Shifted(v, i))
    decreases n
  {
    hide Half, Odd;
    if i > 0 {
      BitIs(Half(v), n - 1, i - 1);
    }
  }

  lemma {:induction false} ShiftedTwice(v: bv32, m: nat, n: nat)
    ensures Shifted(v, m + n) == Shifted(Shifted(v, m), n)
    decreases m
  {
    hide Half;
    if m > 0 {
      ShiftedTwice(Half(v), m - 1, n);
    }
  }

  function ByteDown(v: bv32): bv32 {
    v >> 8
  }

  lemma ShiftedFour(v: bv32)
    ensures Shifted(v, 4) == Half(Half(Half(Half(v))))
  {
    hide Half;
    var a := Half(v);
    var b := Half(a);
    var c := Half(b);
    assert Shifted(v, 4) == Shifted(a, 3);
    assert Shifted(a, 3) == Shifted(b, 2);
    assert Shifted(b, 2) == Shifted(c, 1);
    assert Shifted(c, 1) == Shifted(Half(c), 0);
  }

  lemma EightHalves(v: bv32)
    ensures var w := Half(Half(Half(Half(v)))); Half(Half(Half(Half(w)))) == ByteDown(v)
  {
  }

  lemma FourBytesDown(v: bv32)
    ensures ByteDown(ByteDown(ByteDown(ByteDown(v)))) == 0
  {
  }

  lemma ShiftedByte(v: bv32)
    ensures Shifted(v, 8) == ByteDown(v)
  {
    EightHalves(v);
    hide Half, ByteDown, Shifted;
    ShiftedFour(v);
    ShiftedTwice(v, 4, 4);
    ShiftedFour(Half(Half(Half(Half(v)))));
  }

  lemma ShiftedOut(v: bv32)
    ensures Shifted(v, 32) == 0
  {
    FourBytesDown(v);
    hide Shifted, ByteDown;
    ShiftedByte(v);
    ShiftedByte(ByteDown(v));
    ShiftedByte(ByteDown(ByteDown(v)));
    ShiftedByte(ByteDown(ByteDown(ByteDown(v))));
    ShiftedTwice(v, 8, 24);
    ShiftedTwice(ByteDown(v), 8, 16);
    ShiftedTwice(ByteDown(ByteDown(v)), 8, 8);
  }

  lemma {:induction false} ShiftedZero(n: nat)
    ensures Shifted(0, n) == 0
  {
    if n > 0 {
      ShiftedZero(n - 1);
    }
  }

  function Mix(a: bv32, b: bv32): bv32 {
    a ^ b
  }

  lemma MixHalf(a: bv32, b: bv32)
    ensures Half(Mix(a, b)) == Mix(Half(a), Half(b)) && (Odd(Mix(a, b)) <==> Odd(a) != Odd(b))
  {
  }

  lemma {:induction false} MixBits(a: bv32, b: bv32, n: nat, i: nat)
    requires i < n
    ensures Bits(Mix(a, b), n)[i] == (Bits(a, n)[i] != Bits(b, n)[i])
    decreases n
  {
    hide Mix, Half, Odd;
    MixHalf(a, b);
    if i > 0 {
      MixBits(Half(a), Half(b), n - 1, i - 1);
    }
  }

  lemma XorNumbers(a: bv32, b: bv32)
    ensures Xor(Number(a), Number(b)) == Number(Mix(a, b))
  {
    hide Bits, Mix;
    forall i | 0 <= i < 32 ensures Xor(Number(a), Number(b))[i] == Number(Mix(a, b))[i] {
      MixBits(a, b, 32, i);
    }
  }

  lemma ShiftNumber(a: bv32)
    ensures ShiftRight(Number(a), 1) == Number(Half(a))
  {
    hide Bits, Half;
    forall i | 0 <= i < 32 ensures ShiftRight(Number(a), 1)[i] == Number(Half(a))[i] {
      BitIs(Half(a), 32, i);
      if i < 31 {
        BitIs(a, 32, i + 1);
      } else {
        ShiftedOut(a);
      }
    }
  }

  lemma LowBit(v: bv32)
    ensures Number(v)[0] == Odd(v)
  {
    BitIs(v, 32, 0);
  }

  lemma PadOctet(x: bv32)
    requires ByteDown(x) == 0
    ensures Pad(Octet(x)) == Number(x) && FitsByte(Number(x))
  {
    hide Bits, ByteDown;
    ShiftedByte(x);
    assert !Odd(0);
    hide Odd;
    forall i | 0 <= i < 32 ensures Number(x)[i] == (i < 8 && Octet(x)[i]) {
      BitIs(x, 32, i);
      if i < 8 {
        BitIs(x, 8, i);
      } else {
        ShiftedTwice(x, 8, i - 8);
        ShiftedZero(i - 8);
      }
    }
  }

  // ---------- the register as a number ----------

  /** One step of the register over a zero bit. */
  function Next(v: bv32): bv32 {
    if Odd(v) then Mix(Half(v), 0x82F6_3B78) else Half(v)
  }

  function Next2(v: bv32): bv32 {
    Next(Next(v))
  }

  function Next8(v: bv32): bv32 {
    Next2(Next2(Next2(Next2(v))))
  }

  lemma NextIs(v: bv32)
    ensures ZeroBits(Number(v), 1) == Number(Next(v))
  {
    LowBit(v);
    ShiftNumber(v);
    XorNumbers(Half(v), 0x82F6_3B78);
    hide Number, Xor, ShiftRight, Half, Odd, Mix;
    assert ZeroBits(Number(v), 1) == ZeroBits(Feedback(Number(v), Number(v)[0]), 0);
  }

  lemma Next2Is(v: bv32)
    ensures ZeroBits(Number(v), 2) == Number(Next2(v))
  {
    hide Number, Next, ZeroBits;
    NextIs(v);
    NextIs(Next(v));
    ZeroBitsAdd(Number(v), 1, 1);
  }

  lemma Next8Is(v: bv32)
    ensures ZeroBits(Number(v), 8) == Number(Next8(v))
  {
    hide Number, Next2, ZeroBits;
    Next2Is(v);
    Next2Is(Next2(v));
    Next2Is(Next2(Next2(v)));
    Next2Is(Next2(Next2(Next2(v))));
    ZeroBitsAdd(Number(v), 2, 2);
    ZeroBitsAdd(Number(v), 4, 2);
    ZeroBitsAdd(Number(v), 6, 2);
  }

  /** One byte of the message. */
  lemma SerialOctet(v: bv32, x: bv32)
    requires ByteDown(x) == 0
    ensures Serial(Number(v), [Octet(x)]) == Number(Next8(Mix(v, x)))
  {
    PadOctet(x);
    XorNumbers(v, x);
    Next8Is(Mix(v, x));
    assert MessageBits([Octet(x)]) == Octet(x) + MessageBits([]) == Octet(x);
    hide Bits, Xor, Pad, Next8, Mix, ByteDown;
    SerialIsXorThenZeros(Number(v), Octet(x));
  }

  /** The register after a message. */
  function After(v: bv32, xs: seq<bv32>): bv32
    decreases |xs|
  {
    if xs == [] then v else After(Next8(Mix(v, xs[0])), xs[1..])
  }

  lemma {:induction false} SerialOctets(v: bv32, xs: seq<bv32>)
    requires forall i :: 0 <= i < |xs| ==> ByteDown(xs[i]) == 0
    ensures Serial(Number(v), Octets(xs)) == Number(After(v, xs))
    decreases |xs|
  {
    hide Number, Octet, Next8, MessageBits, BitSerial, Mix, ByteDown;
    if xs == [] {
      SerialNone(Number(v));
    } else {
      SerialOctet(v, xs[0]);
      SerialOctets(Next8(Mix(v, xs[0])), xs[1..]);
      SerialConcat(Number(v), [Octet(xs[0])], Octets(xs[1..]));
    }
  }

  lemma SerialNone(l: Word)
    ensures Serial(l, []) == l
  {
  }

  // ---------- the tables ----------

  /** The entry of the byte table at x is this number. */
  predicate ByteTableAt(x: bv32, entry: bv32) {
    FitsByte(Number(x)) && ByteExtensionTable(Number(x)) == Number(entry)
  }

  /** The entries of kByteExtensionTable at the powers of two ... */
  lemma ByteTableWords()
    ensures ByteTableAt(0x01, 0xF26B_8303)
    ensures ByteTableAt(0x02, 0xE13B_70F7)
    ensures ByteTableAt(0x04, 0xC79A_971F)
    ensures ByteTableAt(0x08, 0x8AD9_58CF)
    ensures ByteTableAt(0x10, 0x105E_C76F)
    ensures ByteTableAt(0x20, 0x20BD_8EDE)
    ensures ByteTableAt(0x40, 0x417B_1DBC)
    ensures ByteTableAt(0x80, 0x82F6_3B78)
  {
    ByteEntry(0x01);
    ByteEntry(0x02);
    ByteEntry(0x04);
    ByteEntry(0x08);
    ByteEntry(0x10);
    ByteEntry(0x20);
    ByteEntry(0x40);
    ByteEntry(0x80);
    hide Number;
  }

  lemma ByteEntry(x: bv32)
    requires ByteDown(x) == 0
    ensures ByteTableAt(x, Next8(x))
  {
    hide Number, Next8, ByteDown;
    PadOctet(x);
    Next8Is(x);
  }

  /** ... which decide all the others: the table is linear. */
  lemma ByteTableLinear(a: Word, b: Word)
    requires FitsByte(a) && FitsByte(b)
    ensures FitsByte(Xor(a, b)) && ByteExtensionTable(Xor(a, b)) == Xor(ByteExtensionTable(a), ByteExtensionTable(b))
  {
    ZeroBitsLinear(a, b, 8);
  }

  // ---------- checksums ----------

  lemma ChecksumIs(xs: seq<bv32>)
    requires forall i :: 0 <= i < |xs| ==> ByteDown(xs[i]) == 0
    ensures Crc(Number(0), Octets(xs)) == Number(Mix(After(0xFFFF_FFFF, xs), 0xFFFF_FFFF))
  {
    XorNumbers(0, 0xFFFF_FFFF);
    assert Mix(0, 0xFFFF_FFFF) == 0xFFFF_FFFF;
    hide Number, Mix, After, Octets, ByteDown;
    SerialOctets(0xFFFF_FFFF, xs);
    XorNumbers(After(0xFFFF_FFFF, xs), 0xFFFF_FFFF);
  }

  /** One byte of the message takes the register from one state to the next. */
  predicate Turn(v: bv32, x: bv32, next: bv32) {
    Next8(Mix(v, x)) == next
  }

  /** The register goes through these states over the message. */
  ghost predicate Trace(xs: seq<bv32>, states: seq<bv32>) {
    |states| == |xs| + 1 && forall i :: 0 <= i < |xs| ==> Turn(states[i], xs[i], states[i + 1])
  }

  lemma {:induction false} AfterTrace(xs: seq<bv32>, states: seq<bv32>)
    requires Trace(xs, states)
    ensures After(states[0], xs) == states[|xs|]
    decreases |xs|
  {
    hide Next8, Mix;
    if xs != [] {
      assert Turn(states[0], xs[0], states[1]);
      hide Turn;
      AfterTrace(xs[1..], states[1..]);
    }
  }

  lemma {:induction false} AfterConcat(v: bv32, a: seq<bv32>, b: seq<bv32>)
    ensures After(v, a + b) == After(After(v, a), b)
    decreases |a|
  {
    hide Next8, Mix;
    if a == [] {
      assert a + b == b;
    } else {
      assert (a + b)[1..] == a[1..] + b;
      AfterConcat(Next8(Mix(v, a[0])), a[1..], b);
    }
  }

  /** The bytes of "TestCRC" and of "Buffer". */
  const TEST_CRC: seq<bv32> := [0x54, 0x65, 0x73, 0x74, 0x43, 0x52, 0x43]
  const BUFFER: seq<bv32> := [0x42, 0x75, 0x66, 0x66, 0x65, 0x72]

  const TEST_CRC_STATES: seq<bv32> := [
    0xFFFF_FFFF, 0x3B3D_E162, 0xD4F1_590A, 0x09FE_7E98, 0xAE7A_99B4, 0x270A_7107, 0x64F3_C4BE, 0x4C22_D062]

  const BUFFER_STATES: seq<bv32> := [
    0x4C22_D062, 0x20F1_AC0E, 0xE831_0E9A, 0xBEC5_91AB, 0x7C1B_AF86, 0xF01C_4041, 0x2343_A605]

  lemma TestCrcTurns()
    ensures Turn(0xFFFF_FFFF, 0x54, 0x3B3D_E162) && Turn(0x3B3D_E162, 0x65, 0xD4F1_590A)
    ensures Turn(0xD4F1_590A, 0x73, 0x09FE_7E98) && Turn(0x09FE_7E98, 0x74, 0xAE7A_99B4)
    ensures Turn(0xAE7A_99B4, 0x43, 0x270A_7107) && Turn(0x270A_7107, 0x52, 0x64F3_C4BE)
    ensures Turn(0x64F3_C4BE, 0x43, 0x4C22_D062)
  {
  }

  lemma BufferTurns()
    ensures Turn(0x4C22_D062, 0x42, 0x20F1_AC0E) && Turn(0x20F1_AC0E, 0x75, 0xE831_0E9A)
    ensures Turn(0xE831_0E9A, 0x66, 0xBEC5_91AB) && Turn(0xBEC5_91AB, 0x66, 0x7C1B_AF86)
    ensures Turn(0x7C1B_AF86, 0x65, 0xF01C_4041) && Turn(0xF01C_4041, 0x72, 0x2343_A605)
  {
  }

  lemma TestCrcTrace()
    ensures Trace(TEST_CRC, TEST_CRC_STATES)
  {
    hide Turn;
    TestCrcTurns();
  }

  lemma BufferTrace()
    ensures Trace(BUFFER, BUFFER_STATES)
  {
    hide Turn;
    BufferTurns();
  }

  lemma BytesOnly()
    ensures forall i :: 0 <= i < |TEST_CRC + BUFFER| ==> ByteDown((TEST_CRC + BUFFER)[i]) == 0
  {
    assert forall i :: 0 <= i < |TEST_CRC| ==> TEST_CRC[i] < 0x80;
    assert forall i :: 0 <= i < |BUFFER| ==> BUFFER[i] < 0x80;
    forall i | 0 <= i < |TEST_CRC + BUFFER| ensures ByteDown((TEST_CRC + BUFFER)[i]) == 0 {
      SmallIsByte((TEST_CRC + BUFFER)[i]);
    }
  }

  lemma SmallIsByte(x: bv32)
    requires x < 0x80
    ensures ByteDown(x) == 0
  {
  }

  lemma TestCrcFinal()
    ensures Mix(0xFFFF_FFFF, 0xFFFF_FFFF) == 0 && Mix(BUFFER_STATES[6], 0xFFFF_FFFF) == 0xDCBC_59FA
    ensures TEST_CRC_STATES[0] == 0xFFFF_FFFF && TEST_CRC_STATES[7] == BUFFER_STATES[0] && |TEST_CRC| == 7 && |BUFFER| == 6
  {
  }

  /** The checksum of "TestCRCBuffer", by which the source recognises a working library. */
  lemma TestCrcBuffer()
    ensures Crc(Number(0), Octets(TEST_CRC + BUFFER)) == Number(0xDCBC_59FA)
  {
    hide *;
    TestCrcFinal();
    BytesOnly();
    TestCrcTrace();
    BufferTrace();
    AfterTrace(TEST_CRC, TEST_CRC_STATES);
    AfterTrace(BUFFER, BUFFER_STATES);
    AfterConcat(0xFFFF_FFFF, TEST_CRC, BUFFER);
    ChecksumIs(TEST_CRC + BUFFER);
  }

  const ZEROES: seq<bv32> := seq(16, i => 0)

  const ZEROES_STATES: seq<bv32> := [
    0xFFFF_FFFF, 0xAD82_ACAE, 0x0E9E_882D, 0x9F9B_5C85, 0xB798_B438, 0xBA8D_89CA, 0xA8D5_8375, 0x44C1_9592, 0x73D7_4D75,
    0x441A_975C, 0x1C22_0F94, 0x552E_4907, 0xD49F_4AA2, 0x43A4_5A1B, 0x8994_C80E, 0xACF1_2BEF, 0xBD8F_6515]

  const ZEROES_STATES_LATER: seq<bv32> := [
    0xBD8F_6515, 0x2512_5C16, 0x36DA_32DB, 0x4A6C_90A2, 0x433A_A9C1, 0x31A5_9F6E, 0xCD8F_89DA, 0xB8FC_461A, 0x7B04_1311,
    0xE24E_407F, 0x2F69_2669, 0x195B_2188, 0x0836_3896, 0xB401_2DC7, 0x17F3_4302, 0xE12C_83B4, 0x756E_C955]

  lemma ZeroesTurns()
    ensures Turn(0xFFFF_FFFF, 0x00, 0xAD82_ACAE) && Turn(0xAD82_ACAE, 0x00, 0x0E9E_882D)
    ensures Turn(0x0E9E_882D, 0x00, 0x9F9B_5C85) && Turn(0x9F9B_5C85, 0x00, 0xB798_B438)
    ensures Turn(0xB798_B438, 0x00, 0xBA8D_89CA) && Turn(0xBA8D_89CA, 0x00, 0xA8D5_8375)
    ensures Turn(0xA8D5_8375, 0x00, 0x44C1_9592) && Turn(0x44C1_9592, 0x00, 0x73D7_4D75)
    ensures Turn(0x73D7_4D75, 0x00, 0x441A_975C) && Turn(0x441A_975C, 0x00, 0x1C22_0F94)
    ensures Turn(0x1C22_0F94, 0x00, 0x552E_4907) && Turn(0x552E_4907, 0x00, 0xD49F_4AA2)
    ensures Turn(0xD49F_4AA2, 0x00, 0x43A4_5A1B) && Turn(0x43A4_5A1B, 0x00, 0x8994_C80E)
    ensures Turn(0x8994_C80E, 0x00, 0xACF1_2BEF) && Turn(0xACF1_2BEF, 0x00, 0xBD8F_6515)
  {
  }

  lemma ZeroesTurnsLater()
    ensures Turn(0xBD8F_6515, 0x00, 0x2512_5C16) && Turn(0x2512_5C16, 0x00, 0x36DA_32DB)
    ensures Turn(0x36DA_32DB, 0x00, 0x4A6C_90A2) && Turn(0x4A6C_90A2, 0x00, 0x433A_A9C1)
    ensures Turn(0x433A_A9C1, 0x00, 0x31A5_9F6E) && Turn(0x31A5_9F6E, 0x00, 0xCD8F_89DA)
    ensures Turn(0xCD8F_89DA, 0x00, 0xB8FC_461A) && Turn(0xB8FC_461A, 0x00, 0x7B04_1311)
    ensures Turn(0x7B04_1311, 0x00, 0xE24E_407F) && Turn(0xE24E_407F, 0x00, 0x2F69_2669)
    ensures Turn(0x2F69_2669, 0x00, 0x195B_2188) && Turn(0x195B_2188, 0x00, 0x0836_3896)
    ensures Turn(0x0836_3896, 0x00, 0xB401_2DC7) && Turn(0xB401_2DC7, 0x00, 0x17F3_4302)
    ensures Turn(0x17F3_4302, 0x00, 0xE12C_83B4) && Turn(0xE12C_83B4, 0x00, 0x756E_C955)
  {
  }

  lemma ZeroesTrace()
    ensures Trace(ZEROES, ZEROES_STATES)
  {
    hide Turn;
    ZeroesTurns();
  }

  lemma ZeroesTraceLater()
    ensures Trace(ZEROES, ZEROES_STATES_LATER)
  {
    hide Turn;
    ZeroesTurnsLater();
  }

  /** The checksum of 32 zero bytes, of section B.4 of RFC 3720. */
  lemma ZeroesCrc()
    ensures Crc(Number(0), Octets(seq(32, i => 0))) == Number(0x8A91_36AA)
  {
    assert Mix(ZEROES_STATES_LATER[16], 0xFFFF_FFFF) == 0x8A91_36AA;
    assert ByteDown(0) == 0;
    assert ZEROES + ZEROES == seq(32, i => 0);
    hide Number, Mix, Trace, After, ByteDown, Octets;
    ZeroesTrace();
    ZeroesTraceLater();
    AfterTrace(ZEROES, ZEROES_STATES);
    AfterTrace(ZEROES, ZEROES_STATES_LATER);
    AfterConcat(0xFFFF_FFFF, ZEROES, ZEROES);
    ChecksumIs(ZEROES + ZEROES);
  }
}

/** The checksum of process names: a table-driven CRC over the polynomial the driver uses, and the
    bit-at-a-time loop that fills the table. */
module Crc {
  const POLY: bv32 := 0x04c1_1db7

  function Xor(a: bv32, b: bv32): bv32 { a ^ b }

  /** One round of the inner loop of the table build. */
  function BitStep(crc: bv32): bv32 {
    if crc & 1 != 0 then Xor(crc >> 1, POLY) else crc >> 1
  }

  function BitSteps(crc: bv32, n: nat): bv32 {
    if n == 0 then crc else BitStep(BitSteps(crc, n - 1))
  }

  /** The register after eight rounds for one byte, without a table. */
  function SlowByte(crc: bv32, b: bv32): bv32 { BitSteps(Xor(crc, b), 8) }

  function SlowCrc(crc: bv32, data: seq<bv32>): bv32 {
    if data == [] then crc else SlowByte(SlowCrc(crc, data[..|data| - 1]), data[|data| - 1])
  }

  lemma BitStepIs(a: bv32)
    ensures a & 1 != 0 ==> BitStep(a) == (a >> 1) ^ POLY
    ensures a & 1 == 0 ==> BitStep(a) == a >> 1
  {
  }

  lemma XorShift(a: bv32, b: bv32)
    ensures (a ^ b) >> 1 == (a >> 1) ^ (b >> 1)
    ensures (a ^ b) & 1 == (a & 1) ^ (b & 1)
    ensures a & 1 == 0 || a & 1 == 1
    ensures b & 1 == 0 || b & 1 == 1
  {
  }

  lemma XorMoves(a: bv32, b: bv32, p: bv32)
    ensures (a ^ p) ^ (b ^ p) == a ^ b
    ensures (a ^ b) ^ p == (a ^ p) ^ b
    ensures (a ^ b) ^ p == a ^ (b ^ p)
  {
  }

  lemma BitStepLinear(a: bv32, b: bv32)
    ensures BitStep(Xor(a, b)) == Xor(BitStep(a), BitStep(b))
  {
    hide BitStep;
    BitStepIs(a);
    BitStepIs(b);
    BitStepIs(a ^ b);
    XorShift(a, b);
    XorMoves(a >> 1, b >> 1, POLY);
  }

  /** The rounds are linear: the register and the data can be run separately. */
  lemma {:induction false} BitStepsLinear(a: bv32, b: bv32, n: nat)
    ensures BitSteps(Xor(a, b), n) == Xor(BitSteps(a, n), BitSteps(b, n))
  {
    hide BitStep, Xor;
    if n > 0 {
      BitStepsLinear(a, b, n - 1);
      BitStepLinear(BitSteps(a, n - 1), BitSteps(b, n - 1));
    }
  }

  /** Rounds over a register whose low byte is clear only shift it. */
  lemma HighByteShifts(a: bv32)
    requires Low(a) == 0
    ensures BitSteps(a, 8) == Shift8(a)
  {
    assert BitSteps(a, 0) == a;
    assert BitSteps(a, 1) == a >> 1;
    assert BitSteps(a, 2) == a >> 2;
    assert BitSteps(a, 3) == a >> 3;
    assert BitSteps(a, 4) == a >> 4;
    assert BitSteps(a, 5) == a >> 5;
    assert BitSteps(a, 6) == a >> 6;
    assert BitSteps(a, 7) == a >> 7;
  }

  function Shift8(x: bv32): bv32 { x >> 8 }

  function High(x: bv32): bv32 { x & 0xFFFF_FF00 }

  function Low(x: bv32): bv32 { x & 0xFF }

  lemma SplitXor(x: bv32)
    ensures x == Xor(High(x), Low(x))
    ensures Low(High(x)) == 0 && Shift8(High(x)) == Shift8(x)
  {
  }

  lemma ByteGone(a: bv32, b: bv32)
    requires High(b) == 0
    ensures Shift8(Xor(a, b)) == Kept(a)
  {
  }

  /** The source's loop body: shift the register and add a table entry. */
  function FastByte(crc: bv32, entry: bv32): bv32 { Xor(Kept(crc), entry) }

  function Kept(crc: bv32): bv32 { (crc >> 8) & 0x00FF_FFFF }

  /** One table step is eight bit steps, for every register and byte. */
  lemma TableStep(crc: bv32, b: bv32)
    requires High(b) == 0
    ensures SlowByte(crc, b) == FastByte(crc, BitSteps(Low(Xor(crc, b)), 8))
  {
    hide BitSteps, Xor, High, Low, Shift8, Kept;
    var x := Xor(crc, b);
    SplitXor(x);
    BitStepsLinear(High(x), Low(x), 8);
    HighByteShifts(High(x));
    ByteGone(crc, b);
  }

  /** The table as the driver builds it. */
  function Entry(i: int): bv32
    requires 0 <= i < 256
  {
    BitSteps(i as bv32, 8)
  }

  lemma EightSteps(x: bv32, a: bv32, b: bv32, c: bv32, d: bv32, e: bv32, f: bv32, g: bv32, h: bv32)
    requires BitStep(x) == a && BitStep(a) == b && BitStep(b) == c && BitStep(c) == d
    requires BitStep(d) == e && BitStep(e) == f && BitStep(f) == g && BitStep(g) == h
    ensures BitSteps(x, 8) == h
  {
    hide BitStep;
    assert BitSteps(x, 0) == x;
    assert BitSteps(x, 1) == a;
    assert BitSteps(x, 2) == b;
    assert BitSteps(x, 3) == c;
    assert BitSteps(x, 4) == d;
    assert BitSteps(x, 5) == e;
    assert BitSteps(x, 6) == f;
    assert BitSteps(x, 7) == g;
  }

  /** The entries for single bits, which by linearity determine the table. */
  lemma KnownEntries()
    ensures Entry(1) == 0x06233697
    ensures Entry(2) == 0x05c45641
    ensures Entry(4) == 0x020a97ed
    ensures Entry(8) == 0x04152fda
    ensures Entry(16) == 0x01a864db
    ensures Entry(32) == 0x0350c9b6
    ensures Entry(64) == 0x06a1936c
    ensures Entry(128) == 0x04c11db7
  {
    hide BitSteps;
    EightSteps(1, 0x4c11db7, 0x6a1936c, 0x350c9b6, 0x1a864db, 0x4152fda, 0x20a97ed, 0x5c45641, 0x6233697);
    EightSteps(2, 0x1, 0x4c11db7, 0x6a1936c, 0x350c9b6, 0x1a864db, 0x4152fda, 0x20a97ed, 0x5c45641);
    EightSteps(4, 0x2, 0x1, 0x4c11db7, 0x6a1936c, 0x350c9b6, 0x1a864db, 0x4152fda, 0x20a97ed);
    EightSteps(8, 0x4, 0x2, 0x1, 0x4c11db7, 0x6a1936c, 0x350c9b6, 0x1a864db, 0x4152fda);
    EightSteps(16, 0x8, 0x4, 0x2, 0x1, 0x4c11db7, 0x6a1936c, 0x350c9b6, 0x1a864db);
    EightSteps(32, 0x10, 0x8, 0x4, 0x2, 0x1, 0x4c11db7, 0x6a1936c, 0x350c9b6);
    EightSteps(64, 0x20, 0x10, 0x8, 0x4, 0x2, 0x1, 0x4c11db7, 0x6a1936c);
    EightSteps(128, 0x40, 0x20, 0x10, 0x8, 0x4, 0x2, 0x1, 0x4c11db7);
  }

  predicate TableOk(table: seq<bv32>) {
    |table| == 256 && forall i :: 0 <= i < 256 ==> table[i] == Entry(i)
  }

  /** The table loops of `cookies_initialize`. */
  method BuildTable() returns (table: array<bv32>)
    ensures fresh(table) && TableOk(table[..])
  {
    hide Entry;
    table := new bv32[256];
    var i := 0;
    while i < 256
      invariant 0 <= i <= 256
      invariant forall k :: 0 <= k < i ==> table[k] == Entry(k)
    {
      var crc := BuildEntry(i);
      table[i] := crc;
      i := i + 1;
    }
  }

  method BuildEntry(i: int) returns (crc: bv32)
    requires 0 <= i < 256
    ensures crc == Entry(i)
  {
    hide BitStep;
    crc := i as bv32;
    var j := 8;
    while j > 0
      invariant 0 <= j <= 8 && crc == BitSteps(i as bv32, 8 - j)
    {
      crc := RoundOf(crc);
      j := j - 1;
    }
  }

  method RoundOf(crc: bv32) returns (r: bv32)
    ensures r == BitStep(crc)
  {
    if crc & 1 != 0 {
      r := (crc >> 1) ^ POLY;
    } else {
      r := crc >> 1;
    }
  }

  lemma LowIsIndex(x: bv32)
    ensures (Low(x) as int) < 256 && (Low(x) as int) as bv32 == Low(x)
  {
  }

  /** The table-driven checksum of a string is the bit-at-a-time checksum of it. */
  method Checksum(table: array<bv32>, data: seq<bv32>) returns (r: bv32)
    requires TableOk(table[..])
    requires forall b :: b in data ==> High(b) == 0
    ensures r == Xor(SlowCrc(0xFFFF_FFFF, data), 0xFFFF_FFFF)
  {
    hide BitSteps, Xor, High, Low, FastByte, SlowByte;
    var crc: bv32 := 0xFFFF_FFFF;
    var i := 0;
    while i < |data|
      invariant 0 <= i <= |data| && crc == SlowCrc(0xFFFF_FFFF, data[..i])
    {
      var b := data[i];
      var index := Low(Xor(crc, b));
      LowIsIndex(Xor(crc, b));
      TableStep(crc, b);
      assert table[..][index as int] == Entry(index as int);
      assert data[..i + 1][..i] == data[..i];
      crc := FastByte(crc, table[index as int]);
      i := i + 1;
    }
    assert data[..i] == data;
    r := Xor(crc, 0xFFFF_FFFF);
  }
}

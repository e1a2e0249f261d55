/** The decoders on the daemon's side of the external-driver socket. */
module ExternalDecoder {
  import opened RingIndex
  import opened Leb128
  import opened Framing

  const TWO64 := 0x1_0000_0000_0000_0000

  /** Bitwise disjunction, bit by bit from the low end. */
  function BitOr(x: nat, y: nat): nat {
    if x == 0 then y
    else if y == 0 then x
    else (if x % 2 == 1 || y % 2 == 1 then 1 else 0) + 2 * BitOr(x / 2, y / 2)
  }

  /** Disjoint bits add up. */
  lemma {:induction false} OrDisjoint(x: nat, d: nat, k: nat)
    requires x < Pow2(k)
    ensures BitOr(x, d * Pow2(k)) == x + d * Pow2(k)
    decreases k
  {
    if k > 0 && x > 0 && d > 0 {
      var y := d * Pow2(k);
      assert y == 2 * (d * Pow2(k - 1));
      OrDisjoint(x / 2, d, k - 1);
    }
  }

  /** How a read ends.  `Undefined` marks the shift `1 << shift` of an `int` by 31 or more, and the
      shift of a 64-bit value by 64 or more, which C leaves undefined. */
  datatype Outcome = Ok(l: nat, pos: nat) | Short | Undefined

  /** The sign extension after the last byte `b`. */
  function Finish(l: nat, shift: nat, b: byte, pos: nat): Outcome {
    if shift < 64 && b >= 64 then
      if shift > 30 then Undefined else Ok(BitOr(l, TWO64 - Pow2(shift) % TWO64), pos)
    else Ok(l, pos)
  }

  /** `readPackedInt` from `pos`, with the bits `l` collected so far. */
  function Read(s: seq<byte>, pos: nat, shift: nat, l: nat): Outcome
    requires pos <= |s|
    decreases |s| - pos
  {
    if pos == |s| then Short
    else if shift >= 64 then Undefined
    else
      var b := s[pos];
      var l' := BitOr(l, b % 128 * Pow2(shift) % TWO64);
      if b >= 128 then Read(s, pos + 1, shift + 7, l')
      else Finish(l', shift + 7, b, pos + 1)
  }

  /** The loop of `readPackedInt`. */
  method ReadPackedInt(buf: seq<byte>, from: nat) returns (r: Outcome)
    requires from <= |buf|
    ensures r == Read(buf, from, 0, 0)
  {
    var pos, shift, l := from, 0, 0;
    var b: byte := 255;
    while b >= 128
      invariant from <= pos <= |buf| && shift % 7 == 0
      invariant b >= 128 ==> Read(buf, from, 0, 0) == Read(buf, pos, shift, l)
      invariant b < 128 ==> Read(buf, from, 0, 0) == Finish(l, shift, b, pos)
      decreases |buf| - pos, b
    {
      if pos >= |buf| {
        return Short;
      }
      if shift >= 64 {
        return Undefined;
      }
      b := buf[pos];
      pos := pos + 1;
      l := BitOr(l, b % 128 * Pow2(shift) % TWO64);
      shift := shift + 7;
    }
    if shift < 64 && b >= 64 {
      if shift > 30 {
        return Undefined;
      }
      l := BitOr(l, TWO64 - Pow2(shift) % TWO64);
    }
    r := Ok(l, pos);
  }

  /** The two's complement reading of an `int64` as `uint64`. */
  function Unsigned(x: int64): nat {
    var v: int := x;
    if v < 0 then v + TWO64 else v
  }

  /** The values whose sign extension `readPackedInt` can perform: every value of at most four bytes,
      every non-negative one, and those so negative that their tenth byte already holds the sign. */
  predicate Readable(x: int64) {
    -0x800_0000 <= x || x < -0x4000_0000_0000_0000
  }

  lemma {:induction false} Pow2Sum(a: nat, b: nat)
    ensures Pow2(a + b) == Pow2(a) * Pow2(b)
  {
    if a == 0 {
      assert Pow2(0) == 1;
    } else {
      hide Pow2;
      Pow2Sum(a - 1, b);
      Pow2Next(a - 1);
      Pow2Next(a + b - 1);
      DoubleFirst(Pow2(a - 1), Pow2(b));
    }
  }

  lemma DoubleFirst(p: nat, q: nat)
    ensures 2 * p * q == 2 * (p * q)
  {
  }

  /** Adding seven to the exponent. */
  lemma Pow2Seven(k: nat)
    ensures Pow2(k + 7) == 128 * Pow2(k)
  {
    assert Pow2(k + 7) == 2 * Pow2(k + 6) && Pow2(k + 6) == 2 * Pow2(k + 5);
    assert Pow2(k + 5) == 2 * Pow2(k + 4) && Pow2(k + 4) == 2 * Pow2(k + 3);
    assert Pow2(k + 3) == 2 * Pow2(k + 2) && Pow2(k + 2) == 2 * Pow2(k + 1);
  }

  lemma Pow2Constants()
    ensures Pow2(7) == 128 && Pow2(63) == 0x8000_0000_0000_0000 && Pow2(64) == TWO64
    ensures Pow2(49) == 0x2_0000_0000_0000 && Pow2(56) == 0x100_0000_0000_0000 && Pow2(28) == 0x1000_0000
  {
    assert Pow2(0) == 1;
    hide Pow2;
    Pow2Seven(0);
    Pow2Seven(7);
    Pow2Seven(14);
    Pow2Seven(21);
    Pow2Seven(28);
    Pow2Seven(35);
    Pow2Seven(42);
    Pow2Seven(49);
    Pow2Seven(56);
    Pow2Next(63);
  }

  lemma Pow2Next(k: nat)
    ensures Pow2(k + 1) == 2 * Pow2(k)
  {
  }

  lemma {:induction false} Pow2Grows(a: nat, b: nat)
    requires a <= b
    ensures Pow2(a) <= Pow2(b)
    decreases b
  {
    if a < b {
      Pow2Grows(a, b - 1);
    }
  }

  lemma Distribute(b: nat, q: int, p: nat)
    ensures (b + 128 * q) * p == b * p + q * (128 * p)
  {
  }

  lemma Weigh(b: nat, p: nat)
    requires b <= 127
    ensures 0 <= b * p <= 127 * p
  {
  }

  /** Splitting off the low seven bits, at the weight `p`. */
  lemma SplitLow(v: int, p: nat)
    ensures v * p == (v % 128) * p + (v / 128) * (128 * p)
    ensures 0 <= (v % 128) * p <= 127 * p
  {
    Distribute(v % 128, v / 128, p);
    Weigh(v % 128, p);
  }

  /** One byte of the packed value moves into the accumulator. */
  lemma TakeBits(acc: nat, v: int, i: nat)
    requires i < 9 && acc < Pow2(7 * i)
    ensures var b, p := v % 128, Pow2(7 * i);
      && BitOr(acc, b * p % TWO64) == acc + b * p < Pow2(7 * (i + 1))
      && Pow2(7 * (i + 1)) == 128 * p
      && acc + v * p == (acc + b * p) + (v / 128) * Pow2(7 * (i + 1))
  {
    hide Pow2, BitOr;
    var b, p := v % 128, Pow2(7 * i);
    Pow2Constants();
    Pow2Seven(7 * i);
    Pow2Grows(7 * i, 56);
    SplitLow(v, p);
    OrDisjoint(acc, b, 7 * i);
    var bp := b * p;
    assert bp % TWO64 == bp;
    assert 7 * (i + 1) == 7 * i + 7;
  }

  /** The sign extension of a value that ends before bit 31. */
  lemma SignExtend(l: nat, k: nat)
    requires k <= 30 && l < Pow2(k)
    ensures BitOr(l, TWO64 - Pow2(k) % TWO64) == l + TWO64 - Pow2(k)
  {
    hide Pow2, BitOr;
    Pow2Constants();
    Pow2Grows(k, 63);
    Pow2Sum(64 - k, k);
    var p, q := Pow2(k), Pow2(64 - k);
    assert (q - 1) * p == q * p - p;
    assert p % TWO64 == p;
    OrDisjoint(l, q - 1, k);
  }

  /** The round that reads the last byte. */
  lemma ReadEnd(s: seq<byte>, pos: nat, shift: nat, l: nat, next: nat)
    requires pos < |s| && shift < 64 && s[pos] < 128
    requires BitOr(l, s[pos] % 128 * Pow2(shift) % TWO64) == next
    ensures Read(s, pos, shift, l) == Finish(next, shift + 7, s[pos], pos + 1)
  {
    hide Pow2, BitOr;
  }

  /** The sign extension, where `1 << shift` is defined, gives the value `total`. */
  lemma FinishLast(next: nat, i: nat, b: byte, total: int, pos: nat)
    requires i < 9 && b < 128 && next < Pow2(7 * (i + 1))
    requires total == if b >= 64 then next - Pow2(7 * (i + 1)) else next
    requires -0x8000_0000_0000_0000 <= total < 0x8000_0000_0000_0000
    ensures Finish(next, 7 * (i + 1), b, pos) ==
      if b >= 64 && 4 <= i <= 8 then Undefined else Ok(Unsigned(total), pos)
  {
    hide Pow2, BitOr;
    if b >= 64 && i < 4 {
      SignExtend(next, 7 * (i + 1));
    }
  }

  lemma SignTerm(q: int, p: nat)
    requires q == 0 || q == -1
    ensures q * p == if q == 0 then 0 else 0 - p
  {
  }

  /** Reading the last byte of a packed value, before the tenth. */
  lemma ReadLast(s: seq<byte>, pos: nat, v: int, i: nat, acc: nat)
    requires IsLast(v) && pos < |s| && s[pos] == v % 128
    requires i < 9 && acc < Pow2(7 * i)
    requires -0x8000_0000_0000_0000 <= acc + v * Pow2(7 * i) < 0x8000_0000_0000_0000
    ensures Read(s, pos, 7 * i, acc) ==
      if v < 0 && 4 <= i <= 8 then Undefined else Ok(Unsigned(acc + v * Pow2(7 * i)), pos + 1)
  {
    hide Pow2, BitOr, Read, Finish, Unsigned;
    TakeBits(acc, v, i);
    var next := acc + v % 128 * Pow2(7 * i);
    SignTerm(v / 128, Pow2(7 * (i + 1)));
    ReadEnd(s, pos, 7 * i, acc, next);
    assert 7 * i + 7 == 7 * (i + 1);
    FinishLast(next, i, s[pos], acc + v * Pow2(7 * i), pos + 1);
  }

  lemma ReadStep(s: seq<byte>, pos: nat, shift: nat, l: nat, next: nat)
    requires pos < |s| && shift < 64 && s[pos] >= 128
    requires BitOr(l, s[pos] % 128 * Pow2(shift) % TWO64) == next
    ensures Read(s, pos, shift, l) == Read(s, pos + 1, shift + 7, next)
  {
    hide Pow2, BitOr;
  }

  /** One more byte is read. */
  lemma ReadMore(s: seq<byte>, pos: nat, v: int, i: nat, acc: nat)
    requires pos < |s| && s[pos] == v % 128 + 128
    requires i < 9 && acc < Pow2(7 * i)
    ensures Read(s, pos, 7 * i, acc) == Read(s, pos + 1, 7 * (i + 1), acc + v % 128 * Pow2(7 * i))
  {
    hide *;
    TakeBits(acc, v, i);
    ReadStep(s, pos, 7 * i, acc, acc + v % 128 * Pow2(7 * i));
    assert 7 * i + 7 == 7 * (i + 1);
  }

  /** Reading the rest `v` of a packed value after `i` bytes that left the bits `acc`. */
  lemma {:induction false} ReadRest(s: seq<byte>, pos: nat, v: int, i: nat, acc: nat)
    requires pos + |Encode(v)| <= |s| && s[pos..pos + |Encode(v)|] == Encode(v)
    requires i <= 9 && acc < Pow2(7 * i)
    requires -0x8000_0000_0000_0000 <= acc + v * Pow2(7 * i) < 0x8000_0000_0000_0000
    requires i == 9 ==> v == 0 || v == -1
    requires i == 8 ==> -128 <= v < 128
    ensures var n := i + |Encode(v)|;
      Read(s, pos, 7 * i, acc) ==
        if v < 0 && 5 <= n <= 9 then Undefined
        else Ok(Unsigned(acc + v * Pow2(7 * i)), pos + |Encode(v)|)
    decreases 9 - i
  {
    hide Pow2, BitOr, Read;
    var code := Encode(v);
    assert s[pos] == code[0];
    if i == 9 {
      Pow2Constants();
      LastByte(s, pos, v, acc);
    } else if IsLast(v) {
      ReadLast(s, pos, v, i, acc);
    } else {
      TakeBits(acc, v, i);
      ReadMore(s, pos, v, i, acc);
      assert code[1..] == Encode(v / 128);
      assert s[pos + 1..pos + |code|] == s[pos..pos + |code|][1..];
      NextInRange(acc, v, i);
      ReadRest(s, pos + 1, v / 128, i + 1, acc + v % 128 * Pow2(7 * i));
    }
  }

  /** The tenth byte of a 64-bit value is 0 or 127. */
  lemma LastByte(s: seq<byte>, pos: nat, v: int, acc: nat)
    requires pos < |s| && (v == 0 || v == -1) && s[pos] == v % 128
    requires acc < Pow2(63)
    ensures -0x8000_0000_0000_0000 <= acc + v * Pow2(63) < 0x8000_0000_0000_0000
    ensures Read(s, pos, 63, acc) == Ok(Unsigned(acc + v * Pow2(63)), pos + 1)
  {
    hide Pow2, BitOr;
    Pow2Constants();
    OrDisjoint(acc, if v == 0 then 0 else 1, 63);
    assert 127 * Pow2(63) % TWO64 == Pow2(63);
  }

  lemma NextInRange(acc: nat, v: int, i: nat)
    requires i < 9 && acc < Pow2(7 * i)
    requires -0x8000_0000_0000_0000 <= acc + v * Pow2(7 * i) < 0x8000_0000_0000_0000
    requires i == 8 ==> -128 <= v < 128
    ensures i == 8 ==> v / 128 == 0 || v / 128 == -1
    ensures i == 7 ==> -128 <= v / 128 < 128
  {
    if i == 7 {
      Pow2Constants();
      assert -16384 <= v < 16384;
    }
  }

  /** `readPackedInt` gives back exactly the packed value and consumes exactly its bytes, for exactly
      the `Readable` values of an `int64`; for the others its result is undefined. */
  lemma ReadPackedExactly(before: seq<byte>, x: int64, rest: seq<byte>)
    ensures var s := before + Encode(x) + rest;
      Read(s, |before|, 0, 0) ==
        if Readable(x) then Ok(Unsigned(x), |before| + |Encode(x)|) else Undefined
  {
    var s := before + Encode(x) + rest;
    assert s[|before|..|before| + |Encode(x)|] == Encode(x);
    ReadRest(s, |before|, x, 0, 0);
    EncodeLength(x, 4);
    EncodeLength(x, 9);
    Halves();
    Pack64Length(x);
  }

  /** A packed value cut short is reported as such and never misread. */
  lemma {:induction false} ReadTruncated(x: int64, n: nat, pos: nat, v: int, i: nat, l: nat)
    requires n < |Encode(x)| && pos <= n && i == pos
    requires Encode(x) == Encode(x)[..pos] + Encode(v)
    ensures Read(Encode(x)[..n], pos, 7 * i, l) == Short
    decreases n - pos
  {
    Pack64Length(x);
    if pos < n {
      var code := Encode(x);
      assert |Encode(v)| > 1 && code[pos] == Encode(v)[0];
      assert Encode(v) == [v % 128 + 128] + Encode(v / 128);
      assert code[..pos] + Encode(v) == (code[..pos] + [v % 128 + 128]) + Encode(v / 128);
      assert code[..pos + 1] == code[..pos] + [v % 128 + 128];
      ReadTruncated(x, n, pos + 1, v / 128, i + 1, BitOr(l, code[pos] % 128 * Pow2(7 * i) % TWO64));
    }
  }

  /** The same for a whole packed value, from its first byte. */
  lemma ReadCutShort(x: int64, n: nat)
    requires n < |Encode(x)|
    ensures Read(Encode(x)[..n], 0, 0, 0) == Short
  {
    assert Encode(x) == Encode(x)[..0] + Encode(x);
    ReadTruncated(x, n, 0, x, 0, 0);
  }

  // ------------------------------------------------------------------ readLEInt

  const TWO32 := 0x1_0000_0000

  /** A `char` converted to `uint32_t`: where `char` is signed, its sign is smeared over the high bits. */
  function Widen(signedChar: bool, b: byte): nat {
    if signedChar && b >= 128 then TWO32 - 256 + b else b
  }

  /** `readLEInt` from its byte `i`, with `v` collected so far. */
  function ReadLE(signedChar: bool, s: seq<byte>, i: nat, v: nat): nat
    requires |s| == LENGTH_BYTES && i <= LENGTH_BYTES
    decreases LENGTH_BYTES - i
  {
    if i == LENGTH_BYTES then v
    else ReadLE(signedChar, s, i + 1, BitOr(v, Widen(signedChar, s[i]) * Pow2(8 * i) % TWO32))
  }

  /** The loop of `readLEInt`. */
  method ReadLEInt(signedChar: bool, buf: seq<byte>) returns (v: nat)
    requires |buf| == LENGTH_BYTES
    ensures v == ReadLE(signedChar, buf, 0, 0)
    ensures v == FromLittleEndian(buf) <==> LengthReadable(signedChar, buf)
  {
    v := 0;
    for i := 0 to LENGTH_BYTES
      invariant ReadLE(signedChar, buf, 0, 0) == ReadLE(signedChar, buf, i, v)
    {
      v := BitOr(v, Widen(signedChar, buf[i]) * Pow2(8 * i) % TWO32);
    }
    ReadLEExactly(signedChar, buf);
  }

  /** Where `char` is signed, a byte from 128 up spoils the length unless only 255 follows it. */
  predicate LengthReadable(signedChar: bool, s: seq<byte>)
    requires |s| == LENGTH_BYTES
  {
    signedChar ==> forall i, j :: 0 <= i < j < LENGTH_BYTES && s[i] >= 128 ==> s[j] == 255
  }

  /** What the bytes from `i` on contribute: the smeared sign covers everything above its byte. */
  function Smeared(signedChar: bool, s: seq<byte>, i: nat): nat
    requires |s| == LENGTH_BYTES && i <= LENGTH_BYTES
    decreases LENGTH_BYTES - i
  {
    if i == LENGTH_BYTES then 0
    else if signedChar && s[i] >= 128 then
      (s[i] as nat) + (if i == 0 then 0xffff_ff00 else if i == 1 then 0xff_ff00 else if i == 2 then 0xff00 else 0)
    else (s[i] as nat) + 256 * Smeared(signedChar, s, i + 1)
  }

  lemma OrDouble(p: nat, q: nat, low: nat)
    requires low < 2
    ensures BitOr(2 * p + low, 2 * q) == 2 * BitOr(p, q) + low
  {
  }

  lemma DoublePow2(a: nat, k: nat)
    requires k > 0
    ensures a * Pow2(k) == 2 * (a * Pow2(k - 1))
  {
  }

  /** Bits below a shift are apart from those above it. */
  lemma {:induction false} OrShift(x: nat, a: nat, b: nat, k: nat)
    requires x < Pow2(k)
    ensures BitOr(x + a * Pow2(k), b * Pow2(k)) == x + BitOr(a, b) * Pow2(k)
    decreases k
  {
    hide BitOr;
    if k > 0 {
      OrShift(x / 2, a, b, k - 1);
      DoublePow2(a, k);
      DoublePow2(b, k);
      DoublePow2(BitOr(a, b), k);
      hide *;
      OrDouble(x / 2 + a * Pow2(k - 1), b * Pow2(k - 1), x % 2);
    }
  }

  lemma OrOdd(p: nat, d: nat)
    ensures BitOr(2 * p + 1, d) == 2 * BitOr(p, d / 2) + 1
  {
  }

  lemma OrNothing()
    ensures BitOr(0, 0) == 0
  {
  }

  lemma {:induction false} OrOnes(d: nat, m: nat)
    requires d < Pow2(m)
    ensures BitOr(Pow2(m) - 1, d) == Pow2(m) - 1
    decreases m
  {
    hide BitOr;
    if m > 0 {
      OrOnes(d / 2, m - 1);
      OrOdd(Pow2(m - 1) - 1, d);
    } else {
      OrNothing();
    }
  }

  /** Bits that are already set stay as they are. */
  lemma OrAbsorbs(x: nat, ones: nat, d: nat, m: nat, k: nat)
    requires x < Pow2(k) && d < Pow2(m) && ones == Pow2(m) - 1
    ensures BitOr(x + ones * Pow2(k), d * Pow2(k)) == x + ones * Pow2(k)
  {
    hide *;
    OrOnes(d, m);
    OrShift(x, ones, d, k);
  }

  /** Adding eight to the exponent. */
  lemma Pow2Eight(k: nat)
    ensures Pow2(k + 8) == 256 * Pow2(k)
  {
    Pow2Seven(k);
    assert Pow2(k + 8) == 2 * Pow2(k + 7);
  }

  lemma ByteWeights()
    ensures Pow2(0) == 1 && Pow2(8) == 256 && Pow2(16) == 65536 && Pow2(24) == 16777216 && Pow2(32) == TWO32
  {
    assert Pow2(0) == 1;
    hide Pow2;
    Pow2Eight(0);
    Pow2Eight(8);
    Pow2Eight(16);
    Pow2Eight(24);
  }

  lemma Remainder32(x: nat, a: nat, r: nat)
    requires x == a * TWO32 + r && r < TWO32
    ensures x % TWO32 == r
  {
  }

  lemma SpreadProduct(a: nat, q: nat, b: nat, p: nat)
    ensures (a * q + b) * p == a * (p * q) + b * p
  {
    assert a * q * p == a * (p * q);
  }

  lemma BelowProduct(b: nat, q: nat, p: nat)
    requires b < q && 0 < p
    ensures b * p < p * q
  {
    assert (q - b) * p > 0;
  }

  lemma LowBits(w: nat, p: nat, q: nat)
    requires 0 < p && 0 < q && p * q == TWO32
    ensures w * p % TWO32 == w % q * p
  {
    SpreadProduct(w / q, q, w % q, p);
    BelowProduct(w % q, q, p);
    Remainder32(w * p, w / q, w % q * p);
  }

  /** Shifting a 32-bit value keeps its low bits. */
  lemma Shifted(w: nat, i: nat)
    requires i < LENGTH_BYTES
    ensures w * Pow2(8 * i) % TWO32 == w % Pow2(32 - 8 * i) * Pow2(8 * i)
  {
    hide Pow2;
    ByteWeights();
    Pow2Sum(8 * i, 32 - 8 * i);
    assert 8 * i + (32 - 8 * i) == 32;
    LowBits(w, Pow2(8 * i), Pow2(32 - 8 * i));
  }

  /** A later byte falls on bits that a smeared sign has set. */
  lemma SmearAbsorbs(w: nat, i: nat, j: nat, x: nat)
    requires 1 <= j <= i < LENGTH_BYTES && x < Pow2(8 * j)
    ensures Pow2(8 * j) <= TWO32
    ensures BitOr(x + (TWO32 - Pow2(8 * j)), w * Pow2(8 * i) % TWO32) == x + (TWO32 - Pow2(8 * j))
  {
    hide Pow2, BitOr;
    ByteWeights();
    Shifted(w, i);
    var low := w % Pow2(32 - 8 * i);
    if j == 3 {
      OrAbsorbs(x, 0xff, low, 8, 24);
    } else if j == 2 {
      OrAbsorbs(x, 0xffff, if i == 2 then low else low * 256, 16, 16);
    } else {
      OrAbsorbs(x, 0xff_ffff, if i == 1 then low else if i == 2 then low * 256 else low * 65536, 24, 8);
    }
  }

  /** Once a sign is smeared, later bytes change nothing. */
  lemma {:induction false} SmearStays(s: seq<byte>, i: nat, j: nat, x: nat)
    requires |s| == LENGTH_BYTES && 1 <= j <= i <= LENGTH_BYTES && x < Pow2(8 * j) <= TWO32
    ensures ReadLE(true, s, i, x + (TWO32 - Pow2(8 * j))) == x + (TWO32 - Pow2(8 * j))
    decreases LENGTH_BYTES - i
  {
    if i < LENGTH_BYTES {
      hide Pow2, BitOr;
      SmearAbsorbs(Widen(true, s[i]), i, j, x);
      SmearStays(s, i + 1, j, x);
    }
  }

  lemma WidenLow(b: byte, q: nat)
    requires q == 256 || q == 65536 || q == 16777216 || q == TWO32
    ensures (TWO32 - 256 + b) % q == q - 256 + b
  {
  }

  lemma SmearProduct(b: nat, p: nat, q: nat)
    requires q >= 256
    ensures (q - 256 + b) * p == b * p + (p * q - 256 * p)
  {
  }

  lemma SmearStarts(b: byte, i: nat, v: nat)
    requires i < LENGTH_BYTES && v < Pow2(8 * i) && b >= 128
    ensures Pow2(8 * (i + 1)) <= TWO32 && v + b * Pow2(8 * i) < Pow2(8 * (i + 1))
    ensures BitOr(v, Widen(true, b) * Pow2(8 * i) % TWO32)
         == v + b * Pow2(8 * i) + (TWO32 - Pow2(8 * (i + 1)))
  {
    hide Pow2, BitOr;
    var p, q := Pow2(8 * i), Pow2(32 - 8 * i);
    ByteWeights();
    assert q == 256 || q == 65536 || q == 16777216 || q == TWO32;
    assert Pow2(8 * (i + 1)) == 256 * p && p * q == TWO32 by {
      Pow2Eight(8 * i);
      Pow2Sum(8 * i, 32 - 8 * i);
      assert 8 * (i + 1) == 8 * i + 8 && 8 * i + (32 - 8 * i) == 32;
    }
    WidenLow(b, q);
    SmearProduct(b, p, q);
    Shifted(Widen(true, b), i);
    OrDisjoint(v, q - 256 + b, 8 * i);
    BelowNext(b, v, p);
  }

  lemma PlainByte(b: byte, i: nat, v: nat)
    requires i < LENGTH_BYTES && v < Pow2(8 * i)
    ensures BitOr(v, b * Pow2(8 * i) % TWO32) == v + b * Pow2(8 * i) < Pow2(8 * (i + 1))
    ensures Pow2(8 * (i + 1)) == 256 * Pow2(8 * i)
  {
    hide Pow2, BitOr;
    Pow2Eight(8 * i);
    assert 8 * (i + 1) == 8 * i + 8;
    ByteWeights();
    Pow2Grows(8, 32 - 8 * i);
    Shifted(b, i);
    OrDisjoint(v, b, 8 * i);
    BelowNext(b, v, Pow2(8 * i));
  }

  lemma BelowNext(b: nat, v: nat, p: nat)
    requires b <= 255 && v < p
    ensures v + b * p < 256 * p
  {
    Weigh255(b, p);
  }

  lemma Weigh255(b: nat, p: nat)
    requires b <= 255
    ensures b * p <= 255 * p
  {
  }

  lemma SmearWeight(s: seq<byte>, i: nat)
    requires |s| == LENGTH_BYTES && i < LENGTH_BYTES && s[i] >= 128
    ensures Smeared(true, s, i) * Pow2(8 * i) == s[i] * Pow2(8 * i) + TWO32 - Pow2(8 * (i + 1))
  {
    hide Pow2;
    ByteWeights();
    assert i == 0 || i == 1 || i == 2 || i == 3;
  }

  lemma ByteAndRest(whole: nat, b: nat, more: nat, p: nat, q: nat)
    requires whole == b + 256 * more && q == 256 * p
    ensures whole * p == b * p + more * q
  {
    assert (b + 256 * more) * p == b * p + more * (256 * p);
  }

  /** One round of the loop. */
  lemma ReadLEStep(signedChar: bool, s: seq<byte>, i: nat, v: nat, next: nat)
    requires |s| == LENGTH_BYTES && i < LENGTH_BYTES
    requires BitOr(v, Widen(signedChar, s[i]) * Pow2(8 * i) % TWO32) == next
    ensures ReadLE(signedChar, s, i, v) == ReadLE(signedChar, s, i + 1, next)
  {
    hide Pow2, BitOr;
  }

  lemma SmearedPlain(signedChar: bool, s: seq<byte>, i: nat)
    requires |s| == LENGTH_BYTES && i < LENGTH_BYTES && !(signedChar && s[i] >= 128)
    ensures Smeared(signedChar, s, i) == s[i] + 256 * Smeared(signedChar, s, i + 1)
    ensures Widen(signedChar, s[i]) == s[i]
  {
  }

  lemma ReadSmear(s: seq<byte>, i: nat, v: nat)
    requires |s| == LENGTH_BYTES && i < LENGTH_BYTES && v < Pow2(8 * i) && s[i] >= 128
    ensures ReadLE(true, s, i, v) == v + Smeared(true, s, i) * Pow2(8 * i)
  {
    hide *;
    SmearStarts(s[i], i, v);
    var x := v + s[i] * Pow2(8 * i);
    ReadLEStep(true, s, i, v, x + (TWO32 - Pow2(8 * (i + 1))));
    SmearStays(s, i + 1, i + 1, x);
    SmearWeight(s, i);
  }

  lemma NothingLeft(signedChar: bool, s: seq<byte>, v: nat, p: nat)
    requires |s| == LENGTH_BYTES
    ensures ReadLE(signedChar, s, LENGTH_BYTES, v) == v + Smeared(signedChar, s, LENGTH_BYTES) * p
  {
  }

  lemma {:induction false} ReadLESmeared(signedChar: bool, s: seq<byte>, i: nat, v: nat)
    requires |s| == LENGTH_BYTES && i <= LENGTH_BYTES && v < Pow2(8 * i)
    ensures ReadLE(signedChar, s, i, v) == v + Smeared(signedChar, s, i) * Pow2(8 * i)
    decreases LENGTH_BYTES - i
  {
    hide *;
    if i == LENGTH_BYTES {
      NothingLeft(signedChar, s, v, Pow2(8 * i));
    } else if signedChar && s[i] >= 128 {
      ReadSmear(s, i, v);
    } else {
      var next := v + s[i] * Pow2(8 * i);
      SmearedPlain(signedChar, s, i);
      PlainByte(s[i], i, v);
      ReadLEStep(signedChar, s, i, v, next);
      ReadLESmeared(signedChar, s, i + 1, next);
      ByteAndRest(Smeared(signedChar, s, i), s[i], Smeared(signedChar, s, i + 1), Pow2(8 * i), Pow2(8 * (i + 1)));
    }
  }

  /** `readLEInt` reads the length that `writeLEInt` wrote exactly where no sign spoils it: always for
      an unsigned `char`. */
  lemma ReadLEExactly(signedChar: bool, s: seq<byte>)
    requires |s| == LENGTH_BYTES
    ensures ReadLE(signedChar, s, 0, 0) == FromLittleEndian(s) <==> LengthReadable(signedChar, s)
  {
    hide BitOr, ReadLE;
    ReadLESmeared(signedChar, s, 0, 0);
    assert Pow2(0) == 1;
    assert Smeared(signedChar, s, 4) == 0;
    var s3 := Smeared(signedChar, s, 3);
    assert s3 == s[3];
    var s2 := Smeared(signedChar, s, 2);
    var s1 := Smeared(signedChar, s, 1);
    var s0 := Smeared(signedChar, s, 0);
    assert LengthReadable(signedChar, s) <==> (signedChar ==>
      && (s[0] >= 128 ==> s[1] == 255 && s[2] == 255 && s[3] == 255)
      && (s[1] >= 128 ==> s[2] == 255 && s[3] == 255)
      && (s[2] >= 128 ==> s[3] == 255));
  }

  /** The round trip of a length through `writeLEInt` and `readLEInt`. */
  lemma LengthBack(signedChar: bool, n: nat)
    requires n < TWO32
    ensures ReadLE(signedChar, LittleEndian(n), 0, 0) == n <==> LengthReadable(signedChar, LittleEndian(n))
  {
    hide ReadLE;
    LittleEndianRoundTrip(n);
    ReadLEExactly(signedChar, LittleEndian(n));
  }

  /** A length of 200 bytes is misread where `char` is signed. */
  lemma LengthMisread()
    ensures ReadLE(true, LittleEndian(200), 0, 0) == 0xffff_ffc8
  {
    hide ReadLE, BitOr;
    assert LittleEndian(200) == [200, 0, 0, 0];
    ReadLESmeared(true, [200, 0, 0, 0], 0, 0);
    assert Smeared(true, [200, 0, 0, 0], 0) == 0xffff_ffc8 && Pow2(0) == 1;
  }
}

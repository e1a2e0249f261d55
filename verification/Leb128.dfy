/** The signed variable-length integers of the capture stream (signed LEB128,
    section 7.6 of DWARF version 4). */
module Leb128 {
  import opened RingIndex

  type int32 = x: int | -0x8000_0000 <= x < 0x8000_0000
  type int64 = x: int | -0x8000_0000_0000_0000 <= x < 0x8000_0000_0000_0000

  const MAXSIZE_PACK32 := 5
  const MAXSIZE_PACK64 := 10

  datatype Decoded = Truncated | Value(x: int, used: nat)

  /** The loop of the packer ends at the byte that carries the sign. */
  predicate IsLast(x: int) {
    (x / 128 == 0 && x % 128 < 64) || (x / 128 == -1 && x % 128 >= 64)
  }

  /** The bytes the packer emits for `x`. */
  function Encode(x: int): (s: seq<byte>)
    ensures |s| > 0
    decreases if x < 0 then -x else x
  {
    if IsLast(x) then [x % 128] else [x % 128 + 128] + Encode(x / 128)
  }

  /** The value of a last byte: seven bits, two's complement. */
  function SignedLow(b: byte): int {
    var v: int := b;
    if v < 64 then v else v - 128
  }

  /** Read one value from the front of a stream. */
  function Decode(s: seq<byte>): (d: Decoded)
    ensures d.Value? ==> 0 < d.used <= |s|
  {
    if s == [] then Truncated
    else if s[0] < 128 then Value(SignedLow(s[0]), 1)
    else
      match Decode(s[1..])
      case Truncated => Truncated
      case Value(v, n) => Value(s[0] - 128 + 128 * v, n + 1)
  }

  lemma EncodeSmall(x: int)
    requires 0 <= x < 64
    ensures Encode(x) == [x]
  {
  }

  /** Half of the range that `n` bytes can express: 2^(7n-1). */
  function Half(n: nat): (h: nat)
    requires n > 0
    ensures h >= 64
  {
    if n == 1 then 64 else 128 * Half(n - 1)
  }

  lemma Halves()
    ensures Half(4) == 0x800_0000 && Half(9) == 0x4000_0000_0000_0000
  {
    assert Half(4) == 128 * Half(3) && Half(3) == 128 * Half(2) && Half(2) == 128 * Half(1);
    assert Half(9) == 128 * Half(8) && Half(8) == 128 * Half(7) && Half(7) == 128 * Half(6);
    assert Half(6) == 128 * Half(5) && Half(5) == 128 * Half(4);
  }

  lemma {:induction false} DecodeEncode(x: int, rest: seq<byte>)
    ensures Decode(Encode(x) + rest) == Value(x, |Encode(x)|)
    decreases if x < 0 then -x else x
  {
    var s := Encode(x) + rest;
    if !IsLast(x) {
      assert s[1..] == Encode(x / 128) + rest;
      DecodeEncode(x / 128, rest);
    }
  }

  /** A truncated encoding is recognised as such: no encoding is a prefix of another. */
  lemma {:induction false} ProperPrefixTruncated(x: int, n: nat)
    requires n < |Encode(x)|
    ensures Decode(Encode(x)[..n]) == Truncated
    decreases n
  {
    if n > 0 {
      assert Encode(x)[..n][1..] == Encode(x / 128)[..n - 1];
      ProperPrefixTruncated(x / 128, n - 1);
    }
  }

  /** `n` bytes are enough exactly for the integers below 2^(7n-1) in magnitude. */
  lemma {:induction false} EncodeLength(x: int, n: nat)
    requires n > 0
    ensures |Encode(x)| <= n <==> 0 - Half(n) <= x < Half(n)
    decreases n
  {
    if n > 1 && !IsLast(x) {
      EncodeLength(x / 128, n - 1);
    }
  }

  lemma Pack32Length(x: int32)
    ensures |Encode(x)| <= MAXSIZE_PACK32
  {
    EncodeLength(x, 5);
    assert Half(5) == 128 * Half(4) && Half(4) == 128 * Half(3) && Half(3) == 128 * Half(2);
  }

  lemma Pack64Length(x: int64)
    ensures |Encode(x)| <= MAXSIZE_PACK64
  {
    EncodeLength(x, 10);
    assert Half(5) == 128 * Half(4) && Half(4) == 128 * Half(3) && Half(3) == 128 * Half(2);
    assert Half(10) == 128 * Half(9) && Half(9) == 128 * Half(8) && Half(8) == 128 * Half(7);
    assert Half(7) == 128 * Half(6) && Half(6) == 128 * Half(5);
  }

  /** Minimality: every byte string that means `x` is at least as long as `Encode(x)`, and one of
      the same length is the same string. */
  lemma {:induction false} EncodeMinimal(s: seq<byte>, x: int)
    requires Decode(s).Value? && Decode(s).x == x
    ensures |Encode(x)| <= Decode(s).used
    ensures |Encode(x)| == Decode(s).used ==> s[..Decode(s).used] == Encode(x)
  {
    if s[0] >= 128 {
      var v := Decode(s[1..]).x;
      assert x / 128 == v && x % 128 == s[0] - 128;
      EncodeMinimal(s[1..], v);
      if !IsLast(x) {
        var n := Decode(s).used;
        assert s[..n] == [s[0]] + s[1..][..n - 1];
      }
    } else {
      assert s[..1] == [s[0]];
    }
  }

  /** A run of packed values. */
  function EncodeAll(xs: seq<int>): (s: seq<byte>)
    ensures |s| >= |xs|
  {
    if xs == [] then [] else Encode(xs[0]) + EncodeAll(xs[1..])
  }

  datatype DecodedAll = Malformed | Values(xs: seq<int>)

  function DecodeAll(s: seq<byte>): DecodedAll {
    if s == [] then Values([])
    else
      match Decode(s)
      case Truncated => Malformed
      case Value(x, n) =>
        match DecodeAll(s[n..])
        case Malformed => Malformed
        case Values(xs) => Values([x] + xs)
  }

  lemma {:induction false} DecodeAllEncodeAll(xs: seq<int>)
    ensures DecodeAll(EncodeAll(xs)) == Values(xs)
  {
    if xs != [] {
      var rest := EncodeAll(xs[1..]);
      DecodeEncode(xs[0], rest);
      assert (Encode(xs[0]) + rest)[|Encode(xs[0])|..] == rest;
      DecodeAllEncodeAll(xs[1..]);
    }
  }

  lemma {:induction false} EncodeAllAppend(xs: seq<int>, ys: seq<int>)
    ensures EncodeAll(xs + ys) == EncodeAll(xs) + EncodeAll(ys)
  {
    if xs == [] {
      assert xs + ys == ys;
    } else {
      assert (xs + ys)[1..] == xs[1..] + ys;
      EncodeAllAppend(xs[1..], ys);
    }
  }

  /** One round of the packing loop takes one byte off what is left to emit. */
  lemma EncodeStep(whole: seq<byte>, done: seq<byte>, v: int)
    requires whole == done + Encode(v)
    ensures |done| < |whole|
    ensures IsLast(v) ==> whole == done + [v % 128]
    ensures !IsLast(v) ==> whole == done + [v % 128 + 128] + Encode(v / 128)
    ensures !IsLast(v) ==> (if v / 128 < 0 then -(v / 128) else v / 128) < (if v < 0 then -v else v)
  {
  }

  lemma LowByte(v: int)
    ensures 0 <= v % 128 < 128
  {
  }

  /** `Buffer::packInt` and `Buffer::packInt64`: pack `x` into a ring, round the end if need be.
      `at` is the stream position of the write cursor. */
  method Pack(buf: array<byte>, size: nat, writePos: nat, x: int, ghost at: nat) returns (pos: nat)
    requires IsPow2(size) && size > 0 && buf.Length == size && |Encode(x)| <= size
    requires Wrap(writePos, size) == Wrap(at, size)
    modifies buf
    ensures pos == Wrap(at + |Encode(x)|, size)
    ensures Holds(buf[..], at, Encode(x))
    ensures Untouched(old(buf[..]), buf[..], at, |Encode(x)|)
  {
    hide Holds, Untouched, Wrap, BitAnd, IsPow2, Encode;
    var packedBytes := 0;
    var more := true;
    var v := x;
    ghost var code := Encode(x);
    ghost var done: seq<byte> := [];
    HoldsNothing(buf[..], at, |code|);
    while more
      invariant packedBytes == |done|
      invariant code == if more then done + Encode(v) else done
      invariant Holds(buf[..], at, done)
      invariant Untouched(old(buf[..]), buf[..], at, |code|)
      decreases more, if v < 0 then -v else v
    {
      EncodeStep(code, done, v);
      LowByte(v);
      var b := v % 128;
      v := v / 128;
      if (v == 0 && b < 64) || (v == -1 && b >= 64) {
        more := false;
      } else {
        b := b + 128;
      }
      StoreByte(buf, size, writePos, packedBytes, b, old(buf[..]), at, done, |code|);
      packedBytes := packedBytes + 1;
      done := done + [b];
    }
    MaskedSlot(writePos, packedBytes, size, at);
    pos := BitAnd(writePos + packedBytes, size - 1);
  }
}

/** Positions in a power-of-two ring.

    The capture pipeline reduces every ring position with a bitwise mask,
    `pos & (size - 1)`.  The proofs follow unbounded stream positions instead; `Wrap`
    folds such a position into the ring, and `MaskIsWrap` says that the mask computes it. */
module RingIndex {

  type byte = x: int | 0 <= x < 256

  function Pow2(k: nat): (n: nat)
    ensures n > 0
  {
    if k == 0 then 1 else 2 * Pow2(k - 1)
  }

  ghost predicate IsPow2(n: int) {
    exists k: nat :: n == Pow2(k)
  }

  /** Bitwise conjunction, bit by bit from the low end. */
  function BitAnd(x: nat, y: nat): nat {
    if x == 0 || y == 0 then 0
    else (if x % 2 == 1 && y % 2 == 1 then 1 else 0) + 2 * BitAnd(x / 2, y / 2)
  }

  /** The ring slot of the stream position `p`. */
  ghost function Wrap(p: nat, size: nat): (i: nat)
    requires size > 0
    ensures i < size && i <= p
    ensures p < size ==> i == p
  {
    if p < size then p else Wrap(p - size, size)
  }

  /** Masking with `size - 1` is `Wrap` for every power of two. */
  lemma {:induction false} MaskIsWrap(p: nat, size: nat)
    requires IsPow2(size)
    ensures size > 0 && BitAnd(p, size - 1) == Wrap(p, size)
  {
    var k: nat :| size == Pow2(k);
    MaskPow2(p, k);
  }

  lemma {:induction false} MaskPow2(p: nat, k: nat)
    ensures BitAnd(p, Pow2(k) - 1) == Wrap(p, Pow2(k))
    decreases p
  {
    if p >= Pow2(k) {
      MaskPow2(p - Pow2(k), k);
      MaskDropsHigh(p, k);
    } else {
      MaskKeepsLow(p, k);
    }
  }

  /** A mask of ones keeps the lowest bit. */
  lemma AndOnes(p: nat, m: nat)
    ensures BitAnd(p, 2 * m + 1) == p % 2 + 2 * BitAnd(p / 2, m)
  {
  }

  lemma AndZero(p: nat)
    ensures BitAnd(p, 0) == 0
  {
  }

  lemma {:induction false} MaskKeepsLow(p: nat, k: nat)
    requires p < Pow2(k)
    ensures BitAnd(p, Pow2(k) - 1) == p
  {
    hide BitAnd;
    if k > 0 {
      MaskKeepsLow(p / 2, k - 1);
      AndOnes(p, Pow2(k - 1) - 1);
    } else {
      AndZero(0);
    }
  }

  lemma {:induction false} MaskDropsHigh(p: nat, k: nat)
    requires p >= Pow2(k)
    ensures BitAnd(p, Pow2(k) - 1) == BitAnd(p - Pow2(k), Pow2(k) - 1)
  {
    hide BitAnd;
    if k > 0 {
      MaskDropsHigh(p / 2, k - 1);
      AndOnes(p, Pow2(k - 1) - 1);
      AndOnes(p - Pow2(k), Pow2(k - 1) - 1);
    } else {
      AndZero(p);
      AndZero(p - 1);
    }
  }

  /** Advancing a folded position and folding again is advancing the stream position. */
  lemma {:induction false} WrapAdvance(p: nat, n: nat, size: nat)
    requires size > 0
    ensures Wrap(Wrap(p, size) + n, size) == Wrap(p + n, size)
    decreases p
  {
    if p >= size {
      WrapAdvance(p - size, n, size);
    }
  }

  /** Two stream positions less than one ring apart never share a slot. */
  lemma {:induction false} WrapDistinct(p: nat, q: nat, size: nat)
    requires size > 0 && p < q < p + size
    ensures Wrap(p, size) != Wrap(q, size)
    decreases p
  {
    if p >= size {
      WrapDistinct(p - size, q - size, size);
    }
  }

  /** The signed cursor difference, corrected by one ring when negative, is the stream distance. */
  lemma {:induction false} WrapDistance(p: nat, q: nat, size: nat)
    requires size > 0 && p <= q < p + size
    ensures var d := Wrap(q, size) - Wrap(p, size);
            (if d < 0 then d + size else d) == q - p
    decreases p
  {
    if p >= size {
      WrapDistance(p - size, q - size, size);
    }
  }

  /** The ring holds `data` at the stream positions from `at` on. */
  ghost predicate Holds(ring: seq<byte>, at: nat, data: seq<byte>)
    requires |ring| > 0
  {
    forall k: nat :: at <= k < at + |data| ==> ring[Wrap(k, |ring|)] == data[k - at]
  }

  /** Writing `n` bytes at `at` changed no other slot of the ring. */
  ghost predicate Untouched(before: seq<byte>, after: seq<byte>, at: nat, n: nat)
    requires |before| > 0
  {
    && |after| == |before|
    && forall k: nat :: at + n <= k < at + |before|
         ==> after[Wrap(k, |before|)] == before[Wrap(k, |before|)]
  }

  lemma HoldsNothing(ring: seq<byte>, at: nat, n: nat)
    requires |ring| > 0
    ensures Holds(ring, at, []) && Untouched(ring, ring, at, n)
  {
  }

  /** One more byte stored at the end of the data written so far. */
  lemma StoreNext(first: seq<byte>, ring: seq<byte>, at: nat, data: seq<byte>, n: nat, b: byte)
    requires |first| > 0 && |data| < n <= |first|
    requires Untouched(first, ring, at, n) && Holds(ring, at, data)
    ensures var next := ring[Wrap(at + |data|, |ring|) := b];
            Untouched(first, next, at, n) && Holds(next, at, data + [b])
  {
    var q := at + |data|;
    forall k: nat | k < q < k + |ring|
      ensures Wrap(k, |ring|) != Wrap(q, |ring|)
    {
      WrapDistinct(k, q, |ring|);
    }
    forall k: nat | q < k < q + |ring|
      ensures Wrap(k, |ring|) != Wrap(q, |ring|)
    {
      WrapDistinct(q, k, |ring|);
    }
  }

  /** What the ring held before the write position, less than one ring back, it still holds. */
  lemma HoldsBehind(before: seq<byte>, after: seq<byte>, at: nat, n: nat, lo: nat, data: seq<byte>)
    requires |before| > 0 && Untouched(before, after, at, n) && Holds(before, lo, data)
    requires lo + |data| <= at && at + n <= lo + |before|
    ensures Holds(after, lo, data)
  {
    forall k: nat | lo <= k < lo + |data|
      ensures after[Wrap(k, |before|)] == before[Wrap(k, |before|)]
    {
      assert Wrap(k + |before|, |before|) == Wrap(k, |before|);
    }
  }

  /** The same for what it held ahead of the bytes written. */
  lemma HoldsAhead(before: seq<byte>, after: seq<byte>, at: nat, n: nat, lo: nat, data: seq<byte>)
    requires |before| > 0 && Untouched(before, after, at, n) && Holds(before, lo, data)
    requires at + n <= lo && lo + |data| <= at + |before|
    ensures Holds(after, lo, data)
  {
  }

  /** Two writes within the same stretch. */
  lemma UntouchedTrans(a: seq<byte>, b: seq<byte>, c: seq<byte>, at: nat, n: nat, at': nat, n': nat, total: nat)
    requires |a| > 0 && Untouched(a, b, at, n) && Untouched(b, c, at', n')
    requires at <= at' && n <= total && at' + n' <= at + total && total <= |a|
    ensures Untouched(a, c, at, total)
  {
  }

  /** Adjacent pieces make one. */
  lemma HoldsJoin(ring: seq<byte>, at: nat, a: seq<byte>, b: seq<byte>)
    requires |ring| > 0
    requires Holds(ring, at, a) && Holds(ring, at + |a|, b)
    ensures Holds(ring, at, a + b)
  {
  }

  /** ... and one splits into adjacent pieces. */
  lemma HoldsSplit(ring: seq<byte>, at: nat, a: seq<byte>, b: seq<byte>)
    requires |ring| > 0
    requires Holds(ring, at, a + b)
    ensures Holds(ring, at, a) && Holds(ring, at + |a|, b)
  {
    forall k: nat | at <= k < at + |a|
      ensures ring[Wrap(k, |ring|)] == a[k - at]
    {
      assert (a + b)[k - at] == a[k - at];
    }
    forall k: nat | at + |a| <= k < at + |a| + |b|
      ensures ring[Wrap(k, |ring|)] == b[k - (at + |a|)]
    {
      assert (a + b)[k - at] == b[k - (at + |a|)];
    }
  }

  /** Store one byte at a masked position. */
  method StoreByte(buf: array<byte>, size: nat, writePos: nat, offset: nat, b: byte,
                   ghost first: seq<byte>, ghost at: nat, ghost data: seq<byte>, ghost n: nat)
    requires IsPow2(size) && size > 0 && buf.Length == size == |first|
    requires Wrap(writePos, size) == Wrap(at, size) && offset == |data| < n <= size
    requires Untouched(first, buf[..], at, n) && Holds(buf[..], at, data)
    modifies buf
    ensures Untouched(first, buf[..], at, n) && Holds(buf[..], at, data + [b])
  {
    MaskedSlot(writePos, offset, size, at);
    StoreNext(first, buf[..], at, data, n, b);
    var slot := BitAnd(writePos + offset, size - 1);
    ghost var next := buf[..][slot := b];
    buf[slot] := b;
    assert buf[..] == next;
  }

  lemma MaskedSlot(writePos: nat, offset: nat, size: nat, at: nat)
    requires IsPow2(size) && size > 0 && Wrap(writePos, size) == Wrap(at, size)
    ensures BitAnd(writePos + offset, size - 1) == Wrap(at + offset, size)
  {
    MaskIsWrap(writePos + offset, size);
    WrapAdvance(writePos, offset, size);
    WrapAdvance(at, offset, size);
  }
}

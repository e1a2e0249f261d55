/** Forwarding of the kernel's symbol table: a fixed buffer is filled by reads of any length, whole lines
    are sent, and the rest is moved to the front. */
module Kallsyms {
  import opened RingIndex
  import opened Sequences

  const BUF_SIZE := 0x1000
  const NEWLINE: byte := 10

  /** Whole lines. */
  predicate ChunkOk(c: seq<byte>) { c != [] && c[|c| - 1] == NEWLINE }

  /** The string that starts a buffer: up to the first NUL. */
  function CString(s: seq<byte>): seq<byte> {
    if s == [] || s[0] == 0 then [] else [s[0]] + CString(s[1..])
  }

  lemma {:induction false} CStringIs(a: seq<byte>, rest: seq<byte>)
    requires 0 !in a
    ensures CString(a + [0] + rest) == a
  {
    if a == [] {
      assert (a + [0] + rest)[0] == 0;
    } else {
      CStringIs(a[1..], rest);
      assert (a + [0] + rest)[1..] == a[1..] + [0] + rest;
    }
  }

  /** How the loop ended; the last three raise an exception. */
  datatype Outcome = Finished | Stopped | NoSpace | NotEmptyAtEof | Overlap

  /** Everything read is either sent or still in front of the buffer. */
  ghost predicate Accounted(chunks: seq<seq<byte>>, buf: seq<byte>, pos: nat, read: seq<byte>)
  {
    && pos <= |buf| && Concat(chunks) + buf[..pos] == read
    && forall c :: c in chunks ==> ChunkOk(c)
  }

  /** The index of the last newline before `pos`, or -1. */
  method LastNewline(buf: array<byte>, pos: nat) returns (newline: int)
    requires pos <= buf.Length
    ensures -1 <= newline < pos
    ensures newline >= 0 ==> buf[newline] == NEWLINE
    ensures forall k :: newline < k < pos ==> buf[k] != NEWLINE
  {
    newline := pos - 1;
    while newline >= 0
      invariant -1 <= newline < pos && forall k :: newline < k < pos ==> buf[k] != NEWLINE
    {
      if buf[newline] == NEWLINE {
        return;
      }
      newline := newline - 1;
    }
  }

  /** Send the lines up to `newline` and move the rest to the front in place: the saved byte first, then
      the others by a copy that must not overlap. */
  method SendLines(buf: array<byte>, pos: nat, newline: nat) returns (chunk: seq<byte>, ok: bool, left: nat)
    requires buf.Length == BUF_SIZE && newline < pos < BUF_SIZE && 0 !in buf[..pos]
    modifies buf
    ensures chunk == old(buf[..newline + 1])
    ensures ok <==> pos - newline < newline + 1
    ensures ok ==> left == pos - (newline + 1) && buf[..left] == old(buf[newline + 1..pos])
  {
    ghost var before := buf[..];
    var was := buf[newline + 1];
    buf[newline + 1] := 0;
    chunk := CString(buf[..]);
    assert buf[..] == before[..newline + 1] + [0] + before[newline + 2..];
    assert forall b :: b in before[..newline + 1] ==> b in before[..pos];
    CStringIs(before[..newline + 1], before[newline + 2..]);
    buf[0] := was;
    left := pos - (newline + 1);
    if pos - newline >= newline + 1 {
      return chunk, false, left;
    }
    if pos - newline - 2 > 0 {
      MoveDown(buf, newline + 2, left - 1);
    }
    ok := true;
    assert left > 0 ==> buf[0] == before[newline + 1];
    forall i | 0 <= i < left
      ensures buf[i] == before[newline + 1 + i]
    {
    }
  }

  /** The same, with the books. */
  method Forward(buf: array<byte>, pos: nat, newline: nat, ghost chunks: seq<seq<byte>>, ghost read: seq<byte>)
    returns (chunk: seq<byte>, ok: bool, left: nat)
    requires buf.Length == BUF_SIZE && newline < pos < BUF_SIZE && 0 !in buf[..pos] && buf[newline] == NEWLINE
    requires Accounted(chunks, buf[..], pos, read) && forall k :: newline < k < pos ==> buf[k] != NEWLINE
    modifies buf
    ensures ok ==> left <= buf.Length && NEWLINE !in buf[..left]
    ensures forall c :: c in chunks + [chunk] ==> ChunkOk(c)
    ensures ok <==> pos - newline < newline + 1
    ensures ok ==> left == pos - (newline + 1) && Accounted(chunks + [chunk], buf[..], left, read)
  {
    hide Concat, CString;
    ghost var held, rest := buf[..pos], buf[newline + 1..pos];
    assert NEWLINE !in rest;
    assert held == buf[..newline + 1] + rest;
    chunk, ok, left := SendLines(buf, pos, newline);
    ConcatSnoc(chunks, chunk);
    assert Concat(chunks) + (chunk + rest) == Concat(chunks) + chunk + rest;
    assert ok ==> buf[..][..left] == rest;
  }

  lemma AccountedIs(chunks: seq<seq<byte>>, buf: seq<byte>, pos: nat, read: seq<byte>)
    requires Accounted(chunks, buf, pos, read)
    ensures pos <= |buf| && Concat(chunks) + buf[..pos] == read
    ensures pos == 0 ==> Concat(chunks) == read
    ensures forall c :: c in chunks ==> ChunkOk(c)
  {
  }

  /** `memcpy(buf + 1, buf + from, n)` of disjoint regions. */
  method MoveDown(buf: array<byte>, from: nat, n: nat)
    requires 1 + n <= from && from + n <= buf.Length
    modifies buf
    ensures buf[0] == old(buf[0])
    ensures forall i :: 1 <= i < 1 + n ==> buf[i] == old(buf[from + i - 1])
  {
    var i := 0;
    while i < n
      invariant 0 <= i <= n && buf[0] == old(buf[0])
      invariant forall k :: 1 <= k < 1 + i ==> buf[k] == old(buf[from + k - 1])
      invariant forall k :: from <= k < buf.Length ==> buf[k] == old(buf[k])
    {
      buf[1 + i] := buf[from + i];
      i := i + 1;
    }
  }

  /** The loop of `readKallsyms`.  `input` is the file, `sizes` how much each read returns at most; the
      loop stops when the session does, here when no more reads are given. */
  method ReadKallsyms(input: seq<byte>, sizes: seq<nat>)
    returns (chunks: seq<seq<byte>>, outcome: Outcome, ghost carried: seq<byte>, ghost taken: nat)
    requires 0 !in input
    ensures taken <= |input|
    ensures forall c :: c in chunks ==> ChunkOk(c)
    ensures outcome != Overlap ==> Concat(chunks) + carried == input[..taken] && NEWLINE !in carried
    ensures outcome == Finished ==> Concat(chunks) == input
    ensures Lines(input) && FullReads(sizes) ==> outcome == Finished || outcome == Stopped
  {
    var buf := new byte[BUF_SIZE];
    var pos, offset, turn := 0, 0, 0;
    chunks := [];
    carried, taken := [], 0;
    assert Accounted([], buf[..], 0, input[..0]);
    hide Accounted, Concat, ChunkOk, CString, Lines;
    AccountedIs(chunks, buf[..], pos, input[..0]);
    ghost var calm := Lines(input) && FullReads(sizes);
    while turn < |sizes|
      invariant 0 <= turn <= |sizes| && 0 <= pos < BUF_SIZE && 0 <= offset <= |input|
      invariant Accounted(chunks, buf[..], pos, input[..offset])
      invariant taken == offset && carried == buf[..pos] && NEWLINE !in carried
      invariant calm ==> pos < BUF_SIZE / 2
    {
      AccountedIs(chunks, buf[..], pos, input[..offset]);
      if BUF_SIZE - pos - 1 == 0 {
        return chunks, NoSpace, carried, taken;
      }
      assert calm ==> sizes[turn] >= BUF_SIZE;
      var bytes := Least(if sizes[turn] == 0 then 1 else sizes[turn], BUF_SIZE - pos - 1, |input| - offset);
      if bytes == 0 {
        if pos != 0 {
          if calm {
            assert input[..offset] == input[..|input|];
            NothingCarried(input, chunks, buf[..], pos);
          }
          return chunks, NotEmptyAtEof, carried, taken;
        }
        assert input[..offset] == input;
        return chunks, Finished, carried, taken;
      }
      Fill(buf, pos, input[offset..offset + bytes], chunks, input[..offset]);
      assert input[..offset] + input[offset..offset + bytes] == input[..offset + bytes];
      pos, offset := pos + bytes, offset + bytes;
      var sent, ok, left := SendAll(buf, pos, chunks, input, offset, calm);
      chunks, pos, taken := chunks + sent, left, offset;
      if !ok {
        return chunks, Overlap, carried, taken;
      }
      taken, carried := offset, buf[..pos];
      turn := turn + 1;
    }
    AccountedIs(chunks, buf[..], pos, input[..offset]);
    outcome := Stopped;
  }

  /** What follows a read: send the whole lines, if there are any, and keep the rest. */
  method SendAll(buf: array<byte>, pos: nat, ghost chunks: seq<seq<byte>>, ghost input: seq<byte>, ghost offset: nat,
                 ghost calm: bool)
    returns (sent: seq<seq<byte>>, ok: bool, left: nat)
    requires buf.Length == BUF_SIZE && 0 < pos < BUF_SIZE && offset <= |input| && 0 !in input
    requires Accounted(chunks, buf[..], pos, input[..offset])
    requires calm ==> Lines(input) && (pos == BUF_SIZE - 1 || offset == |input|)
    modifies buf
    ensures forall c :: c in chunks + sent ==> ChunkOk(c)
    ensures ok ==> left <= pos && Accounted(chunks + sent, buf[..], left, input[..offset]) && NEWLINE !in buf[..left]
    ensures calm ==> ok && left < BUF_SIZE / 2
  {
    hide Accounted, Concat, ChunkOk, CString, Lines;
    AccountedIs(chunks, buf[..], pos, input[..offset]);
    NulFree(chunks, buf[..], pos, input, offset);
    var newline := LastNewline(buf, pos);
    if calm { NewlineFarUp(input, offset, chunks, buf[..], pos, newline); }
    if newline < 0 {
      assert chunks + [] == chunks;
      return [], true, pos;
    }
    var chunk;
    chunk, ok, left := Forward(buf, pos, newline, chunks, input[..offset]);
    sent := [chunk];
  }

  /** The last line is complete, no line is empty, and every line has fewer than half the buffer's bytes. */
  ghost predicate Lines(input: seq<byte>) {
    && (input != [] ==> input[|input| - 1] == NEWLINE)
    && (forall i :: 0 <= i < |input| && input[i] == NEWLINE ==> i > 0 && input[i - 1] != NEWLINE)
    && forall i :: 0 <= i && i + LONGEST <= |input| ==> LineEnds(input, i)
  }

  const LONGEST := BUF_SIZE / 2 - 1

  /** A line ends within the `LONGEST` bytes from `i` on. */
  ghost predicate LineEnds(input: seq<byte>, i: nat) {
    exists k :: i <= k < i + LONGEST && k < |input| && input[k] == NEWLINE
  }

  /** Every read returns as much as there is room for, or all that is left. */
  predicate FullReads(sizes: seq<nat>) { forall i :: 0 <= i < |sizes| ==> sizes[i] >= BUF_SIZE }

  /** The buffer holds the last bytes read. */
  lemma HeldIs(input: seq<byte>, offset: nat, chunks: seq<seq<byte>>, buf: seq<byte>, pos: nat)
    requires offset <= |input| && Accounted(chunks, buf, pos, input[..offset])
    ensures pos <= offset && forall i :: 0 <= i < pos ==> buf[i] == input[offset - pos + i]
    ensures pos < offset ==> input[offset - pos - 1] == NEWLINE
  {
    var n := |Concat(chunks)|;
    assert |Concat(chunks) + buf[..pos]| == n + pos == offset;
    forall i | 0 <= i < pos
      ensures buf[i] == input[offset - pos + i]
    {
      assert (Concat(chunks) + buf[..pos])[n + i] == buf[i];
      assert input[..offset][n + i] == input[n + i];
    }
    if chunks != [] {
      var last := chunks[|chunks| - 1];
      assert last in chunks && ChunkOk(last);
      assert Concat(chunks)[n - 1] == NEWLINE;
      assert (Concat(chunks) + buf[..pos])[n - 1] == input[..offset][n - 1] == input[n - 1];
    }
  }

  lemma NothingCarried(input: seq<byte>, chunks: seq<seq<byte>>, buf: seq<byte>, pos: nat)
    requires Lines(input) && Accounted(chunks, buf, pos, input[..|input|]) && pos > 0
    ensures pos <= |buf| && NEWLINE in buf[..pos]
  {
    HeldIs(input, |input|, chunks, buf, pos);
    assert buf[..pos][pos - 1] == input[|input| - 1];
  }

  /** With regular lines and full reads the last newline lies in the upper half of what is held, or at
      its end. */
  lemma NewlineFarUp(input: seq<byte>, offset: nat, chunks: seq<seq<byte>>, buf: seq<byte>, pos: nat, newline: int)
    requires offset <= |input| && Lines(input) && Accounted(chunks, buf, pos, input[..offset]) && 0 < pos < BUF_SIZE
    requires pos == BUF_SIZE - 1 || offset == |input|
    requires pos <= |buf| && -1 <= newline < pos && (forall k :: newline < k < pos ==> buf[k] != NEWLINE)
    ensures newline > 0 && pos - newline < newline + 1 && pos - (newline + 1) < BUF_SIZE / 2
  {
    hide Accounted;
    HeldIs(input, offset, chunks, buf, pos);
    var start := offset - pos;
    if offset == |input| {
      assert buf[pos - 1] == input[offset - 1] == NEWLINE;
      assert newline == pos - 1;
    } else {
      assert LineEnds(input, offset - LONGEST);
      var k :| offset - LONGEST <= k < offset && input[k] == NEWLINE;
      assert buf[k - start] == NEWLINE;
    }
  }

  function Least(a: nat, b: nat, c: nat): (n: nat)
    ensures n <= a && n <= b && n <= c && (n == a || n == b || n == c)
  {
    if a <= b && a <= c then a else if b <= c then b else c
  }

  /** What is held in the buffer comes from the input. */
  lemma NulFree(chunks: seq<seq<byte>>, buf: seq<byte>, pos: nat, input: seq<byte>, offset: nat)
    requires offset <= |input| && 0 !in input && Accounted(chunks, buf, pos, input[..offset])
    ensures 0 !in buf[..pos]
  {
    var n := |Concat(chunks)|;
    forall i | 0 <= i < pos
      ensures buf[..pos][i] != 0
    {
      assert (Concat(chunks) + buf[..pos])[n + i] == buf[..pos][i];
      assert input[..offset][n + i] == input[n + i];
    }
  }

  /** One read into the free part of the buffer. */
  method Fill(buf: array<byte>, pos: nat, data: seq<byte>, ghost chunks: seq<seq<byte>>, ghost read: seq<byte>)
    requires pos + |data| <= buf.Length && Accounted(chunks, buf[..], pos, read)
    modifies buf
    ensures Accounted(chunks, buf[..], pos + |data|, read + data)
  {
    ghost var before := buf[..];
    var i := 0;
    while i < |data|
      invariant 0 <= i <= |data|
      invariant buf[..pos + i] == before[..pos] + data[..i]
    {
      buf[pos + i] := data[i];
      i := i + 1;
    }
    assert data[..i] == data;
    assert Concat(chunks) + (before[..pos] + data) == Concat(chunks) + before[..pos] + data;
  }
}

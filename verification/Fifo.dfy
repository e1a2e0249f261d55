/** The daemon's FIFO between the driver's collector and the sender: one allocation with a ragged end
    past the wrap threshold, and a reader that first reads and later releases. */
module FifoModel {
  import opened RingIndex
  import opened Sequences

  /** `wrap` is the wrap threshold, `single` the most that one write may publish. */
  datatype Size = Size(single: nat, wrap: nat)

  predicate SizeOk(z: Size) { 0 < z.single < z.wrap }

  datatype Cursors = Cursors(write: nat, read: nat, readCommit: nat, ragged: nat, end: bool)

  function Start(): Cursors { Cursors(0, 0, 0, 0, false) }

  function NumBytesFilled(k: Cursors): int { k.write - k.read + k.ragged }

  predicate IsEmpty(k: Cursors) { k.read == k.write && k.ragged == 0 }

  predicate WillFill(z: Size, k: Cursors, additional: int) {
    if k.write > k.read then NumBytesFilled(k) + additional >= z.wrap
    else NumBytesFilled(k) + additional >= z.wrap - z.single
  }

  predicate IsFull(z: Size, k: Cursors) { WillFill(z, k, 0) }

  /** The cursor updates of `write`, before it waits for space. */
  function Write(z: Size, k: Cursors, length: int): Cursors {
    var n := if length <= 0 then 0 else length;
    var k1 := k.(end := k.end || length <= 0, write := k.write + n);
    if k1.write >= z.wrap then k1.(ragged := k1.write, write := 0) else k1
  }

  /** The cursor update of `read`, when there is something to read or the stream has ended. */
  function Read(k: Cursors): Cursors {
    k.(readCommit := if k.ragged != 0 then k.ragged else k.write)
  }

  function Release(z: Size, k: Cursors): Cursors {
    var k1 := k.(read := k.readCommit);
    if k1.read >= z.wrap then k1.(ragged := 0, read := 0, readCommit := 0) else k1
  }

  /** The writer is either free to fill the next `single` bytes, or waiting inside `write`. */
  predicate CursorsOk(z: Size, k: Cursors, free: bool) {
    && SizeOk(z) && k.write < z.wrap && k.read < z.wrap
    && if k.ragged == 0 then k.read <= k.readCommit <= k.write
       else
         && z.wrap <= k.ragged < z.wrap + z.single
         && k.read <= k.readCommit && (k.readCommit < z.wrap || k.readCommit == k.ragged)
         && k.write <= k.read
         && (free ==> k.write + z.single < k.read)
  }

  /** The bytes published and not yet released, in order. */
  function Unread(k: Cursors, buf: seq<byte>): seq<byte>
    requires k.write <= |buf| && k.read <= |buf| && k.ragged <= |buf|
    requires if k.ragged == 0 then k.read <= k.write else k.read <= k.ragged
  {
    if k.ragged == 0 then buf[k.read..k.write] else buf[k.read..k.ragged] + buf[..k.write]
  }

  /** Everything the writer published, and everything the reader released. */
  datatype State = State(k: Cursors, free: bool, written: seq<byte>, consumed: seq<byte>)

  ghost predicate Inv(z: Size, s: State, buf: seq<byte>) {
    && CursorsOk(z, s.k, s.free)
    && |buf| == z.wrap + z.single
    && s.written == s.consumed + Unread(s.k, buf)
  }

  datatype Step =
    | Fill(data: seq<byte>)
    | Publish(length: int)
    | Grant
    | Take
    | Free

  predicate Enabled(z: Size, s: State, step: Step) {
    match step
    case Fill(data) => s.free && |data| <= z.single
    case Publish(length) => s.free && length <= z.single
    case Grant => !s.free && !IsFull(z, s.k)
    case Take => !IsEmpty(s.k) || s.k.end
    case Free => true
  }

  /** The bytes between the read cursor and the reader's commit, at most up to `|buf|`. */
  function Taken(k: Cursors, buf: seq<byte>): seq<byte>
    requires k.read <= k.readCommit <= |buf|
  {
    buf[k.read..k.readCommit]
  }

  ghost function Next(z: Size, s: State, buf: seq<byte>, step: Step): (State, seq<byte>)
    requires Inv(z, s, buf) && Enabled(z, s, step)
  {
    match step
    case Fill(data) => (s, buf[..s.k.write] + data + buf[s.k.write + |data|..])
    case Publish(length) =>
      var n := if length <= 0 then 0 else length;
      (s.(k := Write(z, s.k, length), free := false,
          written := s.written + buf[s.k.write..s.k.write + n]), buf)
    case Grant => (s.(free := true), buf)
    case Take => (s.(k := Read(s.k)), buf)
    case Free => (s.(k := Release(z, s.k), consumed := s.consumed + Taken(s.k, buf)), buf)
  }

  lemma FillInv(z: Size, s: State, buf: seq<byte>, data: seq<byte>)
    requires Inv(z, s, buf) && Enabled(z, s, Fill(data))
    ensures Inv(z, Next(z, s, buf, Fill(data)).0, Next(z, s, buf, Fill(data)).1)
  {
    var after, k := Next(z, s, buf, Fill(data)).1, s.k;
    if k.ragged == 0 {
      Aside(buf, k.write, data, k.read, k.write);
    } else {
      Aside(buf, k.write, data, k.read, k.ragged);
      Aside(buf, k.write, data, 0, k.write);
    }
    assert Unread(k, after) == Unread(k, buf);
  }

  /** Filling leaves what lies beside it. */
  lemma Aside(buf: seq<byte>, at: nat, data: seq<byte>, lo: nat, hi: nat)
    requires at + |data| <= |buf| && lo <= hi <= |buf| && (hi <= at || at + |data| <= lo)
    ensures (buf[..at] + data + buf[at + |data|..])[lo..hi] == buf[lo..hi]
  {
  }

  lemma PublishInv(z: Size, s: State, buf: seq<byte>, length: int)
    requires Inv(z, s, buf) && Enabled(z, s, Publish(length))
    ensures Inv(z, Next(z, s, buf, Publish(length)).0, buf)
  {
    var n := if length <= 0 then 0 else length;
    var more := buf[s.k.write..s.k.write + n];
    PublishUnread(z, s, buf, n);
    hide Unread;
    assert s.consumed + Unread(s.k, buf) + more == s.consumed + (Unread(s.k, buf) + more);
  }

  lemma PublishUnread(z: Size, s: State, buf: seq<byte>, n: nat)
    requires Inv(z, s, buf) && s.free && n <= z.single
    ensures CursorsOk(z, Write(z, s.k, n), false)
    ensures Unread(Write(z, s.k, n), buf) == Unread(s.k, buf) + buf[s.k.write..s.k.write + n]
  {
    hide Unread;
    if s.k.ragged != 0 {
      PublishAtFront(s.k, buf, n, s.k.end || n == 0);
    } else {
      PublishBehind(s.k, buf, n, s.k.end || n == 0);
    }
  }

  /** A write that lands before the ragged end is read after it. */
  lemma PublishAtFront(k: Cursors, buf: seq<byte>, n: nat, end: bool)
    requires k.ragged != 0 && k.read <= k.ragged <= |buf| && k.write + n <= |buf|
    ensures Unread(k.(end := end, write := k.write + n), buf) == Unread(k, buf) + buf[k.write..k.write + n]
  {
    Adjacent(buf, 0, k.write, k.write + n);
    var front, more := buf[..k.write], buf[k.write..k.write + n];
    var ragged := buf[k.read..k.ragged];
    assert ragged + (front + more) == ragged + front + more;
  }

  /** A write behind the unread bytes joins them, whether or not it starts a ragged end. */
  lemma PublishBehind(k: Cursors, buf: seq<byte>, n: nat, end: bool)
    requires k.ragged == 0 && k.read <= k.write <= k.write + n <= |buf|
    ensures Unread(k.(end := end, write := k.write + n), buf) == Unread(k, buf) + buf[k.write..k.write + n]
    ensures k.write + n > 0 ==>
      Unread(k.(end := end, ragged := k.write + n, write := 0), buf) == Unread(k, buf) + buf[k.write..k.write + n]
  {
    Adjacent(buf, k.read, k.write, k.write + n);
    assert buf[k.read..k.write + n] + buf[..0] == buf[k.read..k.write + n];
  }

  lemma Adjacent(buf: seq<byte>, a: nat, b: nat, c: nat)
    requires a <= b <= c <= |buf|
    ensures buf[a..c] == buf[a..b] + buf[b..c]
  {
  }

  /** Releasing takes exactly the bytes that were read off the unread ones. */
  lemma FreeUnread(z: Size, k: Cursors, buf: seq<byte>)
    requires CursorsOk(z, k, false) && |buf| == z.wrap + z.single
    ensures CursorsOk(z, Release(z, k), false)
    ensures Unread(k, buf) == Taken(k, buf) + Unread(Release(z, k), buf)
  {
    if k.ragged == 0 {
      Adjacent(buf, k.read, k.readCommit, k.write);
    } else if k.readCommit < z.wrap {
      Adjacent(buf, k.read, k.readCommit, k.ragged);
      var taken, rest, front := buf[k.read..k.readCommit], buf[k.readCommit..k.ragged], buf[..k.write];
      assert taken + rest + front == taken + (rest + front);
    }
  }

  lemma FreeInv(z: Size, s: State, buf: seq<byte>)
    requires Inv(z, s, buf)
    ensures Inv(z, Next(z, s, buf, Free).0, buf)
  {
    var k := Release(z, s.k);
    FreeUnread(z, s.k, buf);
    hide Unread, Taken;
    assert s.consumed + (Taken(s.k, buf) + Unread(k, buf)) == s.consumed + Taken(s.k, buf) + Unread(k, buf);
  }

  /** Every step of the writer and of the reader keeps the FIFO a queue. */
  lemma StepInv(z: Size, s: State, buf: seq<byte>, step: Step)
    requires Inv(z, s, buf) && Enabled(z, s, step)
    ensures var (s', buf') := Next(z, s, buf, step); Inv(z, s', buf')
  {
    match step {
      case Fill(data) => FillInv(z, s, buf, data);
      case Publish(length) => PublishInv(z, s, buf, length);
      case Grant =>
      case Take =>
      case Free => FreeInv(z, s, buf);
    }
  }

  /** What `read` hands out is the next unread data, never empty before the end of the stream; an
      empty read means that the stream has ended and everything was released. */
  lemma TakeExact(z: Size, s: State, buf: seq<byte>)
    requires Inv(z, s, buf) && Enabled(z, s, Take)
    ensures var k := Read(s.k);
      && k.read <= k.readCommit <= |buf|
      && s.consumed + Taken(k, buf) <= s.written
      && (Taken(k, buf) == [] <==> s.consumed == s.written)
      && (Taken(k, buf) == [] ==> k.end)
  {
    var k := Read(s.k);
    assert Taken(k, buf) <= Unread(s.k, buf);
  }

  /** A write of nothing ends the stream: once everything is released the reader gets an empty read, and not
      before. */
  lemma EndExact(z: Size, s: State, buf: seq<byte>, length: int)
    requires Inv(z, s, buf) && !s.k.end && Enabled(z, s, Publish(length))
    ensures var t := Next(z, s, buf, Publish(length)).0;
      Enabled(z, t, Take) <==> length <= 0 || t.consumed != t.written
  {
    PublishInv(z, s, buf, length);
    CountersExact(z, Next(z, s, buf, Publish(length)).0, buf);
  }

  /** `isEmpty` and `numBytesFilled` speak of the unread bytes. */
  lemma CountersExact(z: Size, s: State, buf: seq<byte>)
    requires Inv(z, s, buf)
    ensures NumBytesFilled(s.k) == |Unread(s.k, buf)| == |s.written| - |s.consumed|
    ensures IsEmpty(s.k) <==> s.consumed == s.written
  {
    assert IsEmpty(s.k) <==> Unread(s.k, buf) == [];
  }

  /** A writer that is let through may fill `single` bytes: they lie in the allocation and hold no
      unread byte. */
  lemma GrantedIsSafe(z: Size, s: State, buf: seq<byte>, i: nat)
    requires Inv(z, s, buf) && s.free && s.k.write <= i < s.k.write + z.single
    ensures i < |buf|
    ensures if s.k.ragged == 0 then !(s.k.read <= i < s.k.write)
            else !(s.k.read <= i < s.k.ragged) && !(i < s.k.write)
  {
  }

  /** Full means: the ragged end is in use and the unread bytes leave less than `single` before it. */
  lemma FullExact(z: Size, k: Cursors)
    requires CursorsOk(z, k, false)
    ensures IsFull(z, k) <==> k.ragged != 0 && k.read <= k.write + z.single + (k.ragged - z.wrap)
    ensures !IsFull(z, k) ==> CursorsOk(z, k, true)
  {
  }

  /** A full FIFO is no longer full once its reader has read and released; one more release is needed
      when the reader held an older read. */
  lemma FullDrains(z: Size, k: Cursors)
    requires CursorsOk(z, k, false) && IsFull(z, k)
    ensures !IsFull(z, Release(z, Read(k)))
    ensures !IsFull(z, Release(z, Read(Release(z, k))))
  {
  }

  /** The second release can be necessary. */
  lemma OneReleaseMayNotDo()
    ensures exists z, k :: StaysFull(z, k)
  {
    assert StaysFull(Size(4, 10), Cursors(0, 0, 2, 11, false));
  }

  /** Full before and after a release. */
  predicate StaysFull(z: Size, k: Cursors) {
    CursorsOk(z, k, false) && IsFull(z, k) && IsFull(z, Release(z, k))
  }

  /** `willFill(n)` promises to tell whether a write of `n` bytes will fill the FIFO.  It does so
      exactly outside two cases, both with the ragged end unused: a write that wraps while it
      underestimates, and a write into an empty FIFO that does not wrap while it overestimates. */
  lemma WillFillExact(z: Size, k: Cursors, n: nat)
    requires CursorsOk(z, k, true) && 0 < n <= z.single
    ensures (WillFill(z, k, n) <==> IsFull(z, Write(z, k, n))) <==>
      !(&& k.ragged == 0
        && if k.write > k.read
           then k.write + n >= z.wrap && z.wrap - z.single <= k.write - k.read + n < z.wrap
           else k.write + n < z.wrap && n >= z.wrap - z.single)
  {
  }

  /** A write that `willFill` answers `said` to although the opposite happens. */
  predicate Misjudged(z: Size, k: Cursors, n: nat, said: bool) {
    && CursorsOk(z, k, true) && 0 < n <= z.single
    && WillFill(z, k, n) == said && IsFull(z, Write(z, k, n)) != said
  }

  /** A write that `willFill` lets through and that then blocks. */
  lemma WillFillUnderestimates()
    ensures exists z, k, n :: Misjudged(z, k, n, false)
  {
    assert Misjudged(Size(4, 10), Cursors(8, 1, 1, 0, false), 2, false);
  }

  /** A write that `willFill` reports as filling although it leaves the FIFO open. */
  lemma WillFillOverestimates()
    ensures exists z, k, n :: Misjudged(z, k, n, true)
  {
    var z, k := Size(8, 10), Cursors(0, 0, 0, 0, false);
    assert CursorsOk(z, k, true);
    WillFillExact(z, k, 4);
    assert Misjudged(z, k, 4, true);
  }

  // ------------------------------------------------------------------ whole runs

  ghost predicate Legal(z: Size, s: State, buf: seq<byte>, steps: seq<Step>)
    requires Inv(z, s, buf)
    decreases |steps|
  {
    steps == [] ||
    (Enabled(z, s, steps[0]) &&
     (StepInv(z, s, buf, steps[0]);
      var (s', buf') := Next(z, s, buf, steps[0]);
      Legal(z, s', buf', steps[1..])))
  }

  ghost function Run(z: Size, s: State, buf: seq<byte>, steps: seq<Step>): (r: (State, seq<byte>))
    requires Inv(z, s, buf) && Legal(z, s, buf, steps)
    ensures Inv(z, r.0, r.1)
    decreases |steps|
  {
    if steps == [] then (s, buf)
    else
      StepInv(z, s, buf, steps[0]);
      var (s', buf') := Next(z, s, buf, steps[0]);
      Run(z, s', buf', steps[1..])
  }

  /** For every interleaving: the released bytes are a prefix of the published ones, and nothing else
      is between them than the unread bytes; a writer waiting for space is let through after at most
      two releases. */
  lemma RunIsQueue(z: Size, buf: seq<byte>, steps: seq<Step>)
    requires SizeOk(z) && |buf| == z.wrap + z.single
    requires Inv(z, State(Start(), true, [], []), buf) && Legal(z, State(Start(), true, [], []), buf, steps)
    ensures var (s, b) := Run(z, State(Start(), true, [], []), buf, steps);
      && s.consumed <= s.written
      && |s.written| - |s.consumed| == NumBytesFilled(s.k)
      && (IsFull(z, s.k) ==> !IsFull(z, Release(z, Read(Release(z, s.k)))))
  {
    hide Run, Legal;
    var (s, b) := Run(z, State(Start(), true, [], []), buf, steps);
    CountersExact(z, s, b);
    if IsFull(z, s.k) {
      FullDrains(z, s.k);
    }
  }

  // ------------------------------------------------------------------ the class

  lemma RoomToFill(z: Size, s: State, buf: seq<byte>)
    requires Inv(z, s, buf) && s.free
    ensures s.k.write + z.single <= |buf|
  {
  }

  class Fifo {
    const size: Size
    const buffer: array<byte>
    var mWrite: nat
    var mRead: nat
    var mReadCommit: nat
    var mRaggedEnd: nat
    var mEnd: bool
    ghost var st: State

    ghost predicate Valid()
      reads this, buffer
    {
      && Inv(size, st, buffer[..])
      && st.k == Cursors(mWrite, mRead, mReadCommit, mRaggedEnd, mEnd)
    }

    constructor (single: nat, wrap: nat)
      requires SizeOk(Size(single, wrap))
      ensures Valid() && fresh(buffer) && size == Size(single, wrap)
      ensures st == State(Start(), true, [], [])
    {
      size := Size(single, wrap);
      buffer := new byte[wrap + single];
      mWrite, mRead, mReadCommit, mRaggedEnd, mEnd := 0, 0, 0, 0, false;
      st := State(Start(), true, [], []);
    }

    /** The collector reads from the driver into the space it was granted. */
    method FillBuffer(data: seq<byte>)
      requires Valid() && Enabled(size, st, Fill(data))
      modifies buffer
      ensures Valid() && buffer[..] == Next(size, st, old(buffer[..]), Fill(data)).1
    {
      hide Inv;
      ghost var before := buffer[..];
      FillInv(size, st, before, data);
      RoomToFill(size, st, before);
      CopyInto(buffer, mWrite, data);
      assert buffer[..] == before[..mWrite] + data + before[mWrite + |data|..];
    }

    method IsFullNow() returns (r: bool)
      requires Valid()
      ensures r == IsFull(size, st.k)
    {
      var filled := mWrite - mRead + mRaggedEnd;
      r := if mWrite > mRead then filled >= size.wrap else filled >= size.wrap - size.single;
    }

    /** `write` up to its wait. */
    method PublishWrite(length: int)
      requires Valid() && Enabled(size, st, Publish(length))
      modifies this
      ensures Valid() && buffer[..] == old(buffer[..])
      ensures st == Next(size, old(st), old(buffer[..]), Publish(length)).0
    {
      ghost var before := buffer[..];
      PublishInv(size, st, before, length);
      ghost var next := Next(size, st, before, Publish(length)).0;
      var n := length;
      if length <= 0 {
        n := 0;
        mEnd := true;
      }
      mWrite := mWrite + n;
      if mWrite >= size.wrap {
        mRaggedEnd := mWrite;
        mWrite := 0;
      }
      st := next;
      assert buffer[..] == before;
    }

    /** One round of the wait in `write`; when it ends, `at` is the index handed to the caller. */
    method PollSpace() returns (granted: bool, at: nat)
      requires Valid() && !st.free
      modifies this`st
      ensures Valid() && buffer[..] == old(buffer[..])
      ensures granted == !IsFull(size, old(st.k))
      ensures st == (if granted then old(st).(free := true) else old(st))
      ensures granted ==> at == st.k.write && at + size.single <= buffer.Length
    {
      var full := IsFullNow();
      granted, at := !full, mWrite;
      FullExact(size, st.k);
      if granted {
        st := st.(free := true);
      }
    }

    /** `read`: nothing, or the start and length of the next unread bytes. */
    method ReadData() returns (some: bool, at: nat, length: int)
      requires Valid()
      modifies this`mReadCommit, this`st
      ensures Valid() && buffer[..] == old(buffer[..])
      ensures some == Enabled(size, old(st), Take)
      ensures st == if some then Next(size, old(st), old(buffer[..]), Take).0 else old(st)
      ensures some ==> 0 <= length && at + length <= buffer.Length
      ensures some ==> buffer[at..at + length] == Taken(st.k, buffer[..])
    {
      if mRead == mWrite && mRaggedEnd == 0 && !mEnd {
        return false, 0, 0;
      }
      mReadCommit := if mRaggedEnd != 0 then mRaggedEnd else mWrite;
      st := st.(k := Read(st.k));
      some, at, length := true, mRead, mReadCommit - mRead;
    }

    method ReleaseData()
      requires Valid()
      modifies this
      ensures Valid() && buffer[..] == old(buffer[..])
      ensures st == Next(size, old(st), old(buffer[..]), Free).0
    {
      ghost var before := buffer[..];
      FreeInv(size, st, before);
      ghost var next := Next(size, st, before, Free).0;
      mRead := mReadCommit;
      if mRead >= size.wrap {
        mRaggedEnd, mRead, mReadCommit := 0, 0, 0;
      }
      st := next;
      assert buffer[..] == before;
    }
  }
}

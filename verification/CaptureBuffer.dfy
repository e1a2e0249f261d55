/** The daemon's capture buffer: a power-of-two ring with read, commit and write cursors, whose frame
    lengths are filled in when a frame is committed.  Every method is proved against the protocol of
    `CaptureSpec`. */
module CaptureBuffer {
  import opened RingIndex
  import opened Leb128
  import opened Framing
  import opened Messages
  import opened CaptureSpec

  const FRAME_BLOCK_COUNTER := 5
  const FRAME_PERF_ATTRS := 11
  const FRAME_PERF := 12

  predicate HasCore(bufType: int32) {
    bufType == FRAME_BLOCK_COUNTER || bufType == FRAME_PERF_ATTRS || bufType == FRAME_PERF
  }

  function FrameHeader(bufType: int32, core: int32): seq<byte> {
    Encode(bufType) + (if HasCore(bufType) then Encode(core) else [])
  }

  /** A frame's type, and its core where it has one. */
  datatype Heading = NoHeading | Heading(kind: int, core: int) | Coreless(kind: int)

  /** The receiver's reading of a payload's header: block counters (5), perf attributes (11) and perf data
      (12) name their core. */
  function ReadHeading(payload: seq<byte>): Heading {
    match Decode(payload)
    case Truncated => NoHeading
    case Value(kind, n) =>
      if kind != 5 && kind != 11 && kind != 12 then Coreless(kind)
      else
        match Decode(payload[n..])
        case Truncated => NoHeading
        case Value(core, _) => Heading(kind, core)
  }

  lemma HeadingBack(bufType: int32, core: int32, rest: seq<byte>)
    ensures ReadHeading(FrameHeader(bufType, core) + rest) ==
      if bufType == 5 || bufType == 11 || bufType == 12 then Heading(bufType, core) else Coreless(bufType)
  {
    hide Encode, Decode;
    var a, b := Encode(bufType), Encode(core);
    if HasCore(bufType) {
      assert FrameHeader(bufType, core) + rest == a + (b + rest);
      DecodeEncode(bufType, b + rest);
      assert (a + (b + rest))[|a|..] == b + rest;
      DecodeEncode(core, rest);
    } else {
      assert FrameHeader(bufType, core) + rest == a + rest;
      DecodeEncode(bufType, rest);
    }
  }

  function TypeBytes(local: bool): (s: seq<byte>)
    ensures |s| == TypeLength(local)
  {
    if local then [] else [RESPONSE_APC_DATA]
  }

  /** What the ring must hold: the committed bytes not yet released, and the open frame around the
      hole left for its length. */
  ghost predicate RingOk(c: Config, s: State, ring: seq<byte>)
    requires |ring| > 0 && s.released <= Committed(c, s)
  {
    && Holds(ring, s.released, Wire(c.local, s.frames)[s.released..])
    && (s.open ==>
          && Holds(ring, Committed(c, s), TypeBytes(c.local))
          && Holds(ring, Committed(c, s) + Overhead(c), s.cur))
  }

  /** The fields of a buffer, as a value. */
  datatype Fields = Fields(
    readPos: nat, writePos: nat, commitPos: nat, available: bool, isDone: bool, commitTime: nat,
    snapshot: nat, sender: seq<byte>)

  /** The ring and the fields represent the state of the protocol. */
  ghost predicate Represents(c: Config, s: State, ring: seq<byte>, k: Fields) {
    && |ring| == c.size > 0
    && s.released <= Committed(c, s)
    && RingOk(c, s, ring)
    && k.readPos == Wrap(s.released, c.size)
    && k.commitPos == Wrap(Committed(c, s), c.size)
    && k.writePos == Wrap(Written(c, s), c.size)
    && k.available == s.available && k.isDone == s.done && k.commitTime == s.commitTime
    && k.sender == s.sent
    && (!s.reader.Idle? ==> k.snapshot == Wrap(s.reader.upto, c.size))
  }

  lemma RepresentsParts(c: Config, s: State, ring: seq<byte>, k: Fields)
    requires Represents(c, s, ring, k)
    ensures |ring| == c.size > 0 && s.released <= Committed(c, s) && RingOk(c, s, ring)
    ensures k.readPos == Wrap(s.released, c.size)
    ensures k.commitPos == Wrap(Committed(c, s), c.size) && k.writePos == Wrap(Written(c, s), c.size)
    ensures k.isDone == s.done && k.commitTime == s.commitTime && k.sender == s.sent
    ensures !s.reader.Idle? ==> k.snapshot == Wrap(s.reader.upto, c.size)
  {
    hide RingOk, Wrap, Wire;
  }

  lemma RingFromParts(c: Config, s: State, ring: seq<byte>)
    requires |ring| > 0 && s.released <= Committed(c, s)
    requires Holds(ring, s.released, Wire(c.local, s.frames)[s.released..])
    requires s.open ==> Holds(ring, Committed(c, s), TypeBytes(c.local))
    requires s.open ==> Holds(ring, Committed(c, s) + Overhead(c), s.cur)
    ensures RingOk(c, s, ring)
  {
  }

  /** The ring does not depend on the reader, the flags or the logs. */
  lemma RingSame(c: Config, s: State, t: State, ring: seq<byte>)
    requires |ring| > 0 && s.released <= Committed(c, s) && RingOk(c, s, ring)
    requires t.frames == s.frames && t.open == s.open && t.cur == s.cur && t.released == s.released
    ensures RingOk(c, t, ring)
  {
  }

  /** Releasing narrows the stretch that must be held. */
  lemma RingReleased(c: Config, s: State, ring: seq<byte>)
    requires |ring| > 0 && s.released <= Committed(c, s) && RingOk(c, s, ring)
    requires s.reader.Sent? && s.released <= s.reader.upto <= Committed(c, s)
    ensures RingOk(c, Next(c, s, Release), ring)
  {
    hide Holds, Wire;
    var wire := Wire(c.local, s.frames);
    var u := s.reader.upto;
    assert wire[s.released..] == wire[s.released..u] + wire[u..];
    HoldsSplit(ring, s.released, wire[s.released..u], wire[u..]);
  }

  /** The at most two contiguous pieces from the read cursor to the snapshot are the next committed
      bytes. */
  lemma SnapshotBytes(c: Config, s: State, ring: seq<byte>, length1: nat, length2: nat)
    requires |ring| == c.size && Inv(c, s) && RingOk(c, s, ring) && s.reader.Snapped?
    requires var lo, hi := Wrap(s.released, c.size), Wrap(s.reader.upto, c.size);
             if hi < lo then length1 == c.size - lo && length2 == hi else length1 == hi - lo && length2 == 0
    ensures Wrap(s.released, c.size) + length1 <= c.size
    ensures var lo := Wrap(s.released, c.size);
            Next(c, s, Send).sent == s.sent + ring[lo..lo + length1] + ring[..length2]
  {
    hide Holds, Wire, Wrap;
    InvBounds(c, s);
    var wire := Wire(c.local, s.frames);
    var u := s.reader.upto;
    TwoHalves(ring, s.released, wire[s.released..], u - s.released, length1, length2);
    assert wire[s.released..][..u - s.released] == wire[s.released..u];
  }

  /** A fresh buffer with its first frame started. */
  lemma InitRepresents(c: Config, ring: seq<byte>, k: Fields)
    requires ConfigOk(c) && |ring| == c.size
    requires Holds(ring, 0, TypeBytes(c.local)) && Holds(ring, Overhead(c), c.header)
    requires k == Fields(0, Wrap(Overhead(c) + |c.header|, c.size), 0, true, false, c.liveRate, 0, [])
    ensures Represents(c, Init(c), ring, k)
  {
    hide Holds;
    HoldsNothing(ring, 0, 0);
    assert Wire(c.local, []) == [];
  }

  lemma SentRepresents(c: Config, s: State, ring: seq<byte>, k: Fields, length1: nat, length2: nat)
    requires Inv(c, s) && Represents(c, s, ring, k) && s.reader.Snapped?
    requires if k.snapshot < k.readPos then length1 == c.size - k.readPos && length2 == k.snapshot
             else length1 == k.snapshot - k.readPos && length2 == 0
    ensures k.readPos + length1 <= c.size && length2 <= c.size
    ensures Represents(c, Next(c, s, Send), ring,
                       k.(sender := k.sender + ring[k.readPos..k.readPos + length1] + ring[..length2]))
  {
    hide Inv, RingOk, Wire, Wrap;
    InvBounds(c, s);
    SnapshotBytes(c, s, ring, length1, length2);
    RingSame(c, s, Next(c, s, Send), ring);
  }

  lemma ReleasedRepresents(c: Config, s: State, ring: seq<byte>, k: Fields)
    requires Inv(c, s) && Represents(c, s, ring, k) && s.reader.Sent?
    ensures Represents(c, Next(c, s, Release), ring, k.(readPos := k.snapshot))
  {
    hide Inv, RingOk, Wire, Wrap;
    InvBounds(c, s);
    RingReleased(c, s, ring);
  }

  /** After the length is filled in, the cursors moved and, unless done, a new frame started. */
  lemma CommittedRepresents(c: Config, s: State, t: State, ring: seq<byte>, k: Fields, k': Fields)
    requires Inv(c, t) && s.open && Represents(c, s, ring, k) && |ring| == c.size
    requires t.frames == s.frames + [s.cur] && t.released == s.released
    requires t == s.(frames := t.frames, commitTime := t.commitTime, open := t.open, cur := t.cur)
    requires k' == k.(commitPos := k.writePos, commitTime := t.commitTime, writePos := k'.writePos)
    requires k'.writePos == Wrap(Written(c, t), c.size)
    ensures |ring| > 0 && t.released <= Committed(c, t)
    ensures forall ring' :: |ring'| == c.size && RingOk(c, t, ring') ==> Represents(c, t, ring', k')
  {
    hide Inv, RingOk, Wire, Wrap;
    InvBounds(c, t);
    CommitExtends(c, s);
  }

  /** Writing message bytes at the write cursor keeps the ring in step with the protocol. */
  lemma AppendRing(c: Config, s: State, before: seq<byte>, after: seq<byte>, data: seq<byte>)
    requires |before| == |after| == c.size > 0 && s.open && s.released <= Committed(c, s)
    requires RingOk(c, s, before) && Filled(c, s) + |data| <= c.size
    requires Untouched(before, after, Written(c, s), |data|) && Holds(after, Written(c, s), data)
    ensures RingOk(c, Append(s, data), after)
  {
    hide Wire, Holds, Untouched;
    var at := Written(c, s);
    HoldsBehind(before, after, at, |data|, s.released, Wire(c.local, s.frames)[s.released..]);
    HoldsBehind(before, after, at, |data|, Committed(c, s), TypeBytes(c.local));
    HoldsBehind(before, after, at, |data|, Committed(c, s) + Overhead(c), s.cur);
    HoldsJoin(after, Committed(c, s) + Overhead(c), s.cur, data);
  }

  /** Filling in the length makes the open frame the next committed one. */
  lemma PatchRing(c: Config, s: State, before: seq<byte>, after: seq<byte>)
    requires |before| == |after| == c.size > 0 && s.open && s.released <= Committed(c, s)
    requires RingOk(c, s, before) && Filled(c, s) <= c.size
    requires var at := Committed(c, s) + TypeLength(c.local);
             Untouched(before, after, at, LENGTH_BYTES) && Holds(after, at, LittleEndian(|s.cur|))
    ensures Holds(after, s.released, Wire(c.local, s.frames + [s.cur])[s.released..])
  {
    hide Holds, Untouched, Wire, LittleEndian;
    var base := Committed(c, s);
    var at := base + TypeLength(c.local);
    var wire := Wire(c.local, s.frames);
    HoldsBehind(before, after, at, LENGTH_BYTES, s.released, wire[s.released..]);
    HoldsBehind(before, after, at, LENGTH_BYTES, base, TypeBytes(c.local));
    HoldsAhead(before, after, at, LENGTH_BYTES, base + Overhead(c), s.cur);
    HoldsJoin(after, base, TypeBytes(c.local), LittleEndian(|s.cur|));
    HoldsJoin(after, base, Prefix(c.local, |s.cur|), s.cur);
    HoldsJoin(after, s.released, wire[s.released..], Frame(c.local, s.cur));
    CommitExtends(c, s);
    assert (wire + Frame(c.local, s.cur))[s.released..] == wire[s.released..] + Frame(c.local, s.cur);
  }

  class Buffer {
    const size: nat
    const local: bool
    const bufType: int32
    const core: int32
    const liveRate: nat
    const buf: array<byte>
    var readPos: nat
    var writePos: nat
    var commitPos: nat
    var available: bool
    var isDone: bool
    var commitTime: nat
    /** Local variable of the reader's call of `write`: its snapshot of the commit cursor. */
    var snapshot: nat
    /** The bytes handed to the sender so far. */
    var sender: seq<byte>
    ghost var st: State

    ghost function Cfg(): Config {
      Config(size, local, FrameHeader(bufType, core), liveRate)
    }

    ghost function Now(): Fields
      reads this
    {
      Fields(readPos, writePos, commitPos, available, isDone, commitTime, snapshot, sender)
    }

    ghost predicate Located()
      reads this, buf
    {
      buf.Length == size && Represents(Cfg(), st, buf[..], Now())
    }

    ghost predicate Valid()
      reads this, buf
    {
      Inv(Cfg(), st) && Located()
    }

    constructor (core: int32, bufType: int32, size: nat, local: bool, liveRate: nat)
      requires ConfigOk(Config(size, local, FrameHeader(bufType, core), liveRate))
      ensures Valid() && fresh(buf) && st == Init(Cfg())
      ensures Cfg() == Config(size, local, FrameHeader(bufType, core), liveRate)
    {
      this.size, this.local, this.bufType, this.core, this.liveRate := size, local, bufType, core, liveRate;
      buf := new byte[size];
      readPos, writePos, commitPos, snapshot := 0, 0, 0, 0;
      available, isDone, commitTime, sender := true, false, liveRate, [];
      st := Init(Config(size, local, FrameHeader(bufType, core), liveRate));
      new;
      hide Inv, Represents, Holds, Untouched, ConfigOk;
      InitInv(Cfg());
      Frame(0);
      InitRepresents(Cfg(), buf[..], Now());
    }

    /** Start a frame: response type, room for the length, frame type and core. */
    method Frame(ghost at: nat)
      requires ConfigOk(Cfg()) && buf.Length == size && Wrap(writePos, size) == Wrap(at, size)
      modifies this`writePos, buf
      ensures Untouched(old(buf[..]), buf[..], at, Overhead(Cfg()) + |Cfg().header|)
      ensures writePos == Wrap(at + Overhead(Cfg()) + |Cfg().header|, size)
      ensures Holds(buf[..], at, TypeBytes(local))
      ensures Holds(buf[..], at + Overhead(Cfg()), Cfg().header)
    {
      hide Holds, Untouched, Wrap, IsPow2, Encode, ConfigOk;
      ghost var t := TypeLength(local);
      ghost var h := |Cfg().header|;
      ghost var mid := at + t + LENGTH_BYTES;
      ghost var first := buf[..];
      ConfigSizes(Cfg());
      PackType(at);
      ghost var typed := buf[..];
      PackHeader(mid);
      HoldsBehind(typed, buf[..], mid, h, at, TypeBytes(local));
      UntouchedTrans(first, typed, buf[..], at, t, mid, h, t + LENGTH_BYTES + h);
    }

    /** The response type, unless the capture is local, and the step over the length bytes. */
    method PackType(ghost at: nat)
      requires ConfigOk(Cfg()) && buf.Length == size && Wrap(writePos, size) == Wrap(at, size)
      modifies this`writePos, buf
      ensures Untouched(old(buf[..]), buf[..], at, TypeLength(local))
      ensures Wrap(writePos, size) == Wrap(at + TypeLength(local) + LENGTH_BYTES, size)
      ensures Holds(buf[..], at, TypeBytes(local))
    {
      hide Holds, Untouched, Wrap, IsPow2, Encode;
      HoldsNothing(buf[..], at, TypeLength(local));
      WrapAdvance(writePos, LENGTH_BYTES, size);
      WrapAdvance(at, LENGTH_BYTES, size);
      if !local {
        EncodeSmall(3);
        writePos := Pack(buf, size, writePos, 3, at);
        WrapAdvance(at + 1, LENGTH_BYTES, size);
      }
      writePos := writePos + LENGTH_BYTES;
    }

    method PackHeader(ghost at: nat)
      requires ConfigOk(Cfg()) && buf.Length == size && Wrap(writePos, size) == Wrap(at, size)
      modifies this`writePos, buf
      ensures Untouched(old(buf[..]), buf[..], at, |Cfg().header|)
      ensures writePos == Wrap(at + |Cfg().header|, size)
      ensures Holds(buf[..], at, Cfg().header)
    {
      hide Holds, Untouched, Wrap, IsPow2, Encode;
      ghost var a := Encode(bufType);
      ghost var first := buf[..];
      writePos := Pack(buf, size, writePos, bufType, at);
      if HasCore(bufType) {
        ghost var b := Encode(core);
        ghost var one := buf[..];
        WrapAdvance(at + |a|, 0, size);
        writePos := Pack(buf, size, writePos, core, at + |a|);
        UntouchedTrans(first, one, buf[..], at, |a|, at + |a|, |b|, |a| + |b|);
        HoldsBehind(one, buf[..], at + |a|, |b|, at, a);
        HoldsJoin(buf[..], at, a, b);
      } else {
        assert Cfg().header == a;
      }
    }

    method BytesAvailable() returns (remaining: int)
      requires Valid()
      ensures remaining == Space(Cfg(), st)
    {
      hide Inv, RingOk, Wire, Wrap;
      InvBounds(Cfg(), st);
      WrapDistance(st.released, Written(Cfg(), st), size);
      var filled := writePos - readPos;
      if filled < 0 {
        filled := filled + size;
      }
      remaining := size - filled;
      remaining := if available then remaining - ROOM else remaining - HYSTERESIS;
    }

    method CheckSpace(bytes: nat) returns (ok: bool)
      requires Valid()
      modifies this`available, this`st
      ensures Valid() && ok == (old(Space(Cfg(), st)) >= bytes)
      ensures st == old(st).(available := ok)
    {
      hide Holds, Wire, Wrap;
      var remaining := BytesAvailable();
      available := remaining >= bytes;
      st := st.(available := available);
      ok := available;
    }

    /** `packInt` and `packInt64` on the buffer itself. */
    method PackInt(x: int)
      requires Valid() && st.open
      requires RoomAfter(Cfg(), st, |Encode(x)|)
      modifies this`writePos, this`st, buf
      ensures Valid() && st == Append(old(st), Encode(x))
    {
      hide Inv, RingOk, Holds, Untouched, Wire, Wrap, Encode, IsPow2;
      ghost var c := Cfg();
      InvBounds(c, st);
      WrapAdvance(Written(c, st), 0, size);
      writePos := Pack(buf, size, writePos, x, Written(c, st));
      AppendRing(c, st, old(buf[..]), buf[..], Encode(x));
      AppendInv(c, st, Encode(x));
      st := Append(st, Encode(x));
    }

    method WriteBytes(data: seq<byte>)
      requires Valid() && st.open
      requires RoomAfter(Cfg(), st, |data|)
      modifies this`writePos, this`st, buf
      ensures Valid() && st == Append(old(st), data)
    {
      hide Inv, RingOk, Holds, Untouched, Wire, Wrap, IsPow2;
      ghost var c := Cfg();
      ghost var at := Written(c, st);
      InvBounds(c, st);
      WrapAdvance(at, 0, size);
      HoldsNothing(buf[..], at, |data|);
      var i := 0;
      while i < |data|
        invariant 0 <= i <= |data|
        invariant st == old(st) && writePos == old(writePos)
        invariant Untouched(old(buf[..]), buf[..], at, |data|) && Holds(buf[..], at, data[..i])
      {
        StoreByte(buf, size, writePos, i, data[i], old(buf[..]), at, data[..i], |data|);
        assert data[..i] + [data[i]] == data[..i + 1];
        i := i + 1;
      }
      assert data[..i] == data;
      MaskedSlot(writePos, i, size, at);
      writePos := BitAnd(writePos + i, size - 1);
      AppendRing(c, st, old(buf[..]), buf[..], data);
      AppendInv(c, st, data);
      st := Append(st, data);
    }

    /** The writes of one message, in order. */
    method WriteItems(items: seq<Item>)
      requires Valid() && st.open
      requires RoomAfter(Cfg(), st, |ItemsBytes(items)|)
      modifies this`writePos, this`st, buf
      ensures Valid() && st == Append(old(st), ItemsBytes(items))
    {
      hide Buffer.Valid, ItemBytes, Wire;
      var i := 0;
      ghost var done: seq<byte> := [];
      AppendNothing(st);
      assert items[0..] == items;
      while i < |items|
        invariant 0 <= i <= |items|
        invariant Valid() && st == Append(old(st), done)
        invariant ItemsBytes(items) == done + ItemsBytes(items[i..])
      {
        ghost var bytes := ItemBytes(items[i]);
        ItemsStep(items, i);
        AppendTwice(old(st), done, bytes);
        WriteItem(items[i]);
        done := done + bytes;
        i := i + 1;
      }
    }

    method WriteItem(item: Item)
      requires Valid() && st.open
      requires RoomAfter(Cfg(), st, |ItemBytes(item)|)
      modifies this`writePos, this`st, buf
      ensures Valid() && st == Append(old(st), ItemBytes(item))
    {
      hide Buffer.Valid, Append, Committed;
      match item {
        case I32(x) => PackInt(x);
        case I64(x) => PackInt(x);
        case Raw(data) => WriteBytes(data);
      }
    }

    /** Fill in the length of the open frame, publish it, and start the next one. */
    method Commit(time: nat, force: bool)
      requires Valid() && st.open && (force ==> RoomForHeader(Cfg(), st))
      modifies this`writePos, this`commitPos, this`commitTime, this`st, buf
      ensures Valid() && st == CaptureSpec.Commit(Cfg(), old(st), time, force)
    {
      CommitDone(time, force);
    }

    /** As `Commit`, also in the call from `setDone`, where `isDone` is already set. */
    method CommitDone(time: nat, force: bool)
      requires st.open && (force && !st.done ==> RoomForHeader(Cfg(), st))
      requires Inv(Cfg(), st.(done := false)) && Located()
      modifies this`writePos, this`commitPos, this`commitTime, this`st, buf
      ensures Valid() && st == CaptureSpec.Commit(Cfg(), old(st), time, force)
    {
      hide RingOk, Holds, Untouched, Wire, Wrap, IsPow2, Encode, Inv, LittleEndian;
      ghost var c := Cfg();
      ghost var s := st;
      var typeLength := if local then 0 else 1;
      InvBounds(c, s.(done := false));
      WrapDistance(Committed(c, s), Written(c, s), size);
      CommitInv(c, s, time, force);
      var length := writePos - commitPos;
      if length < 0 {
        length := length + size;
      }
      length := length - typeLength - LENGTH_BYTES;
      assert length == |s.cur|;
      if !force && !isDone && length <= FRAME_HEADER_SIZE {
        return;
      }
      Publish(typeLength, length, time, force);
    }

    method Publish(typeLength: nat, length: nat, time: nat, ghost force: bool)
      requires st.open && typeLength == TypeLength(local) && length == |st.cur|
      requires st.done || force || length > FRAME_HEADER_SIZE
      requires Inv(Cfg(), st.(done := false)) && Located()
      requires Inv(Cfg(), CaptureSpec.Commit(Cfg(), st, time, force))
      modifies this`writePos, this`commitPos, this`commitTime, this`st, buf
      ensures Valid() && st == CaptureSpec.Commit(Cfg(), old(st), time, force)
    {
      hide RingOk, Holds, Untouched, Wire, Wrap, IsPow2, Encode, Inv, LittleEndian, Framing.Frame,
           ConfigOk, Advance, Represents;
      ghost var c := Cfg();
      ghost var s := st;
      ghost var t := CaptureSpec.Commit(c, s, time, force);
      RepresentsParts(c, s, buf[..], Now());
      InvBounds(c, s.(done := false));
      InvBounds(c, t);
      PatchLength(typeLength, length);
      PatchRing(c, s, old(buf[..]), buf[..]);
      CommitExtends(c, s);
      commitPos := writePos;
      AdvanceCommitTime(time);
      ghost var patched := buf[..];
      if !isDone {
        ghost var at := Written(c, s);
        WrapAdvance(at, 0, size);
        Frame(at);
        HoldsBehind(patched, buf[..], at, Overhead(c) + |c.header|, t.released, Wire(local, t.frames)[t.released..]);
      }
      RingFromParts(c, t, buf[..]);
      CommittedRepresents(c, s, t, old(buf[..]), old(Now()), Now());
      st := t;
    }

    /** The length goes into the ring byte by byte, possibly round its end. */
    method PatchLength(typeLength: nat, length: nat)
      requires IsPow2(size) && buf.Length == size >= LENGTH_BYTES && st.open
      requires typeLength == TypeLength(local) && commitPos == Wrap(Committed(Cfg(), st), size)
      modifies buf
      ensures var at := Committed(Cfg(), st) + typeLength;
        && Untouched(old(buf[..]), buf[..], at, LENGTH_BYTES)
        && Holds(buf[..], at, LittleEndian(length))
    {
      hide Holds, Untouched, Wrap, IsPow2, Wire, LittleEndian;
      ghost var at := Committed(Cfg(), st) + typeLength;
      HoldsNothing(buf[..], at, LENGTH_BYTES);
      WrapAdvance(Committed(Cfg(), st), typeLength, size);
      var rest := length;
      var byte := 0;
      while byte < LENGTH_BYTES
        invariant 0 <= byte <= LENGTH_BYTES && rest >= 0
        invariant rest == ShiftRight(length, byte)
        invariant Untouched(old(buf[..]), buf[..], at, LENGTH_BYTES)
        invariant Holds(buf[..], at, LittleEndian(length)[..byte])
      {
        ghost var le := LittleEndian(length);
        assert le[byte] == rest % 256 by { ShiftedByte(length, byte); }
        StoreByte(buf, size, commitPos + typeLength, byte, rest % 256, old(buf[..]), at, le[..byte], LENGTH_BYTES);
        assert le[..byte] + [le[byte]] == le[..byte + 1];
        rest := rest / 256;
        byte := byte + 1;
      }
      assert LittleEndian(length)[..LENGTH_BYTES] == LittleEndian(length);
    }

    method AdvanceCommitTime(time: nat)
      modifies this`commitTime
      ensures commitTime == Advance(liveRate, old(commitTime), time)
    {
      if liveRate > 0 {
        while time > commitTime
          invariant Advance(liveRate, old(commitTime), time) == Advance(liveRate, commitTime, time)
        {
          commitTime := commitTime + liveRate;
        }
      }
    }

    method Check(time: nat)
      requires Valid() && st.open
      modifies this`writePos, this`commitPos, this`commitTime, this`st, buf
      ensures Valid() && st == CaptureSpec.Check(Cfg(), old(st), time)
    {
      hide Inv, RingOk, Wire, Wrap;
      InvBounds(Cfg(), st);
      WrapDistance(Committed(Cfg(), st), Written(Cfg(), st), size);
      var filled := writePos - commitPos;
      if filled < 0 {
        filled := filled + size;
      }
      if filled >= size * 3 / 4 || (liveRate > 0 && time >= commitTime) {
        Commit(time, false);
      }
    }

    /** One attempt at a message; false means that there was no space for it. */
    method Marshal(m: Message, time: nat) returns (ok: bool)
      requires Valid() && st.open && WellFormed(m) && Covered(Cfg(), m)
      modifies this, buf
      ensures Valid() && st == PutMessage(Cfg(), old(st), m, time)
      ensures ok == Accepted(Cfg(), old(st), m)
    {
      InvBounds(Cfg(), st);
      hide Buffer.Valid, Inv, Wire, Items, ItemsBytes, ConfigOk, Committed, Overhead, Covered, Reserve, WellFormed,
           EndsInCheck, Blocking;
      ok := CheckSpace(Reserve(m));
      if ok {
        AcceptedFits(Cfg(), old(st), m);
        WriteItems(Items(m));
      }
      if EndsInCheck(m) && (ok || !Blocking(m)) {
        Check(time);
      }
    }

    method SetDone()
      requires Valid() && st.open
      modifies this, buf
      ensures Valid() && st == Next(Cfg(), old(st), CaptureSpec.SetDone)
    {
      hide Inv, Holds, Wire, Wrap;
      InvBounds(Cfg(), st);
      isDone := true;
      st := st.(done := true);
      assert st.(done := false) == old(st);
      CommitDone(0, false);
    }

    method QueryDone() returns (r: bool)
      requires Valid()
      ensures r == IsDone(Cfg(), st)
    {
      hide Inv, RingOk, Wire, Wrap;
      ghost var c := Cfg();
      InvBounds(c, st);
      WrapDistance(st.released, Committed(c, st), size);
      WrapDistance(Committed(c, st), Written(c, st), size);
      r := isDone && readPos == commitPos && commitPos == writePos;
    }

    /** First part of the reader's `write`: is there anything, and up to where? */
    method TakeSnapshot() returns (ready: bool)
      requires Valid() && st.reader.Idle?
      modifies this`snapshot, this`st
      ensures Valid() && st == Next(Cfg(), old(st), Snapshot)
      ensures ready == st.reader.Snapped?
    {
      hide Holds, Wire, Wrap;
      InvBounds(Cfg(), st);
      WrapDistance(st.released, Committed(Cfg(), st), size);
      ready := commitPos != readPos;
      if ready {
        snapshot := commitPos;
        st := st.(reader := Snapped(Committed(Cfg(), st)));
      }
    }

    /** Second part: send the two halves of the snapshot, whatever the writer has done meanwhile. */
    method SendSnapshot()
      requires Valid() && st.reader.Snapped?
      modifies this`sender, this`st
      ensures Valid() && st == Next(Cfg(), old(st), Send)
    {
      hide Inv, Represents, Wrap, Wire, RingOk;
      ghost var c := Cfg();
      ghost var ring := buf[..];
      RepresentsParts(c, st, ring, Now());
      InvBounds(c, st);
      var length1 := snapshot - readPos;
      var length2 := 0;
      if length1 < 0 {
        length1 := size - readPos;
        length2 := snapshot;
      }
      SentRepresents(c, st, ring, Now(), length1, length2);
      SendInv(c, st);
      SendPieces(length1, length2);
      st := Next(c, st, Send);
      assert buf[..] == ring;
    }

    method SendPieces(length1: nat, length2: nat)
      requires readPos + length1 <= buf.Length && length2 <= buf.Length
      modifies this`sender
      ensures sender == old(sender) + buf[..][readPos..readPos + length1] + buf[..][..length2]
    {
      if length1 > 0 {
        sender := sender + buf[readPos..readPos + length1];
      }
      assert sender == old(sender) + buf[..][readPos..readPos + length1];
      if length2 > 0 {
        sender := sender + buf[..length2];
      }
    }

    /** Last part: give the space back. */
    method ReleaseSnapshot()
      requires Valid() && st.reader.Sent?
      modifies this`readPos, this`st
      ensures Valid() && st == Next(Cfg(), old(st), Release)
    {
      hide Inv, Represents;
      ghost var c := Cfg();
      ghost var ring := buf[..];
      ReleasedRepresents(c, st, ring, Now());
      StepInv(c, st, Release);
      readPos := snapshot;
      st := Next(c, st, Release);
      assert buf[..] == ring;
    }

    /** Any step of the protocol, as the program performs it. */
    method Perform(step: Step)
      requires Valid() && Enabled(Cfg(), st, step)
      modifies this, buf
      ensures Valid() && st == Next(Cfg(), old(st), step)
    {
      match step {
        case Put(m, time) => var _ := Marshal(m, time);
        case DoCommit(time, force) => Commit(time, force);
        case DoCheck(time) => Check(time);
        case SetDone => SetDone();
        case Snapshot => var _ := TakeSnapshot();
        case Send => SendSnapshot();
        case Release => ReleaseSnapshot();
      }
    }

    /** Any interleaving of writer and reader steps, from the start: what the sender was given is a
        prefix of the committed frames, and once the buffer is done it parses into frames that carry
        every accepted message. */
    method PerformAll(steps: seq<Step>)
      requires Valid() && st == Init(Cfg()) && Legal(Cfg(), st, steps)
      modifies this, buf
      ensures Valid() && st == Run(Cfg(), Init(Cfg()), steps)
      ensures sender <= Wire(local, st.frames)
      ensures IsDone(Cfg(), st) ==>
                Parse(local, sender) == Frames(st.frames) && Bodies(|Cfg().header|, st.frames) == st.log
    {
      hide Inv, Represents, Wire, Enabled, Next;
      var i := 0;
      assert steps[0..] == steps;
      while i < |steps|
        invariant 0 <= i <= |steps|
        invariant Valid() && Legal(Cfg(), st, steps[i..])
        invariant Run(Cfg(), st, steps[i..]) == Run(Cfg(), Init(Cfg()), steps)
      {
        assert steps[i..][1..] == steps[i + 1..];
        Perform(steps[i]);
        i := i + 1;
      }
      InvBounds(Cfg(), st);
      RepresentsParts(Cfg(), st, buf[..], Now());
      RunDelivers(Cfg(), steps);
      if IsDone(Cfg(), st) {
        RunComplete(Cfg(), steps);
      }
    }
  }

  lemma ConfigSizes(c: Config)
    requires ConfigOk(c)
    ensures 256 <= c.size && 0 < |c.header| <= FRAME_HEADER_SIZE
  {
  }

  function ShiftRight(n: nat, bytes: nat): nat {
    if bytes == 0 then n else ShiftRight(n, bytes - 1) / 256
  }

  lemma ShiftedByte(n: nat, i: nat)
    requires i < LENGTH_BYTES
    ensures LittleEndian(n)[i] == ShiftRight(n, i) % 256
  {
    assert n / 65536 == n / 256 / 256;
    assert n / 16777216 == n / 65536 / 256;
    assert ShiftRight(n, 1) == n / 256;
    assert ShiftRight(n, 2) == n / 65536;
    assert ShiftRight(n, 3) == n / 16777216;
  }

  /** The at most two contiguous pieces of a stretch of the ring are the stretch. */
  lemma TwoHalves(ring: seq<byte>, at: nat, data: seq<byte>, n: nat, length1: nat, length2: nat)
    requires |ring| > 0 && Holds(ring, at, data) && n <= |data| && n < |ring|
    requires var lo, hi := Wrap(at, |ring|), Wrap(at + n, |ring|);
             if hi < lo then length1 == |ring| - lo && length2 == hi else length1 == hi - lo && length2 == 0
    ensures Wrap(at, |ring|) + length1 <= |ring|
    ensures var lo := Wrap(at, |ring|); ring[lo..lo + length1] + ring[..length2] == data[..n]
  {
    var lo := Wrap(at, |ring|);
    var pieces := ring[lo..lo + length1] + ring[..length2];
    WrapDistance(at, at + n, |ring|);
    forall i | 0 <= i < n
      ensures pieces[i] == data[i]
    {
      WrapAdvance(at, i, |ring|);
      assert ring[Wrap(at + i, |ring|)] == data[i];
    }
  }
}

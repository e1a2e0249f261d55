/** The kernel's annotation path: a message is cut into packets that fit the annotate ring, each packet
    a record of packed header and payload.  The driver's per-CPU ring is the capture buffer with frame
    type `FRAME_ANNOTATE`, no core in the header and no live rate. */
module Annotate {
  import opened RingIndex
  import opened Leb128
  import opened Framing
  import opened Sequences
  import opened CaptureSpec
  import opened CaptureBuffer

  const HEADER_SIZE := MAXSIZE_PACK32 * 3 + MAXSIZE_PACK64
  const COUNT_MASK := 0x7fff_ffff

  /** One packet of the annotate stream. */
  datatype Record = Record(cpu: int32, pid: int32, time: int64, payload: seq<byte>)

  predicate RecordOk(r: Record) { |r.payload| < 0x8000_0000 }

  function HeaderBytes(r: Record): seq<byte> {
    Encode(r.cpu) + Encode(r.pid) + Encode(r.time) + Encode(|r.payload|)
  }

  function RecordBytes(r: Record): seq<byte> { HeaderBytes(r) + r.payload }

  function RecordsBytes(rs: seq<Record>): seq<byte> {
    if rs == [] then [] else RecordBytes(rs[0]) + RecordsBytes(rs[1..])
  }

  function Payloads(rs: seq<Record>): seq<byte> {
    if rs == [] then [] else rs[0].payload + Payloads(rs[1..])
  }

  datatype ParsedRecord = NoRecord | OneRecord(cpu: int, pid: int, time: int, payload: seq<byte>, used: nat)

  /** The engine's reading of one record. */
  function ParseRecord(s: seq<byte>): (p: ParsedRecord)
    ensures p.OneRecord? ==> 0 < p.used <= |s|
  {
    var cpu := Decode(s);
    if cpu.Truncated? then NoRecord else
    var n1 := cpu.used;
    var pid := Decode(s[n1..]);
    if pid.Truncated? then NoRecord else
    var n2 := n1 + pid.used;
    var time := Decode(s[n2..]);
    if time.Truncated? then NoRecord else
    var n3 := n2 + time.used;
    var size := Decode(s[n3..]);
    if size.Truncated? || size.x < 0 then NoRecord else
    var n4 := n3 + size.used;
    if |s| < n4 + size.x then NoRecord
    else OneRecord(cpu.x, pid.x, time.x, s[n4..n4 + size.x], n4 + size.x)
  }

  datatype ParsedRecords = BadRecords | Records(rs: seq<(int, int, int, seq<byte>)>)

  function ParseRecords(s: seq<byte>): ParsedRecords {
    if s == [] then Records([])
    else
      match ParseRecord(s)
      case NoRecord => BadRecords
      case OneRecord(cpu, pid, time, payload, used) =>
        match ParseRecords(s[used..])
        case BadRecords => BadRecords
        case Records(rs) => Records([(cpu, pid, time, payload)] + rs)
  }

  function PlainRecords(rs: seq<Record>): seq<(int, int, int, seq<byte>)> {
    if rs == [] then [] else [(rs[0].cpu, rs[0].pid, rs[0].time, rs[0].payload)] + PlainRecords(rs[1..])
  }

  /** Four pieces and the rest, seen from the end of each piece. */
  lemma FourPieces(a: seq<byte>, b: seq<byte>, c: seq<byte>, d: seq<byte>, rest: seq<byte>)
    ensures var s := a + b + c + d + rest;
      && s == a + (b + c + d + rest)
      && s[|a|..] == b + (c + d + rest)
      && s[|a| + |b|..] == c + (d + rest)
      && s[|a| + |b| + |c|..] == d + rest
      && s[|a| + |b| + |c| + |d|..] == rest
  {
  }

  /** Reading a record's header, and as much payload as it announces. */
  lemma HeaderRead(r: Record, rest: seq<byte>)
    ensures var h, n := |HeaderBytes(r)|, |r.payload|;
      ParseRecord(HeaderBytes(r) + rest) ==
        if |rest| < n then NoRecord else OneRecord(r.cpu, r.pid, r.time, rest[..n], h + n)
  {
    hide Encode, Decode;
    var s := HeaderBytes(r) + rest;
    var a, b, c, d := Encode(r.cpu), Encode(r.pid), Encode(r.time), Encode(|r.payload|);
    FourPieces(a, b, c, d, rest);
    DecodeEncode(r.cpu, b + c + d + rest);
    DecodeEncode(r.pid, c + d + rest);
    DecodeEncode(r.time, d + rest);
    DecodeEncode(|r.payload|, rest);
    var h := |a| + |b| + |c| + |d|;
    assert |rest| >= |r.payload| ==> s[h..h + |r.payload|] == s[h..][..|r.payload|];
  }

  lemma ParseOneRecord(r: Record, rest: seq<byte>)
    ensures ParseRecord(RecordBytes(r) + rest)
         == OneRecord(r.cpu, r.pid, r.time, r.payload, |RecordBytes(r)|)
  {
    hide HeaderBytes, ParseRecord;
    HeaderRead(r, r.payload + rest);
    assert RecordBytes(r) + rest == HeaderBytes(r) + (r.payload + rest);
    assert (r.payload + rest)[..|r.payload|] == r.payload;
  }

  /** The annotate stream decodes back to exactly its records. */
  lemma {:induction false} ParseRecordsBytes(rs: seq<Record>)
    ensures ParseRecords(RecordsBytes(rs)) == Records(PlainRecords(rs))
  {
    hide ParseRecord, RecordBytes;
    if rs != [] {
      var rest := RecordsBytes(rs[1..]);
      ParseOneRecord(rs[0], rest);
      assert (RecordBytes(rs[0]) + rest)[|RecordBytes(rs[0])|..] == rest;
      ParseRecordsBytes(rs[1..]);
    }
  }

  lemma {:induction false} RecordsSnoc(rs: seq<Record>, r: Record)
    ensures RecordsBytes(rs + [r]) == RecordsBytes(rs) + RecordBytes(r)
    ensures Payloads(rs + [r]) == Payloads(rs) + r.payload
  {
    hide RecordBytes;
    if rs == [] {
      assert rs + [r] == [r] && [r][1..] == [];
      assert RecordsBytes([]) == [] && Payloads([]) == [];
    } else {
      var first, rest := RecordBytes(rs[0]), RecordsBytes(rs[1..]);
      assert (rs + [r])[1..] == rs[1..] + [r];
      RecordsSnoc(rs[1..], r);
      assert first + (rest + RecordBytes(r)) == first + rest + RecordBytes(r);
      assert rs[0].payload + (Payloads(rs[1..]) + r.payload) == rs[0].payload + Payloads(rs[1..]) + r.payload;
    }
  }

  lemma HeaderFits(r: Record)
    requires RecordOk(r)
    ensures |HeaderBytes(r)| <= HEADER_SIZE
  {
    hide Encode;
    Pack32Length(r.cpu);
    Pack32Length(r.pid);
    Pack64Length(r.time);
    Pack32Length(|r.payload|);
  }

  /** A straight copy to the write cursor stores what byte-by-byte ring writing would. */
  lemma FlatHolds(before: seq<byte>, after: seq<byte>, at: nat, data: seq<byte>)
    requires |before| > 0 && |after| == |before| && |data| <= |before|
    requires var w := Wrap(at, |before|);
      && w + |data| <= |before|
      && after == before[..w] + data + before[w + |data|..]
    ensures Holds(after, at, data) && Untouched(before, after, at, |data|)
  {
    hide Wrap;
    var n, w := |before|, Wrap(at, |before|);
    forall k: nat | at <= k < at + |data|
      ensures after[Wrap(k, n)] == data[k - at]
    {
      SlotAhead(at, k - at, n);
    }
    forall k: nat | at + |data| <= k < at + n
      ensures after[Wrap(k, n)] == before[Wrap(k, n)]
    {
      SlotAhead(at, k - at, n);
    }
  }

  /** The slot `i` positions on, less than one ring away. */
  lemma SlotAhead(at: nat, i: nat, n: nat)
    requires i < n
    ensures Wrap(at + i, n) == if Wrap(at, n) + i < n then Wrap(at, n) + i else Wrap(at, n) + i - n
  {
    WrapAdvance(at, i, n);
  }

  /** `annotate_copy`.  A copy from user space that faults leaves some bytes behind the write cursor and
      does not move it; a copy from the kernel does not fault. */
  method AnnotateCopy(b: Buffer, data: seq<byte>, faults: bool, left: seq<byte>) returns (ok: bool)
    requires b.Valid() && b.st.open && b.writePos + |data| <= b.size
    requires RoomAfter(b.Cfg(), b.st, |data|) && (faults ==> |left| == |data|)
    modifies b`writePos, b`st, b.buf
    ensures b.Valid() && ok == !faults
    ensures b.st == if faults then old(b.st) else Append(old(b.st), data)
  {
    hide Inv, Represents, RingOk, Holds, Untouched, Wrap, IsPow2;
    ghost var c := b.Cfg();
    ghost var at := Written(c, b.st);
    ghost var before := b.buf[..];
    RepresentsParts(c, b.st, before, b.Now());
    InvBounds(c, b.st);
    var bytes := if faults then left else data;
    CopyInto(b.buf, b.writePos, bytes);
    FlatHolds(before, b.buf[..], at, bytes);
    if faults {
      ScratchRepresents(c, b.st, before, b.Now(), |left|, b.buf[..]);
      return false;
    }
    AppendRing(c, b.st, before, b.buf[..], data);
    AppendInv(c, b.st, data);
    WrapAdvance(at, 0, b.size);
    MaskedSlot(b.writePos, |data|, b.size, at);
    b.writePos := BitAnd(b.writePos + |data|, b.size - 1);
    AppendRepresents(c, b.st, before, old(b.Now()), data, b.buf[..]);
    b.st := Append(b.st, data);
    ok := true;
  }

  /** Bytes behind the write cursor that nothing refers to. */
  lemma ScratchRepresents(c: Config, s: State, before: seq<byte>, k: Fields, n: nat, after: seq<byte>)
    requires Represents(c, s, before, k) && s.open && Filled(c, s) + n <= c.size && |after| == |before| == c.size
    requires Untouched(before, after, Written(c, s), n)
    ensures Represents(c, s, after, k)
  {
    hide Wrap, Wire, Holds, Untouched;
    var at := Written(c, s);
    HoldsBehind(before, after, at, n, s.released, Wire(c.local, s.frames)[s.released..]);
    HoldsBehind(before, after, at, n, Committed(c, s), TypeBytes(c.local));
    HoldsBehind(before, after, at, n, Committed(c, s) + Overhead(c), s.cur);
  }

  lemma AppendRepresents(c: Config, s: State, before: seq<byte>, k: Fields, data: seq<byte>, after: seq<byte>)
    requires Represents(c, s, before, k) && s.open && |after| == |before|
    requires s.released <= Committed(c, Append(s, data)) && RingOk(c, Append(s, data), after)
    ensures Represents(c, Append(s, data), after, k.(writePos := Wrap(Written(c, s) + |data|, c.size)))
  {
    hide RingOk, Wrap, Wire;
    RepresentsParts(c, s, before, k);
  }

  /** `contiguous_space_available`. */
  method ContiguousSpace(b: Buffer) returns (n: int)
    requires b.Valid()
    ensures n == if Space(b.Cfg(), b.st) < b.size - b.writePos then Space(b.Cfg(), b.st) else b.size - b.writePos
  {
    var remaining := b.BytesAvailable();
    var contiguous := b.size - b.writePos;
    n := if remaining < contiguous then remaining else contiguous;
  }

  /** Which of the copies of one call faults, and the bytes it leaves. */
  datatype Fault = NoFault | FirstCopy(left: seq<byte>) | SecondCopy(left: seq<byte>)

  predicate FaultOk(f: Fault, n: nat) { f.NoFault? || |f.left| >= n }

  /** How much of `n` bytes goes into the ring before its end. */
  ghost function FirstPiece(c: Config, s: State, n: nat): int
    requires c.size > 0
  {
    var room := c.size - Wrap(Written(c, s), c.size);
    var contiguous := if Space(c, s) < room then Space(c, s) else room;
    if n < contiguous then n else contiguous
  }

  /** How much of the payload gets into the ring. */
  ghost function Copied(c: Config, s: State, n: nat, fault: Fault): int
    requires c.size > 0
  {
    match fault
    case NoFault => n
    case FirstCopy(_) => 0
    case SecondCopy(_) => FirstPiece(c, s, n)
  }

  /** The payload in one or two straight pieces; `copied` says how much of it got into the ring. */
  method CopyPayload(b: Buffer, data: seq<byte>, fault: Fault) returns (copied: nat)
    requires b.Valid() && b.st.open && 0 < |data| <= Space(b.Cfg(), b.st) && FaultOk(fault, |data|)
    modifies b`writePos, b`st, b.buf
    ensures b.Valid() && copied <= |data| && b.st == Append(old(b.st), data[..copied])
    ensures b.size > 0 && copied == Copied(b.Cfg(), old(b.st), |data|, fault)
  {
    hide Inv, Committed, Represents, Wrap, RingOk, Append;
    var contiguous := ContiguousSpace(b);
    var size := |data|;
    var length1, length2 := size, 0;
    if size >= contiguous {
      length1, length2 := contiguous, size - contiguous;
    }
    ghost var c := b.Cfg();
    ghost var first := b.st;
    RepresentsParts(c, b.st, b.buf[..], b.Now());
    InvBounds(c, b.st);
    AppendRoom(c, first, data[..length1]);
    var ok := AnnotateCopy(b, data[..length1], fault.FirstCopy?, if fault.FirstCopy? then fault.left[..length1] else []);
    if !ok {
      AppendNothing(first);
      assert data[..0] == [];
      return 0;
    }
    if length2 == 0 {
      assert data[..length1] == data;
      return length1;
    }
    RepresentsParts(c, b.st, b.buf[..], b.Now());
    WrapToStart(Written(c, first), length1, b.size);
    ok := AnnotateCopy(b, data[length1..], fault.SecondCopy?, if fault.SecondCopy? then fault.left[..length2] else []);
    if !ok {
      return length1;
    }
    AppendTwice(first, data[..length1], data[length1..]);
    assert data[..length1] + data[length1..] == data == data[..size];
    copied := size;
  }

  lemma WrapToStart(at: nat, n: nat, size: nat)
    requires size > 0 && Wrap(at, size) + n == size
    ensures Wrap(at + n, size) == 0
  {
    WrapAdvance(at, n, size);
  }

  lemma AppendRoom(c: Config, s: State, data: seq<byte>)
    requires s.open
    ensures Filled(c, Append(s, data)) == Filled(c, s) + |data|
    ensures Written(c, Append(s, data)) == Written(c, s) + |data| && Append(s, data).open
    ensures Append(s, data).available == s.available
  {
  }

  datatype Outcome = Wrote(n: nat) | Full | Faulted(copied: nat)

  /** What one pass of `annotate_write` finds: the CPU, the process and the clock. */
  datatype Call = Call(cpu: int32, pid: int32, time: int64, now: nat)

  /** How much of `count` bytes one call takes. */
  function Accepts(c: Config, s: State, count: nat): (n: int)
    ensures n <= count && n <= COUNT_MASK
  {
    var n := count % (COUNT_MASK + 1);
    var available := Space(c, s) - HEADER_SIZE;
    if n < available then n else available
  }

  /** One call takes the longest prefix of the masked count that fits behind a header of the largest size. */
  lemma AcceptsLongest(c: Config, s: State, count: nat, k: nat)
    ensures k <= Accepts(c, s, count) <==> k <= count % 0x8000_0000 && k + 25 <= Space(c, s)
  {
    hide Committed;
  }

  /** The record that one call makes of a message. */
  function Taken(c: Config, s: State, data: seq<byte>, call: Call): (r: Record)
    requires Accepts(c, s, |data|) > 0
    ensures |r.payload| == Accepts(c, s, |data|) && r.payload <= data
  {
    Record(call.cpu, call.pid, call.time, data[..Accepts(c, s, |data|)])
  }

  /** One pass of `annotate_write`: it takes a prefix of the message as one record, or finds the ring full
      and would wait.  A user-space copy that faults leaves the header and part of the payload. */
  method AnnotateWrite(b: Buffer, collecting: bool, data: seq<byte>, call: Call, fault: Fault)
    returns (r: Outcome)
    requires b.Valid() && b.st.open && FaultOk(fault, |data|)
    modifies b, b.buf
    ensures b.Valid()
    ensures !collecting ==> r == Wrote(|data|) && b.st == old(b.st)
    ensures collecting ==> (r.Full? <==> Accepts(b.Cfg(), old(b.st), |data|) <= 0)
    ensures collecting && r.Full? ==> b.st == old(b.st)
    ensures b.size > 0
    ensures collecting && !r.Full? ==>
      var rec := Taken(b.Cfg(), old(b.st), data, call);
      var n := Copied(b.Cfg(), Append(old(b.st), HeaderBytes(rec)), |rec.payload|, fault);
      && 0 <= n <= |rec.payload| && r == (if n == |rec.payload| then Wrote(n) else Faulted(n))
      && b.st == if r.Wrote? then Check(b.Cfg(), Append(old(b.st), RecordBytes(rec)), call.now)
                 else Append(old(b.st), CutShort(rec, n))
    ensures collecting && r.Wrote? ==>
      && r.n <= |data| && old(b.st.log) <= b.st.log
      && var gained := b.st.log[|old(b.st.log)|..];
         ParseRecord(gained) == OneRecord(call.cpu, call.pid, call.time, data[..r.n], |gained|)
  {
    InvBounds(b.Cfg(), b.st);
    hide Buffer.Valid, Committed, Append, Check, HeaderBytes, RecordBytes, CutShort, ParseRecord, Copied;
    if !collecting {
      return Wrote(|data|);
    }
    var count := |data| % (COUNT_MASK + 1);
    var space := b.BytesAvailable();
    var available := space - HEADER_SIZE;
    var size := if count < available then count else available;
    if size <= 0 {
      return Full;
    }
    ghost var rec := Taken(b.Cfg(), b.st, data, call);
    var copied := WriteRecord(b, rec, data[..size], call, fault);
    if copied < size {
      return Faulted(copied);
    }
    AppendRoom(b.Cfg(), old(b.st), RecordBytes(rec));
    b.Check(call.now);
    RecordGained(b.Cfg(), old(b.st), rec, call.now);
    r := Wrote(size);
  }

  /** What the log gains by a record reads back as the record. */
  lemma RecordGained(c: Config, s: State, r: Record, now: nat)
    requires s.open
    ensures var log := Check(c, Append(s, RecordBytes(r)), now).log;
      && s.log <= log && log[|s.log|..] == RecordBytes(r)
      && ParseRecord(log[|s.log|..]) == OneRecord(r.cpu, r.pid, r.time, r.payload, |RecordBytes(r)|)
  {
    hide ParseRecord, HeaderBytes, Committed;
    ParseOneRecord(r, []);
    assert RecordBytes(r) + [] == RecordBytes(r);
  }

  /** The header and as much of the payload as can be copied. */
  method WriteRecord(b: Buffer, ghost rec: Record, payload: seq<byte>, call: Call, fault: Fault) returns (copied: nat)
    requires b.Valid() && b.st.open && rec == Record(call.cpu, call.pid, call.time, payload)
    requires 0 < |payload| <= COUNT_MASK && |payload| + HEADER_SIZE <= Space(b.Cfg(), b.st) && FaultOk(fault, |payload|)
    modifies b`writePos, b`st, b.buf
    ensures b.Valid() && b.size > 0
    ensures copied == Copied(b.Cfg(), Append(old(b.st), HeaderBytes(rec)), |payload|, fault) <= |payload|
    ensures b.st == Append(old(b.st), CutShort(rec, copied))
    ensures copied == |payload| ==> b.st == Append(old(b.st), RecordBytes(rec))
  {
    hide Buffer.Valid, Committed, Append, HeaderBytes, Copied;
    WriteHeader(b, rec, call.cpu, call.pid, call.time, |payload|);
    copied := CopyPayload(b, payload, fault);
    AppendTwice(old(b.st), HeaderBytes(rec), payload[..copied]);
    assert payload[..|payload|] == payload;
  }

  /** A record of which only part of the payload was written. */
  function CutShort(r: Record, copied: nat): seq<byte>
    requires copied <= |r.payload|
  {
    HeaderBytes(r) + r.payload[..copied]
  }

  /** After a fault the missing bytes are taken from whatever is written next: the record reads back as
      meant if and only if that begins with them. */
  lemma FaultSwallows(r: Record, copied: nat, later: seq<byte>)
    requires copied <= |r.payload|
    ensures var missing := |r.payload| - copied;
      ParseRecord(CutShort(r, copied) + later) ==
        if |later| < missing then NoRecord
        else OneRecord(r.cpu, r.pid, r.time, r.payload[..copied] + later[..missing], |RecordBytes(r)|)
    ensures ParseRecord(CutShort(r, copied) + later)
              == OneRecord(r.cpu, r.pid, r.time, r.payload, |RecordBytes(r)|)
       <==> r.payload[copied..] <= later
  {
    hide Encode;
    var missing := |r.payload| - copied;
    var s := CutShort(r, copied) + later;
    if |later| < missing {
      HeaderRead(r, r.payload[..copied] + later);
      assert s == HeaderBytes(r) + (r.payload[..copied] + later);
    } else {
      var got := r.(payload := r.payload[..copied] + later[..missing]);
      assert HeaderBytes(got) == HeaderBytes(r);
      assert later == later[..missing] + later[missing..];
      assert s == RecordBytes(got) + later[missing..];
      ParseOneRecord(got, later[missing..]);
      assert got.payload[copied..] == later[..missing];
      assert r.payload == r.payload[..copied] + r.payload[copied..];
    }
  }

  method WriteHeader(b: Buffer, ghost rec: Record, cpu: int32, pid: int32, time: int64, size: int)
    requires b.Valid() && b.st.open && rec == Record(cpu, pid, time, rec.payload)
    requires size == |rec.payload| <= COUNT_MASK && size + HEADER_SIZE <= Space(b.Cfg(), b.st)
    modifies b`writePos, b`st, b.buf
    ensures b.Valid() && b.st == Append(old(b.st), HeaderBytes(rec))
    ensures size <= Space(b.Cfg(), b.st) && b.st.open
  {
    InvBounds(b.Cfg(), b.st);
    hide Buffer.Valid, Committed, Append, Encode;
    ghost var c := b.Cfg();
    ghost var s := b.st;
    ghost var h1, h2 := Encode(cpu), Encode(cpu) + Encode(pid);
    ghost var h3 := h2 + Encode(time);
    Pack32Length(cpu);
    Pack32Length(pid);
    Pack64Length(time);
    Pack32Length(size);
    AppendRoom(c, s, h1);
    AppendRoom(c, s, h2);
    AppendRoom(c, s, h3);
    AppendRoom(c, s, HeaderBytes(rec));
    b.PackInt(cpu);
    AppendTwice(s, h1, Encode(pid));
    b.PackInt(pid);
    AppendTwice(s, h2, Encode(time));
    b.PackInt(time);
    AppendTwice(s, h3, Encode(size));
    b.PackInt(size);
  }

  // ------------------------------------------------------------------ the reader

  /** What one step of the reader does. */
  lemma ReaderEffect(c: Config, s: State)
    requires Inv(c, s)
    ensures var t := ReaderNext(c, s);
      && Committed(c, t) == Committed(c, s)
      && match s.reader
         case Idle => t.released == s.released && t.reader == if Drained(c, s) then Idle else Snapped(Committed(c, s))
         case Snapped(u) => t.released == s.released && t.reader == Sent(u)
         case Sent(u) => t.released == u && t.reader == Idle
  {
    hide Inv, Wire;
    InvReader(c, s);
  }

  /** From rest, three steps of the reader drain what was committed, and more change nothing. */
  lemma {:induction false} RestDrains(c: Config, s: State, n: nat)
    requires Inv(c, s) && s.reader.Idle? && (n >= 3 || Drained(c, s))
    ensures Drained(c, Reads(c, s, n))
    decreases n
  {
    hide Inv, ReaderOk, ReaderNext, Committed;
    InvReader(c, s);
    if n > 0 {
      ReaderEffect(c, s);
      var s1 := ReaderNext(c, s);
      if Drained(c, s) {
        RestDrains(c, s1, n - 1);
      } else {
        ReaderEffect(c, s1);
        var s2 := ReaderNext(c, s1);
        ReaderEffect(c, s2);
        var s3 := ReaderNext(c, s2);
        assert Reads(c, s2, n - 2) == Reads(c, s3, n - 3);
        assert Reads(c, s1, n - 1) == Reads(c, s2, n - 2);
        RestDrains(c, s3, n - 3);
      }
    }
  }

  /** Five steps of the reader drain what was committed, wherever it was. */
  lemma FiveStepsDrain(c: Config, s: State)
    requires Inv(c, s)
    ensures Drained(c, Reads(c, s, 5))
  {
    hide Inv, ReaderOk, ReaderNext, Committed;
    InvReader(c, s);
    ReaderEffect(c, s);
    var s1 := ReaderNext(c, s);
    ReaderEffect(c, s1);
    if s.reader.Idle? {
      RestDrains(c, s, 5);
    } else if s.reader.Sent? {
      RestDrains(c, s1, 4);
    } else {
      RestDrains(c, ReaderNext(c, s1), 3);
    }
  }

  /** Where the reader's thread is in its call of `write`. */
  datatype Phase = AtRest | HasSnapshot | HasSent

  predicate PhaseIs(p: Phase, r: Reader) {
    match p
    case AtRest => r.Idle?
    case HasSnapshot => r.Snapped?
    case HasSent => r.Sent?
  }

  /** The reader's next step on the ring. */
  method ReaderTurn(b: Buffer, phase: Phase) returns (next: Phase)
    requires b.Valid() && PhaseIs(phase, b.st.reader)
    modifies b, b.buf
    ensures b.Valid() && b.st == ReaderNext(b.Cfg(), old(b.st)) && PhaseIs(next, b.st.reader)
  {
    hide Inv, Represents, Wire, ReaderOk;
    InvReader(b.Cfg(), b.st);
    match phase {
      case AtRest =>
        var ready := b.TakeSnapshot();
        next := if ready then HasSnapshot else AtRest;
      case HasSnapshot =>
        b.SendSnapshot();
        next := HasSent;
      case HasSent =>
        b.ReleaseSnapshot();
        next := AtRest;
    }
  }

  // ------------------------------------------------------------------ one packet

  /** The ring is large enough that three quarters of it leave room for a record past any margin. */
  predicate LargeEnough(c: Config) { c.size >= 16 * 1024 }

  /** A drained ring whose open frame is below the commit mark takes some of a message exactly when
      the masked count is not zero; a call with a zero masked count would wait for ever. */
  lemma DrainedTakes(c: Config, s: State, count: nat)
    requires s.open && BelowMark(c, s) && LargeEnough(c) && Drained(c, s)
    ensures Accepts(c, s, count) > 0 <==> count % (COUNT_MASK + 1) != 0
  {
    hide Committed;
  }

  /** Recording one packet keeps the open frame below the commit mark and adds the packet to the log. */
  lemma RecordCommitted(c: Config, s: State, data: seq<byte>, now: nat)
    requires Inv(c, s) && s.open && RoomAfter(c, s, |data|)
    ensures var t := Check(c, Append(s, data), now);
      Inv(c, t) && BelowMark(c, t) && t.log == s.log + data && t.open && t.reader == s.reader
  {
    AppendInv(c, s, data);
    InvBounds(c, s);
    CheckInv(c, Append(s, data), now);
    CheckBelowMark(c, Append(s, data), now);
  }

  /** A packet that the ring had room for. */
  lemma PacketTaken(c: Config, s: State, r: Record, now: nat)
    requires Inv(c, s) && s.open && RecordOk(r) && |r.payload| + HEADER_SIZE <= Space(c, s)
    ensures var t := Check(c, Append(s, RecordBytes(r)), now);
      Inv(c, t) && BelowMark(c, t) && t.log == s.log + RecordBytes(r) && t.open && t.reader == s.reader
  {
    hide Inv, HeaderBytes;
    HeaderFits(r);
    InvBounds(c, s);
    RecordCommitted(c, s, RecordBytes(r), now);
  }

  lemma SameWriterMark(c: Config, s: State, t: State)
    requires SameWriter(s, t)
    ensures BelowMark(c, t) == BelowMark(c, s) && t.log == s.log && t.open == s.open
  {
  }

  // ------------------------------------------------------------------ kannotate_write under any schedule

  /** What can happen while `kannotate_write` is under way: the reader moves, another thread passes
      through `annotate_write`, perhaps with a copy that faults, collecting is switched, our thread makes a
      pass, or it gets a signal. */
  datatype Event =
    | ReaderMoves
    | Other(data: seq<byte>, call: Call, fault: Fault)
    | Collect(on: bool)
    | Try(call: Call)
    | Signal

  /** Our thread: in its loop, possibly waiting for space; through; told that nothing is collected; or
      interrupted by a signal. */
  datatype Thread = Running(waiting: bool) | Finished | Unheard | Interrupted

  /** A record in the ring, whether it is one of ours, and how much of its payload was copied. */
  datatype Entry = Entry(mine: bool, r: Record, copied: nat)

  function EntryBytes(e: Entry): seq<byte> {
    if e.copied < |e.r.payload| then CutShort(e.r, e.copied) else RecordBytes(e.r)
  }

  function EntriesBytes(es: seq<Entry>): seq<byte> {
    if es == [] then [] else EntriesBytes(es[..|es| - 1]) + EntryBytes(es[|es| - 1])
  }

  /** No record was cut short. */
  predicate AllWhole(es: seq<Entry>) {
    forall i :: 0 <= i < |es| ==> es[i].copied >= |es[i].r.payload|
  }

  /** `taken` bytes of our message are in the ring; `entries` are all records since we started. */
  datatype Progress = Progress(st: State, collecting: bool, thread: Thread, taken: nat, entries: seq<Entry>)

  function AllRecords(es: seq<Entry>): seq<Record> {
    if es == [] then [] else AllRecords(es[..|es| - 1]) + [es[|es| - 1].r]
  }

  function OurRecords(es: seq<Entry>): seq<Record> {
    if es == [] then []
    else OurRecords(es[..|es| - 1]) + (if es[|es| - 1].mine then [es[|es| - 1].r] else [])
  }

  lemma {:induction false} WholeBytes(es: seq<Entry>)
    requires AllWhole(es)
    ensures EntriesBytes(es) == RecordsBytes(AllRecords(es))
  {
    hide RecordBytes, CutShort;
    if es != [] {
      WholeBytes(es[..|es| - 1]);
      RecordsSnoc(AllRecords(es[..|es| - 1]), es[|es| - 1].r);
    }
  }

  lemma EntriesSnoc(es: seq<Entry>, e: Entry)
    ensures EntriesBytes(es + [e]) == EntriesBytes(es) + EntryBytes(e)
    ensures AllWhole(es + [e]) <==> AllWhole(es) && e.copied >= |e.r.payload|
    ensures AllRecords(es + [e]) == AllRecords(es) + [e.r]
    ensures OurRecords(es + [e]) == if e.mine then OurRecords(es) + [e.r] else OurRecords(es)
  {
    hide EntryBytes;
    var all := es + [e];
    assert all[..|es|] == es && all[|es|] == e;
    if AllWhole(all) {
      assert forall i :: 0 <= i < |es| ==> es[i] == all[i];
    }
  }

  ghost predicate Ready(c: Config, ptr: seq<byte>, k: Progress) {
    Inv(c, k.st) && k.st.open && k.taken <= |ptr|
  }

  function Begin(s: State, collecting: bool, ptr: seq<byte>): Progress {
    Progress(s, collecting, if ptr == [] then Finished else Running(false), 0, [])
  }

  /** A record goes into the ring, or as much of it as could be copied. */
  ghost function Book(c: Config, k: Progress, mine: bool, data: seq<byte>, call: Call, fault: Fault): (k': Progress)
    requires Inv(c, k.st) && k.st.open && Accepts(c, k.st, |data|) > 0
    ensures Inv(c, k'.st) && k'.st.open
  {
    var r := Taken(c, k.st, data, call);
    var e := Entry(mine, r, Portion(c, k.st, r, fault));
    BookInv(c, k.st, e, call.now);
    k.(st := Booked(c, k.st, e, call.now), entries := k.entries + [e])
  }

  /** How much of the record's payload is copied behind its header. */
  ghost function Portion(c: Config, s: State, r: Record, fault: Fault): (n: nat)
    requires Inv(c, s) && s.open && RecordOk(r) && |r.payload| + HEADER_SIZE <= Space(c, s)
    ensures n <= |r.payload| && (fault.NoFault? ==> n == |r.payload|)
    ensures c.size > 0 && n == Copied(c, Append(s, HeaderBytes(r)), |r.payload|, fault)
  {
    InvBounds(c, s);
    PortionOk(c, s, r, fault);
    Copied(c, Append(s, HeaderBytes(r)), |r.payload|, fault)
  }

  lemma PortionOk(c: Config, s: State, r: Record, fault: Fault)
    requires c.size > 0 && s.open && RecordOk(r) && |r.payload| + HEADER_SIZE <= Space(c, s)
    ensures 0 <= Copied(c, Append(s, HeaderBytes(r)), |r.payload|, fault) <= |r.payload|
  {
    hide HeaderBytes, Wrap, Committed, Append;
    HeaderFits(r);
    AppendRoom(c, s, HeaderBytes(r));
  }

  /** The state after a pass; one that faulted does not commit. */
  function Booked(c: Config, s: State, e: Entry, now: nat): State
    requires s.open
  {
    var t := Append(s, EntryBytes(e));
    if e.copied < |e.r.payload| then t else Check(c, t, now)
  }

  lemma BookInv(c: Config, s: State, e: Entry, now: nat)
    requires Inv(c, s) && s.open && RecordOk(e.r) && |e.r.payload| + HEADER_SIZE <= Space(c, s)
    ensures var t := Booked(c, s, e, now);
      && Inv(c, t) && t.open && t.log == s.log + EntryBytes(e) && t.reader == s.reader
      && (e.copied >= |e.r.payload| ==> BelowMark(c, t))
  {
    hide Inv, HeaderBytes, BelowMark;
    PacketTaken(c, s, e.r, now);
    if e.copied < |e.r.payload| {
      HeaderFits(e.r);
      InvBounds(c, s);
      AppendInv(c, s, EntryBytes(e));
    }
  }

  /** Our pass through `annotate_write`, from a thread that is in its loop. */
  ghost function Pass(c: Config, ptr: seq<byte>, k: Progress, call: Call): (k': Progress)
    requires Ready(c, ptr, k)
    ensures Ready(c, ptr, k')
  {
    hide Inv, BelowMark;
    var n := Accepts(c, k.st, |ptr| - k.taken);
    if !k.collecting then k.(thread := Unheard)
    else if n <= 0 then k.(thread := Running(true))
    else
      Book(c, k, true, ptr[k.taken..], call, NoFault)
        .(taken := k.taken + n, thread := if k.taken + n < |ptr| then Running(false) else Finished)
  }

  ghost function After(c: Config, ptr: seq<byte>, k: Progress, e: Event): (k': Progress)
    requires Ready(c, ptr, k)
    ensures Ready(c, ptr, k')
  {
    hide Inv, BelowMark;
    match e
    case ReaderMoves =>
      InvReader(c, k.st);
      k.(st := ReaderNext(c, k.st))
    case Other(data, call, fault) =>
      if k.collecting && Accepts(c, k.st, |data|) > 0 then Book(c, k, false, data, call, fault) else k
    case Collect(on) => k.(collecting := on)
    case Try(call) => if k.thread.Running? then Pass(c, ptr, k, call) else k
    case Signal => if k.thread == Running(true) then k.(thread := Interrupted) else k
  }

  ghost function AfterAll(c: Config, ptr: seq<byte>, k: Progress, events: seq<Event>): (k': Progress)
    requires Ready(c, ptr, k)
    ensures Ready(c, ptr, k')
  {
    if events == [] then k
    else After(c, ptr, AfterAll(c, ptr, k, events[..|events| - 1]), events[|events| - 1])
  }

  /** What holds at every point: the ring's log grew by exactly the records since the start, cut short
      where a copy faulted; our own records carry exactly the part of the message that was taken, in order;
      and as long as no copy faulted the open frame is below the commit mark. */
  ghost predicate Sound(c: Config, log: seq<byte>, ptr: seq<byte>, k: Progress) {
    && Ready(c, ptr, k) && (AllWhole(k.entries) ==> BelowMark(c, k.st))
    && k.st.log == log + EntriesBytes(k.entries)
    && Payloads(OurRecords(k.entries)) == ptr[..k.taken]
    && (k.thread.Running? ==> k.taken < |ptr|)
    && (k.thread.Finished? ==> k.taken == |ptr|)
    && (|ptr| - k.taken) / (COUNT_MASK + 1) == |ptr| / (COUNT_MASK + 1)
  }

  lemma BeginSound(c: Config, s: State, collecting: bool, ptr: seq<byte>)
    requires Inv(c, s) && s.open && BelowMark(c, s)
    ensures Sound(c, s.log, ptr, Begin(s, collecting, ptr))
  {
    assert s.log + [] == s.log;
  }

  /** One more record, of ours or of another thread. */
  lemma BookSound(c: Config, log: seq<byte>, k: Progress, mine: bool, data: seq<byte>, call: Call, fault: Fault)
    requires Inv(c, k.st) && k.st.open && Accepts(c, k.st, |data|) > 0
    requires k.st.log == log + EntriesBytes(k.entries)
    ensures var k', n := Book(c, k, mine, data, call, fault), Accepts(c, k.st, |data|);
      && k'.st.log == log + EntriesBytes(k'.entries)
      && (AllWhole(k'.entries) ==> BelowMark(c, k'.st))
      && Payloads(OurRecords(k'.entries)) == Payloads(OurRecords(k.entries)) + (if mine then data[..n] else [])
      && k'.taken == k.taken && k'.thread == k.thread && k'.collecting == k.collecting
      && (fault.NoFault? && AllWhole(k.entries) ==> AllWhole(k'.entries))
  {
    hide Inv, EntryBytes, EntriesBytes, OurRecords, AllRecords, AllWhole, Booked, Portion, Copied, BelowMark;
    var r := Taken(c, k.st, data, call);
    var e := Entry(mine, r, Portion(c, k.st, r, fault));
    BookInv(c, k.st, e, call.now);
    EntriesSnoc(k.entries, e);
    RecordsSnoc(OurRecords(k.entries), r);
    assert log + EntriesBytes(k.entries) + EntryBytes(e) == log + (EntriesBytes(k.entries) + EntryBytes(e));
    assert Payloads(OurRecords(k.entries)) + [] == Payloads(OurRecords(k.entries));
  }

  /** Taking no more than the low bits of what is left keeps its high bits. */
  lemma HighBitsStay(left: nat, n: nat)
    requires n <= left % (COUNT_MASK + 1)
    ensures (left - n) / (COUNT_MASK + 1) == left / (COUNT_MASK + 1)
  {
  }

  lemma PassSound(c: Config, log: seq<byte>, ptr: seq<byte>, k: Progress, call: Call)
    requires Sound(c, log, ptr, k) && k.thread.Running?
    ensures Sound(c, log, ptr, Pass(c, ptr, k, call))
  {
    hide Inv, BelowMark, AllWhole, OurRecords, EntriesBytes, Payloads, Book, Space;
    var n := Accepts(c, k.st, |ptr| - k.taken);
    if k.collecting && n > 0 {
      BookSound(c, log, k, true, ptr[k.taken..], call, NoFault);
      HighBitsStay(|ptr| - k.taken, n);
      assert ptr[..k.taken] + ptr[k.taken..][..n] == ptr[..k.taken + n];
    }
  }

  /** Every event keeps the books. */
  lemma EventSound(c: Config, log: seq<byte>, ptr: seq<byte>, k: Progress, e: Event)
    requires Sound(c, log, ptr, k)
    ensures Sound(c, log, ptr, After(c, ptr, k, e))
  {
    hide Inv, BelowMark, AllWhole, OurRecords, EntriesBytes, Payloads, Book, Pass, ReaderNext, Accepts;
    match e {
      case ReaderMoves =>
        InvReader(c, k.st);
        SameWriterMark(c, k.st, ReaderNext(c, k.st));
      case Other(data, call, fault) =>
        if k.collecting && Accepts(c, k.st, |data|) > 0 {
          BookSound(c, log, k, false, data, call, fault);
          assert ptr[..k.taken] + [] == ptr[..k.taken];
        }
      case Try(call) => if k.thread.Running? { PassSound(c, log, ptr, k, call); }
      case _ =>
    }
  }

  /** A signal ends a thread that waits, and no other. */
  lemma SignalEnds(c: Config, ptr: seq<byte>, k: Progress)
    requires Ready(c, ptr, k)
    ensures After(c, ptr, k, Signal)
         == if k.thread.Running? && k.thread.waiting then k.(thread := Interrupted) else k
  {
  }

  /** A pass that faults commits nothing; a whole record is committed as `check` has it. */
  lemma FaultCommitsNothing(c: Config, s: State, e: Entry, now: nat)
    requires s.open
    ensures Booked(c, s, e, now).frames ==
      if e.copied < |e.r.payload| then s.frames else Check(c, Append(s, RecordBytes(e.r)), now).frames
  {
  }

  /** For every schedule, at every point. */
  lemma {:induction false} ScheduleSound(c: Config, log: seq<byte>, ptr: seq<byte>, k: Progress, events: seq<Event>)
    requires Sound(c, log, ptr, k)
    ensures Sound(c, log, ptr, AfterAll(c, ptr, k, events))
  {
    hide Sound, After, Ready;
    SoundReady(c, log, ptr, k);
    if events != [] {
      ScheduleSound(c, log, ptr, k, events[..|events| - 1]);
      EventSound(c, log, ptr, AfterAll(c, ptr, k, events[..|events| - 1]), events[|events| - 1]);
    }
  }

  lemma SoundReady(c: Config, log: seq<byte>, ptr: seq<byte>, k: Progress)
    requires Sound(c, log, ptr, k)
    ensures Ready(c, ptr, k)
  {
  }

  // ------------------------------------------------------------------ what the engine reads

  type Note = (int, int, int, seq<byte>)

  /** What one event leaves for the engine to read: CPU, process and time of the pass, and the part of its
      message that fitted. */
  ghost function NotedBy(c: Config, ptr: seq<byte>, k: Progress, e: Event): seq<Note>
    requires Ready(c, ptr, k)
  {
    if e.Other? && k.collecting && Accepts(c, k.st, |e.data|) > 0 then
      [(e.call.cpu, e.call.pid, e.call.time, e.data[..Accepts(c, k.st, |e.data|)])]
    else if e.Try? && k.collecting && k.thread.Running? && Accepts(c, k.st, |ptr| - k.taken) > 0 then
      [(e.call.cpu, e.call.pid, e.call.time, ptr[k.taken..k.taken + Accepts(c, k.st, |ptr| - k.taken)])]
    else []
  }

  ghost function Noted(c: Config, ptr: seq<byte>, k: Progress, events: seq<Event>): seq<Note>
    requires Ready(c, ptr, k)
  {
    if events == [] then []
    else
      var init := events[..|events| - 1];
      Noted(c, ptr, k, init) + NotedBy(c, ptr, AfterAll(c, ptr, k, init), events[|events| - 1])
  }

  lemma {:induction false} PlainSnoc(rs: seq<Record>, r: Record)
    ensures PlainRecords(rs + [r]) == PlainRecords(rs) + [(r.cpu, r.pid, r.time, r.payload)]
  {
    if rs == [] {
      assert rs + [r] == [r] && [r][1..] == [];
    } else {
      assert (rs + [r])[1..] == rs[1..] + [r];
      PlainSnoc(rs[1..], r);
    }
  }

  lemma BookNotes(c: Config, k: Progress, mine: bool, data: seq<byte>, call: Call, fault: Fault)
    requires Inv(c, k.st) && k.st.open && Accepts(c, k.st, |data|) > 0
    ensures PlainRecords(AllRecords(Book(c, k, mine, data, call, fault).entries))
         == PlainRecords(AllRecords(k.entries)) + [(call.cpu, call.pid, call.time, data[..Accepts(c, k.st, |data|)])]
  {
    hide Inv, AllRecords, PlainRecords, Booked, Portion, Copied, OurRecords, EntriesBytes, AllWhole;
    var r := Taken(c, k.st, data, call);
    EntriesSnoc(k.entries, Entry(mine, r, Portion(c, k.st, r, fault)));
    PlainSnoc(AllRecords(k.entries), r);
  }

  lemma EventNotes(c: Config, ptr: seq<byte>, k: Progress, e: Event)
    requires Ready(c, ptr, k)
    ensures PlainRecords(AllRecords(After(c, ptr, k, e).entries))
         == PlainRecords(AllRecords(k.entries)) + NotedBy(c, ptr, k, e)
  {
    hide Inv, AllRecords, PlainRecords, Book, Accepts, ReaderNext;
    var before := PlainRecords(AllRecords(k.entries));
    assert before + [] == before;
    match e {
      case Other(data, call, fault) =>
        if k.collecting && Accepts(c, k.st, |data|) > 0 {
          BookNotes(c, k, false, data, call, fault);
        }
      case Try(call) =>
        if k.thread.Running? && k.collecting && Accepts(c, k.st, |ptr| - k.taken) > 0 {
          BookNotes(c, k, true, ptr[k.taken..], call, NoFault);
          var n := Accepts(c, k.st, |ptr| - k.taken);
          assert ptr[k.taken..][..n] == ptr[k.taken..k.taken + n];
        }
      case _ =>
    }
  }

  /** The records are, in order, those of the passes that took something. */
  lemma {:induction false} ScheduleNotes(c: Config, ptr: seq<byte>, k: Progress, events: seq<Event>)
    requires Ready(c, ptr, k)
    ensures PlainRecords(AllRecords(AfterAll(c, ptr, k, events).entries))
         == PlainRecords(AllRecords(k.entries)) + Noted(c, ptr, k, events)
  {
    hide Ready, After, AllRecords, PlainRecords, NotedBy;
    var before := PlainRecords(AllRecords(k.entries));
    if events == [] {
      assert before + [] == before;
    } else {
      var init := events[..|events| - 1];
      var mid := AfterAll(c, ptr, k, init);
      ScheduleNotes(c, ptr, k, init);
      EventNotes(c, ptr, mid, events[|events| - 1]);
      var a, b := Noted(c, ptr, k, init), NotedBy(c, ptr, mid, events[|events| - 1]);
      assert before + a + b == before + (a + b);
    }
  }

  // ------------------------------------------------------------------ whether it ends

  /** The state before the `n`th event of an endless schedule. */
  ghost function Moment(c: Config, ptr: seq<byte>, k: Progress, schedule: nat -> Event, n: nat): (k': Progress)
    requires Ready(c, ptr, k)
    ensures Ready(c, ptr, k')
    decreases n
  {
    if n == 0 then k else After(c, ptr, Moment(c, ptr, k, schedule, n - 1), schedule(n - 1))
  }

  /** Our thread finds the ring full at the `n`th event. */
  ghost predicate FullAt(c: Config, ptr: seq<byte>, k: Progress, schedule: nat -> Event, n: nat)
    requires Ready(c, ptr, k)
  {
    var now := Moment(c, ptr, k, schedule, n);
    schedule(n).Try? && now.thread.Running? && now.collecting && Accepts(c, now.st, |ptr| - now.taken) <= 0
  }

  /** Our thread makes a pass at the `n`th event and finds the committed data read. */
  ghost predicate DrainedAt(c: Config, ptr: seq<byte>, k: Progress, schedule: nat -> Event, n: nat)
    requires Ready(c, ptr, k)
  {
    schedule(n).Try? && Drained(c, Moment(c, ptr, k, schedule, n).st)
  }

  predicate TryAt(schedule: nat -> Event, n: nat) { schedule(n).Try? }

  ghost predicate TryFrom(schedule: nat -> Event, i: nat) {
    exists j: nat :: i <= j && TryAt(schedule, j)
  }

  /** Our thread keeps getting its turn, and whenever it finds the ring full there is a later turn at
      which the reader has caught up. */
  ghost predicate Fair(c: Config, ptr: seq<byte>, k: Progress, schedule: nat -> Event)
    requires Ready(c, ptr, k)
  {
    && (forall i: nat :: TryFrom(schedule, i))
    && (forall i: nat :: FullAt(c, ptr, k, schedule, i) ==>
          exists j: nat :: i < j && DrainedAt(c, ptr, k, schedule, j))
  }

  /** No signal, no fault, and collecting is never switched off. */
  ghost predicate Undisturbed(schedule: nat -> Event) {
    forall i: nat :: Quiet(schedule(i))
  }

  predicate Quiet(e: Event) { !e.Signal? && (e.Collect? ==> e.on) && Faultless(e) }

  predicate Faultless(e: Event) { e.Other? ==> e.fault.NoFault? }

  /** No copy of another thread faults. */
  ghost predicate NoFaults(schedule: nat -> Event) {
    forall i: nat :: Faultless(schedule(i))
  }

  lemma FaultlessEvent(c: Config, log: seq<byte>, ptr: seq<byte>, k: Progress, e: Event)
    requires Sound(c, log, ptr, k) && AllWhole(k.entries) && Faultless(e)
    ensures AllWhole(After(c, ptr, k, e).entries)
  {
    hide Inv, BelowMark, AllWhole, OurRecords, EntriesBytes, Payloads, Book, ReaderNext, Accepts;
    match e {
      case Other(data, call, fault) =>
        if k.collecting && Accepts(c, k.st, |data|) > 0 {
          BookSound(c, log, k, false, data, call, fault);
        }
      case Try(call) =>
        if k.thread.Running? && k.collecting && Accepts(c, k.st, |ptr| - k.taken) > 0 {
          BookSound(c, log, k, true, ptr[k.taken..], call, NoFault);
        }
      case _ =>
    }
  }

  lemma {:induction false} FaultlessMoment(c: Config, log: seq<byte>, ptr: seq<byte>, k: Progress,
                                           schedule: nat -> Event, n: nat)
    requires Sound(c, log, ptr, k) && AllWhole(k.entries) && NoFaults(schedule)
    ensures Ready(c, ptr, k) && AllWhole(Moment(c, ptr, k, schedule, n).entries)
    decreases n
  {
    hide Sound, After, Ready, AllWhole;
    SoundReady(c, log, ptr, k);
    if n > 0 {
      FaultlessMoment(c, log, ptr, k, schedule, n - 1);
      MomentSound(c, log, ptr, k, schedule, n - 1);
      assert Faultless(schedule(n - 1));
      FaultlessEvent(c, log, ptr, Moment(c, ptr, k, schedule, n - 1), schedule(n - 1));
    }
  }

  lemma {:induction false} MomentSound(c: Config, log: seq<byte>, ptr: seq<byte>, k: Progress,
                                       schedule: nat -> Event, n: nat)
    requires Sound(c, log, ptr, k)
    ensures Ready(c, ptr, k) && Sound(c, log, ptr, Moment(c, ptr, k, schedule, n))
    decreases n
  {
    hide Sound, After, Ready;
    SoundReady(c, log, ptr, k);
    if n > 0 {
      MomentSound(c, log, ptr, k, schedule, n - 1);
      EventSound(c, log, ptr, Moment(c, ptr, k, schedule, n - 1), schedule(n - 1));
    }
  }

  /** The message only gets shorter, and a thread out of its loop stays out. */
  lemma EventGrows(c: Config, ptr: seq<byte>, k: Progress, e: Event)
    requires Ready(c, ptr, k)
    ensures var k' := After(c, ptr, k, e);
      k'.taken >= k.taken && (!k.thread.Running? ==> k'.thread == k.thread)
  {
    hide Inv, Check, Append, Committed;
  }

  lemma {:induction false} MomentGrows(c: Config, ptr: seq<byte>, k: Progress, schedule: nat -> Event, i: nat, j: nat)
    requires Ready(c, ptr, k) && i <= j
    ensures var a, b := Moment(c, ptr, k, schedule, i), Moment(c, ptr, k, schedule, j);
      b.taken >= a.taken && (!a.thread.Running? ==> b.thread == a.thread)
    decreases j
  {
    hide Ready, After;
    if i < j {
      MomentGrows(c, ptr, k, schedule, i, j - 1);
      EventGrows(c, ptr, Moment(c, ptr, k, schedule, j - 1), schedule(j - 1));
    }
  }

  /** A pass that finds room, or finds that nothing is collected, gets on. */
  lemma PassGetsOn(c: Config, ptr: seq<byte>, k: Progress, call: Call)
    requires Ready(c, ptr, k) && k.thread.Running?
    requires !k.collecting || Accepts(c, k.st, |ptr| - k.taken) > 0
    ensures var k' := After(c, ptr, k, Try(call)); !k'.thread.Running? || k'.taken > k.taken
  {
    hide Inv, Check, Append, Committed;
  }

  /** From any point on, the loop ends. */
  lemma {:induction false} EndsFrom(c: Config, log: seq<byte>, ptr: seq<byte>, k: Progress,
                                    schedule: nat -> Event, i: nat) returns (n: nat)
    requires Sound(c, log, ptr, k) && LargeEnough(c) && |ptr| <= COUNT_MASK
    requires Ready(c, ptr, k) && Fair(c, ptr, k, schedule) && AllWhole(k.entries) && NoFaults(schedule)
    ensures !Moment(c, ptr, k, schedule, n).thread.Running?
    decreases |ptr| - Moment(c, ptr, k, schedule, i).taken
  {
    hide Sound, Ready, After, Moment, Accepts, Drained, LargeEnough, AllWhole, NoFaults;
    n := i;
    var a := Moment(c, ptr, k, schedule, i);
    MomentTaken(c, ptr, k, schedule, i);
    if a.thread.Running? {
      assert TryFrom(schedule, i);
      var j: nat :| i <= j && TryAt(schedule, j);
      MomentGrows(c, ptr, k, schedule, i, j);
      if FullAt(c, ptr, k, schedule, j) {
        var l: nat :| j < l && DrainedAt(c, ptr, k, schedule, l);
        MomentGrows(c, ptr, k, schedule, i, l);
        j := l;
        DrainedGetsOn(c, log, ptr, k, schedule, j);
      }
      var b := Moment(c, ptr, k, schedule, j);
      n := j;
      if b.thread.Running? {
        TryGetsOn(c, ptr, k, schedule, j);
        n := j + 1;
        MomentTaken(c, ptr, k, schedule, n);
        if Moment(c, ptr, k, schedule, n).thread.Running? {
          n := EndsFrom(c, log, ptr, k, schedule, j + 1);
        }
      }
    }
  }

  lemma MomentTaken(c: Config, ptr: seq<byte>, k: Progress, schedule: nat -> Event, i: nat)
    requires Ready(c, ptr, k)
    ensures Moment(c, ptr, k, schedule, i).taken <= |ptr|
  {
  }

  lemma DrainedGetsOn(c: Config, log: seq<byte>, ptr: seq<byte>, k: Progress, schedule: nat -> Event, j: nat)
    requires Sound(c, log, ptr, k) && LargeEnough(c) && |ptr| <= COUNT_MASK
    requires Ready(c, ptr, k) && DrainedAt(c, ptr, k, schedule, j) && AllWhole(k.entries) && NoFaults(schedule)
    ensures !FullAt(c, ptr, k, schedule, j)
  {
    hide Inv, BelowMark, Moment, AllWhole, OurRecords, EntriesBytes, Payloads, Accepts, Drained, LargeEnough, NoFaults;
    MomentSound(c, log, ptr, k, schedule, j);
    FaultlessMoment(c, log, ptr, k, schedule, j);
    var b := Moment(c, ptr, k, schedule, j);
    DrainedTakes(c, b.st, |ptr| - b.taken);
  }

  lemma TryGetsOn(c: Config, ptr: seq<byte>, k: Progress, schedule: nat -> Event, j: nat)
    requires Ready(c, ptr, k) && TryAt(schedule, j) && !FullAt(c, ptr, k, schedule, j)
    requires Moment(c, ptr, k, schedule, j).thread.Running?
    ensures var a, b := Moment(c, ptr, k, schedule, j), Moment(c, ptr, k, schedule, j + 1);
      !b.thread.Running? || b.taken > a.taken
  {
    hide Ready, After, Accepts;
    PassGetsOn(c, ptr, Moment(c, ptr, k, schedule, j), schedule(j).call);
  }

  /** Undisturbed, a thread leaves its loop only when it is through. */
  lemma {:induction false} QuietMoment(c: Config, ptr: seq<byte>, k: Progress, schedule: nat -> Event, n: nat)
    requires Ready(c, ptr, k) && Undisturbed(schedule) && k.collecting && (k.thread.Running? || k.thread.Finished?)
    ensures var a := Moment(c, ptr, k, schedule, n); a.collecting && (a.thread.Running? || a.thread.Finished?)
    decreases n
  {
    hide Ready, After;
    if n > 0 {
      QuietMoment(c, ptr, k, schedule, n - 1);
      assert Quiet(schedule(n - 1));
      QuietEvent(c, ptr, Moment(c, ptr, k, schedule, n - 1), schedule(n - 1));
    }
  }

  lemma QuietEvent(c: Config, ptr: seq<byte>, k: Progress, e: Event)
    requires Ready(c, ptr, k) && Quiet(e) && k.collecting && (k.thread.Running? || k.thread.Finished?)
    ensures var a := After(c, ptr, k, e); a.collecting && (a.thread.Running? || a.thread.Finished?)
  {
    hide Inv, Check, Append, Committed;
  }

  lemma QuietFaultless(schedule: nat -> Event)
    requires Undisturbed(schedule)
    ensures NoFaults(schedule)
  {
    forall i: nat
      ensures Faultless(schedule(i))
    {
      assert Quiet(schedule(i));
    }
  }

  /** Under every fair and undisturbed schedule `kannotate_write` gets the whole message into the ring if
      and only if the message has fewer than 2^31 bytes; a longer one leaves a count whose low 31 bits are
      zero, for which the call waits for ever. */
  lemma FinishesExactly(c: Config, s: State, ptr: seq<byte>, schedule: nat -> Event)
    requires Inv(c, s) && s.open && BelowMark(c, s) && LargeEnough(c)
    requires Ready(c, ptr, Begin(s, true, ptr)) && Fair(c, ptr, Begin(s, true, ptr), schedule)
    requires Undisturbed(schedule)
    ensures (exists n: nat :: Moment(c, ptr, Begin(s, true, ptr), schedule, n).thread.Finished?)
       <==> |ptr| <= COUNT_MASK
  {
    hide Inv, BelowMark, Fair, Moment, OurRecords, EntriesBytes, Payloads;
    var k := Begin(s, true, ptr);
    BeginSound(c, s, true, ptr);
    assert NoFaults(schedule) by { QuietFaultless(schedule); }
    if |ptr| <= COUNT_MASK {
      var n := EndsFrom(c, s.log, ptr, k, schedule, 0);
      QuietMoment(c, ptr, k, schedule, n);
      assert Moment(c, ptr, k, schedule, n).thread.Finished?;
    }
    if n: nat :| Moment(c, ptr, k, schedule, n).thread.Finished? {
      MomentSound(c, s.log, ptr, k, schedule, n);
    }
  }

  lemma NoReads(c: Config, s: State)
    requires ReaderOk(c, s)
    ensures Reads(c, s, 0) == s
  {
  }

  lemma {:induction false} MovesRead(c: Config, ptr: seq<byte>, k: Progress, schedule: nat -> Event, n: nat, i: nat)
    requires Ready(c, ptr, k) && forall j :: n <= j < n + i ==> schedule(j) == ReaderMoves
    ensures Moment(c, ptr, k, schedule, n + i).st == Reads(c, Moment(c, ptr, k, schedule, n).st, i)
    decreases i
  {
    hide Inv, ReaderOk, ReaderNext, Reads;
    InvReader(c, Moment(c, ptr, k, schedule, n).st);
    NoReads(c, Moment(c, ptr, k, schedule, n).st);
    if i > 0 {
      MovesRead(c, ptr, k, schedule, n, i - 1);
      ReadsSnoc(c, Moment(c, ptr, k, schedule, n).st, i - 1);
      assert schedule(n + i - 1) == ReaderMoves;
    }
  }

  /** The schedule in which the reader makes five steps before each of our passes. */
  function Steady(call: Call): nat -> Event {
    n => if n % 6 == 5 then Try(call) else ReaderMoves
  }

  /** Such a schedule is fair, so that the message always gets through. */
  lemma SteadyFair(c: Config, ptr: seq<byte>, k: Progress, call: Call)
    requires Ready(c, ptr, k)
    ensures Fair(c, ptr, k, Steady(call)) && Undisturbed(Steady(call))
  {
    hide Inv, Moment, Reads, Drained, Accepts;
    var schedule := Steady(call);
    forall i: nat
      ensures TryFrom(schedule, i)
    {
      assert TryAt(schedule, i + 5 - i % 6);
    }
    forall i: nat | FullAt(c, ptr, k, schedule, i)
      ensures exists j: nat :: i < j && DrainedAt(c, ptr, k, schedule, j)
    {
      MovesRead(c, ptr, k, schedule, i + 1, 5);
      FiveStepsDrain(c, Moment(c, ptr, k, schedule, i + 1).st);
      assert DrainedAt(c, ptr, k, schedule, i + 6);
    }
  }

  // ------------------------------------------------------------------ the loop on the ring

  /** `kannotate_write` on the ring itself, under any schedule: at the end of the given events, wherever
      that leaves the loop, the log has grown by exactly the records of the passes, cut short where a copy
      faulted; our records carry exactly the first `pos` bytes of the message; and if no copy faulted, the log
      reads back as the CPU, process, time and text of the passes that took something, in order. */
  method KAnnotateWrite(b: Buffer, ptr: seq<byte>, collecting: bool, events: seq<Event>, reader: Phase)
    returns (pos: nat, thread: Thread, ghost entries: seq<Entry>)
    requires b.Valid() && b.st.open && BelowMark(b.Cfg(), b.st) && PhaseIs(reader, b.st.reader)
    requires forall e :: e in events && e.Other? ==> FaultOk(e.fault, |e.data|)
    modifies b, b.buf
    ensures b.Valid() && b.st.open && (AllWhole(entries) ==> BelowMark(b.Cfg(), b.st))
    ensures Ready(b.Cfg(), ptr, Begin(old(b.st), collecting, ptr))
    ensures var k := AfterAll(b.Cfg(), ptr, Begin(old(b.st), collecting, ptr), events);
      b.st == k.st && pos == k.taken && thread == k.thread && entries == k.entries
    ensures b.st.log == old(b.st.log) + EntriesBytes(entries)
    ensures AllWhole(entries) ==>
      ParseRecords(EntriesBytes(entries)) == Records(Noted(b.Cfg(), ptr, Begin(old(b.st), collecting, ptr), events))
    ensures pos <= |ptr| && Payloads(OurRecords(entries)) == ptr[..pos] && (thread.Finished? ==> pos == |ptr|)
  {
    hide Inv, Represents, Wire, BelowMark, After, AllRecords, OurRecords, EntriesBytes, Payloads, ParseRecords, AllWhole,
         Noted, PlainRecords;
    ghost var c := b.Cfg();
    ghost var first := Begin(b.st, collecting, ptr);
    ghost var log := b.st.log;
    BeginSound(c, b.st, collecting, ptr);
    pos, thread := 0, if |ptr| == 0 then Finished else Running(false);
    var collect, phase := collecting, reader;
    var i := 0;
    ghost var k := first;
    assert events[..0] == [];
    while i < |events|
      invariant 0 <= i <= |events| && k == AfterAll(c, ptr, first, events[..i])
      invariant b.Valid() && b.st == k.st && PhaseIs(phase, b.st.reader)
      invariant pos == k.taken && thread == k.thread && collect == k.collecting
      invariant Sound(c, log, ptr, k)
    {
      ghost var e := events[i];
      AfterSnoc(c, ptr, first, events, i);
      EventSound(c, log, ptr, k, e);
      pos, thread, collect, phase := Happen(b, ptr, events[i], pos, thread, collect, phase, k);
      k := After(c, ptr, k, e);
      i := i + 1;
    }
    assert events[..i] == events;
    entries := k.entries;
    if AllWhole(entries) {
      WholeBytes(entries);
      ParseRecordsBytes(AllRecords(entries));
      ScheduleNotes(c, ptr, first, events);
      NothingNoted(Noted(c, ptr, first, events));
    }
  }

  lemma NothingNoted(notes: seq<Note>)
    ensures PlainRecords(AllRecords([])) + notes == notes
  {
  }

  lemma AfterSnoc(c: Config, ptr: seq<byte>, k: Progress, events: seq<Event>, i: nat)
    requires Ready(c, ptr, k) && i < |events|
    ensures AfterAll(c, ptr, k, events[..i + 1]) == After(c, ptr, AfterAll(c, ptr, k, events[..i]), events[i])
  {
    hide After, Ready;
    assert events[..i + 1][..i] == events[..i];
  }

  /** One event on the ring. */
  method Happen(b: Buffer, ptr: seq<byte>, e: Event, pos: nat, thread: Thread, collecting: bool, phase: Phase,
                ghost k: Progress)
    returns (pos': nat, thread': Thread, collecting': bool, phase': Phase)
    requires b.Valid() && b.st == k.st && PhaseIs(phase, b.st.reader)
    requires Ready(b.Cfg(), ptr, k) && pos == k.taken && thread == k.thread && collecting == k.collecting
    requires e.Other? ==> FaultOk(e.fault, |e.data|)
    modifies b, b.buf
    ensures b.Valid() && PhaseIs(phase', b.st.reader)
    ensures var k' := After(b.Cfg(), ptr, k, e);
      b.st == k'.st && pos' == k'.taken && thread' == k'.thread && collecting' == k'.collecting
  {
    hide Inv, Represents, Wire, Check, Append, Accepts, ReaderNext, Copied;
    pos', thread', collecting', phase' := pos, thread, collecting, phase;
    match e {
      case ReaderMoves => phase' := ReaderTurn(b, phase);
      case Other(data, call, fault) =>
        SameReader(b.Cfg(), b.st, data, call, fault);
        var _ := AnnotateWrite(b, collecting, data, call, fault);
      case Collect(on) => collecting' := on;
      case Try(call) =>
        if thread.Running? {
          SameReader(b.Cfg(), b.st, ptr[pos..], call, NoFault);
          var retval := AnnotateWrite(b, collecting, ptr[pos..], call, NoFault);
          if !collecting {
            thread' := Unheard;
          } else if retval.Full? {
            thread' := Running(true);
          } else {
            pos' := pos + retval.n;
            thread' := if pos' < |ptr| then Running(false) else Finished;
          }
        }
      case Signal =>
        if thread == Running(true) {
          thread' := Interrupted;
        }
    }
  }

  /** A pass leaves the reader alone. */
  lemma SameReader(c: Config, s: State, data: seq<byte>, call: Call, fault: Fault)
    requires Inv(c, s) && s.open
    ensures Accepts(c, s, |data|) > 0 ==>
      var r := Taken(c, s, data, call);
      Booked(c, s, Entry(true, r, Portion(c, s, r, fault)), call.now).reader == s.reader
  {
    hide Inv, Portion, Copied;
    if Accepts(c, s, |data|) > 0 {
      var r := Taken(c, s, data, call);
      BookInv(c, s, Entry(true, r, Portion(c, s, r, fault)), call.now);
    }
  }
}

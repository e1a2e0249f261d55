/** The frames in which the daemon forwards kernel perf events: a frame holds sections, a section
    holds whole events of one CPU as packed words, and both carry a size that is filled in late. */
module PerfFrames {
  import opened RingIndex
  import opened Leb128
  import opened Framing
  import opened Sequences

  const FRAME_PERF: byte := 12

  /** The words of one CPU in one frame. */
  datatype Section = Section(cpu: int32, words: seq<int64>)

  /** `perf_event_header.size` is the top 16 bits of an event's first word and counts bytes. */
  function EventWords(first: int64): nat {
    var x: int := first;
    var w := if x < 0 then x + 0x1_0000_0000_0000_0000 else x;
    w / 0x1_0000_0000_0000 / 8
  }

  /** The words are whole, non-empty events, each of at most `room` bytes when packed. */
  predicate Whole(words: seq<int64>, room: int)
  {
    words == [] ||
    var n := EventWords(words[0]);
    0 < n <= |words| && |EncodeAll(words[..n])| <= room && Whole(words[n..], room)
  }

  lemma {:induction false} WholeAppend(a: seq<int64>, b: seq<int64>, room: int)
    requires Whole(a, room) && Whole(b, room)
    ensures Whole(a + b, room)
  {
    hide EventWords, EncodeAll;
    if a == [] {
      assert a + b == b;
    } else {
      var n := EventWords(a[0]);
      WholeAppend(a[n..], b, room);
      assert (a + b)[n..] == a[n..] + b && (a + b)[..n] == a[..n];
    }
  }

  lemma WholeOne(e: seq<int64>, room: int)
    requires e != [] && |e| == EventWords(e[0]) && |EncodeAll(e)| <= room
    ensures Whole(e, room)
  {
    hide EncodeAll;
    assert e[|e|..] == [] && e[..|e|] == e;
  }

  lemma {:induction false} WordsLength(words: seq<int64>)
    ensures |EncodeAll(words)| <= MAXSIZE_PACK64 * |words|
  {
    if words != [] {
      Pack64Length(words[0]);
      WordsLength(words[1..]);
    }
  }

  function SectionBytes(s: Section): seq<byte> {
    var data := EncodeAll(s.words);
    Encode(s.cpu) + LittleEndian(|data|) + data
  }

  function SectionsBytes(ss: seq<Section>): seq<byte> {
    if ss == [] then [] else SectionsBytes(ss[..|ss| - 1]) + SectionBytes(ss[|ss| - 1])
  }

  function PerfPayload(ss: seq<Section>): (p: seq<byte>)
    ensures |p| > 0
  {
    [FRAME_PERF] + SectionsBytes(ss)
  }

  datatype ParsedSections = BadSections | Sections(ss: seq<(int, seq<int>)>)

  /** The reader of a payload after its frame type. */
  function ParseSections(s: seq<byte>): ParsedSections {
    if s == [] then Sections([])
    else
      match Decode(s)
      case Truncated => BadSections
      case Value(cpu, n) =>
        if |s| < n + LENGTH_BYTES then BadSections
        else
          var size := FromLittleEndian(s[n..n + LENGTH_BYTES]);
          var start := n + LENGTH_BYTES;
          if |s| < start + size then BadSections
          else
            match DecodeAll(s[start..start + size])
            case Malformed => BadSections
            case Values(xs) =>
              match ParseSections(s[start + size..])
              case BadSections => BadSections
              case Sections(rest) => Sections([(cpu, xs)] + rest)
  }

  function Plain(ss: seq<Section>): seq<(int, seq<int>)> {
    if ss == [] then [] else [(ss[0].cpu, ss[0].words)] + Plain(ss[1..])
  }

  lemma SectionsSnoc(ss: seq<Section>, s: Section)
    ensures SectionsBytes(ss + [s]) == SectionsBytes(ss) + SectionBytes(s)
  {
    assert (ss + [s])[..|ss|] == ss;
  }

  lemma {:induction false} SectionsCons(s: Section, ss: seq<Section>)
    ensures SectionsBytes([s] + ss) == SectionBytes(s) + SectionsBytes(ss)
  {
    hide SectionBytes;
    if ss == [] {
      SectionsSnoc([], s);
      assert [s] + ss == [] + [s];
    } else {
      var init, last := ss[..|ss| - 1], ss[|ss| - 1];
      assert [s] + ss == ([s] + init) + [last];
      SectionsSnoc([s] + init, last);
      SectionsCons(s, init);
    }
  }

  lemma ParseSection(s: Section, rest: seq<byte>)
    requires |EncodeAll(s.words)| < 0x1_0000_0000
    ensures ParseSections(SectionBytes(s) + rest)
         == match ParseSections(rest)
            case BadSections => BadSections
            case Sections(more) => Sections([(s.cpu, s.words)] + more)
  {
    hide Encode, Decode, EncodeAll, DecodeAll, LittleEndian, FromLittleEndian;
    var data := EncodeAll(s.words);
    var n := |Encode(s.cpu)|;
    var all := SectionBytes(s) + rest;
    assert all == Encode(s.cpu) + (LittleEndian(|data|) + data + rest);
    DecodeEncode(s.cpu, LittleEndian(|data|) + data + rest);
    assert all[n..n + LENGTH_BYTES] == LittleEndian(|data|);
    LittleEndianRoundTrip(|data|);
    var start := n + LENGTH_BYTES;
    assert all[start..start + |data|] == data;
    assert all[start + |data|..] == rest;
    DecodeAllEncodeAll(s.words);
  }

  /** The sections of a payload parse back to exactly what was packed. */
  lemma {:induction false} ParseSectionsBytes(ss: seq<Section>)
    requires forall s :: s in ss ==> |EncodeAll(s.words)| < 0x1_0000_0000
    ensures ParseSections(SectionsBytes(ss)) == Sections(Plain(ss))
  {
    if ss != [] {
      assert ss == [ss[0]] + ss[1..];
      SectionsCons(ss[0], ss[1..]);
      ParseSectionsBytes(ss[1..]);
      ParseSection(ss[0], SectionsBytes(ss[1..]));
    }
  }

  /** The words that a list of sections carries for one CPU. */
  function WordsOf(cpu: int, ss: seq<Section>): seq<int64> {
    if ss == [] then []
    else
      var last := ss[|ss| - 1];
      WordsOf(cpu, ss[..|ss| - 1]) + (if last.cpu == cpu then last.words else [])
  }

  lemma WordsSnoc(cpu: int, ss: seq<Section>, s: Section)
    ensures WordsOf(cpu, ss + [s]) == WordsOf(cpu, ss) + (if s.cpu == cpu then s.words else [])
  {
    assert (ss + [s])[..|ss|] == ss;
  }

  // ------------------------------------------------------------------ the frame under construction

  const BUF_SIZE := 0x1_0000

  /** Where the first event of a fresh frame goes. */
  function FreshPos(local: bool, cpu: int32): nat { Start(local) + 1 + |Encode(cpu)| + LENGTH_BYTES }

  /** The bytes that an event may have so that it fits a fresh frame. */
  function Room(local: bool, cpu: int32): int { BUF_SIZE - 1 - FreshPos(local, cpu) }

  /** Nothing yet, or complete sections and one open section. */
  datatype Build = Nothing | Building(closed: seq<Section>, cur: Section)

  function Start(local: bool): nat { TypeLength(local) + LENGTH_BYTES }

  /** The buffer holds the frame under construction, with holes for the two sizes. */
  ghost predicate Layout(local: bool, b: Build, buf: seq<byte>, writePos: int, cpuSizePos: int) {
    && |buf| == BUF_SIZE
    && match b
       case Nothing => writePos == -1 && cpuSizePos == -1
       case Building(closed, cur) =>
         var head := PerfPayload(closed) + Encode(cur.cpu);
         var data := EncodeAll(cur.words);
         && cpuSizePos == Start(local) + |head|
         && writePos == cpuSizePos + LENGTH_BYTES + |data| < BUF_SIZE
         && (!local ==> buf[0] == RESPONSE_APC_DATA)
         && buf[Start(local)..cpuSizePos] == head
         && buf[cpuSizePos + LENGTH_BYTES..writePos] == data
  }

  function Splice(buf: seq<byte>, at: nat, data: seq<byte>): (r: seq<byte>)
    requires at + |data| <= |buf|
    ensures |r| == |buf|
  {
    buf[..at] + data + buf[at + |data|..]
  }

  lemma SpliceKeeps(buf: seq<byte>, at: nat, data: seq<byte>, from: nat)
    requires from <= at && at + |data| <= |buf| && 0 < at
    ensures Splice(buf, at, data)[from..at] == buf[from..at]
    ensures Splice(buf, at, data)[at..at + |data|] == data
    ensures Splice(buf, at, data)[0] == buf[0]
  {
  }

  /** A stretch on either side of the splice is unchanged. */
  lemma SpliceAside(buf: seq<byte>, at: nat, data: seq<byte>, from: nat, to: nat)
    requires from <= to <= |buf| && at + |data| <= |buf| && (to <= at || at + |data| <= from)
    ensures Splice(buf, at, data)[from..to] == buf[from..to]
  {
  }

  lemma SliceJoin(s: seq<byte>, a: nat, b: nat, c: nat)
    requires a <= b <= c <= |s|
    ensures s[a..c] == s[a..b] + s[b..c]
  {
  }

  /** The sections of the frame under construction. */
  function Sealed(b: Build): seq<Section> {
    match b
    case Nothing => []
    case Building(closed, cur) => closed + [cur]
  }

  /** `writeCpuSize`: the open section becomes complete. */
  lemma SealSection(local: bool, b: Build, buf: seq<byte>, writePos: int, cpuSizePos: int)
    requires b.Building? && Layout(local, b, buf, writePos, cpuSizePos)
    ensures cpuSizePos >= 0 && cpuSizePos + LENGTH_BYTES <= writePos
    ensures var after := Splice(buf, cpuSizePos, LittleEndian(writePos - cpuSizePos - LENGTH_BYTES));
      && after[Start(local)..writePos] == PerfPayload(Sealed(b))
      && (!local ==> after[0] == RESPONSE_APC_DATA)
  {
    hide EncodeAll, Encode, SectionsBytes, LittleEndian, Splice;
    var from, mid := Start(local), cpuSizePos + LENGTH_BYTES;
    var head := PerfPayload(b.closed) + Encode(b.cur.cpu);
    var data := EncodeAll(b.cur.words);
    var size := LittleEndian(|data|);
    var after := Splice(buf, cpuSizePos, size);
    SectionsSnoc(b.closed, b.cur);
    assert PerfPayload(Sealed(b)) == head + size + data;
    SpliceKeeps(buf, cpuSizePos, size, from);
    SpliceAside(buf, cpuSizePos, size, mid, writePos);
    SliceJoin(after, from, cpuSizePos, mid);
    SliceJoin(after, from, mid, writePos);
  }

  /** `writeFrameSize`: with both sizes in place the buffer is a frame of the wire format. */
  lemma SealFrame(local: bool, b: Build, buf: seq<byte>, writePos: int)
    requires |buf| == BUF_SIZE && Start(local) <= writePos < BUF_SIZE
    requires buf[Start(local)..writePos] == PerfPayload(Sealed(b))
    requires !local ==> buf[0] == RESPONSE_APC_DATA
    ensures Splice(buf, TypeLength(local), LittleEndian(writePos - Start(local)))[..writePos]
         == Frame(local, PerfPayload(Sealed(b)))
  {
    hide SectionsBytes, LittleEndian;
    var t, from := TypeLength(local), Start(local);
    var size := LittleEndian(writePos - from);
    var after := Splice(buf, t, size);
    assert after[..t] == if local then [] else [RESPONSE_APC_DATA];
    assert after[t..from] == size;
    SpliceAside(buf, t, size, from, writePos);
    SliceJoin(after, 0, t, from);
    SliceJoin(after, 0, from, writePos);
  }

  /** A section header: the CPU, and room for the size. */
  lemma OpenSection(local: bool, ss: seq<Section>, cpu: int32, buf: seq<byte>, pos: nat)
    requires |buf| == BUF_SIZE && Start(local) <= pos
    requires pos + |Encode(cpu)| + LENGTH_BYTES < BUF_SIZE
    requires buf[Start(local)..pos] == PerfPayload(ss) && (!local ==> buf[0] == RESPONSE_APC_DATA)
    requires buf[pos..pos + |Encode(cpu)|] == Encode(cpu)
    ensures Layout(local, Building(ss, Section(cpu, [])), buf,
                   pos + |Encode(cpu)| + LENGTH_BYTES, pos + |Encode(cpu)|)
  {
    hide Encode, SectionsBytes;
    var size := pos + |Encode(cpu)|;
    assert buf[Start(local)..size] == buf[Start(local)..pos] + buf[pos..size];
    assert EncodeAll([]) == [];
    assert buf[size + LENGTH_BYTES..size + LENGTH_BYTES] == [];
  }

  /** One more word in the open section. */
  lemma AddWord(local: bool, b: Build, buf: seq<byte>, after: seq<byte>, writePos: int, cpuSizePos: int, w: int64)
    requires b.Building? && Layout(local, b, buf, writePos, cpuSizePos)
    requires writePos + |Encode(w)| < BUF_SIZE && after == Splice(buf, writePos, Encode(w))
    ensures Layout(local, b.(cur := b.cur.(words := b.cur.words + [w])), after, writePos + |Encode(w)|, cpuSizePos)
  {
    hide Encode, SectionsBytes, Splice;
    var from, end := cpuSizePos + LENGTH_BYTES, writePos + |Encode(w)|;
    EncodeAllAppend(b.cur.words, [w]);
    assert EncodeAll([w]) == Encode(w) + EncodeAll([]);
    SpliceAside(buf, writePos, Encode(w), Start(local), cpuSizePos);
    SpliceKeeps(buf, writePos, Encode(w), from);
    SliceJoin(after, from, writePos, end);
  }

  lemma BufSizePow2()
    ensures IsPow2(BUF_SIZE)
  {
    assert Pow2(8) == 256;
    assert Pow2(12) == 4096;
    assert Pow2(16) == 65536;
  }

  /** Where the ring is not wrapped, `Pack` splices the code into the buffer. */
  lemma PackIsSplice(before: seq<byte>, after: seq<byte>, at: nat, data: seq<byte>)
    requires |before| > 0 && at + |data| <= |before| == |after|
    requires Holds(after, at, data) && Untouched(before, after, at, |data|)
    ensures after == Splice(before, at, data)
  {
    var n := |before|;
    forall i | 0 <= i < n
      ensures after[i] == Splice(before, at, data)[i]
    {
      if i < at {
        assert Wrap(i + n, n) == i;
        assert at + |data| <= i + n < at + n;
      } else if i < at + |data| {
        assert Wrap(i, n) == i;
      } else {
        assert Wrap(i, n) == i;
      }
    }
  }

  method PackFlat(buf: array<byte>, writePos: nat, x: int) returns (pos: nat)
    requires buf.Length == BUF_SIZE && writePos + |Encode(x)| < BUF_SIZE
    modifies buf
    ensures pos == writePos + |Encode(x)|
    ensures buf[..] == Splice(old(buf[..]), writePos, Encode(x))
  {
    hide Holds, Untouched, Encode, IsPow2;
    BufSizePow2();
    pos := Pack(buf, BUF_SIZE, writePos, x, writePos);
    PackIsSplice(old(buf[..]), buf[..], writePos, Encode(x));
  }

  /** `Buffer::writeLEInt`. */
  method WriteLEInt(buf: array<byte>, at: nat, v: nat)
    requires at + LENGTH_BYTES <= buf.Length
    modifies buf
    ensures buf[..] == Splice(old(buf[..]), at, LittleEndian(v))
  {
    buf[at] := v % 256;
    buf[at + 1] := v / 256 % 256;
    buf[at + 2] := v / 65536 % 256;
    buf[at + 3] := v / 16777216 % 256;
  }

  class PerfFrame {
    const local: bool
    const buf: array<byte>
    var writePos: int
    var cpuSizePos: int
    /** The frames given to the sender. */
    var sender: seq<seq<byte>>
    ghost var build: Build
    ghost var sent: seq<seq<Section>>

    ghost predicate Valid()
      reads this, buf
    {
      && buf.Length == BUF_SIZE
      && Layout(local, build, buf[..], writePos, cpuSizePos)
      && |sender| == |sent|
      && forall i :: 0 <= i < |sent| ==> sender[i] == Frame(local, PerfPayload(sent[i])) && |sender[i]| < BUF_SIZE
    }

    /** Every section so far, in order. */
    ghost function All(): seq<Section>
      reads this
    {
      Concat(sent) + Sealed(build)
    }

    constructor (local: bool)
      ensures Valid() && fresh(buf) && this.local == local
      ensures build == Nothing && sent == [] && sender == []
    {
      this.local := local;
      buf := new byte[BUF_SIZE];
      writePos, cpuSizePos, sender, build, sent := -1, -1, [], Nothing, [];
    }

    method Send()
      requires Valid()
      modifies this, buf
      ensures Valid() && build == Nothing && All() == old(All())
      ensures sent == (if old(build).Nothing? then old(sent) else old(sent) + [Sealed(old(build))])
    {
      hide PerfPayload, LittleEndian, Splice, Concat, Frame;
      LayoutStarted(local, build, buf[..], writePos, cpuSizePos);
      if writePos > 0 {
        WriteCpuSize();
        SealFrame(local, build, buf[..], writePos);
        WriteLEInt(buf, if local then 0 else 1, writePos - (if local then 0 else 1) - LENGTH_BYTES);
        assert buf[..][..writePos] == buf[..writePos];
        sender := sender + [buf[..writePos]];
        ConcatSnoc(sent, Sealed(build));
        sent := sent + [Sealed(build)];
        build := Nothing;
        writePos, cpuSizePos := -1, -1;
      }
    }

    method WriteCpuSize()
      requires Valid() && build.Building?
      modifies buf
      ensures Start(local) <= writePos && buf[..][Start(local)..writePos] == PerfPayload(Sealed(build))
      ensures !local ==> buf[0] == RESPONSE_APC_DATA
    {
      hide PerfPayload, LittleEndian, Splice;
      SealSection(local, build, buf[..], writePos, cpuSizePos);
      if cpuSizePos >= 0 {
        WriteLEInt(buf, cpuSizePos, writePos - cpuSizePos - LENGTH_BYTES);
      }
    }

    /** Response type, room for the frame size, frame type. */
    method FrameHeader()
      requires Valid() && build.Nothing?
      modifies buf, this`writePos
      ensures writePos == Start(local) + 1
      ensures buf[..][Start(local)..writePos] == PerfPayload([]) && (!local ==> buf[0] == RESPONSE_APC_DATA)
    {
      writePos := 0;
      if !local {
        buf[writePos] := RESPONSE_APC_DATA;
        writePos := writePos + 1;
      }
      writePos := writePos + LENGTH_BYTES;
      EncodeSmall(FRAME_PERF);
      writePos := PackFlat(buf, writePos, FRAME_PERF);
    }

    /** Start a section for `cpu`, in a new frame if this one is full. */
    method CpuHeader(cpu: int32)
      requires Valid()
      modifies this, buf
      ensures Valid() && build.Building? && build.cur == Section(cpu, [])
      ensures All() == old(All()) + [Section(cpu, [])]
      ensures old(build).Nothing? ==> writePos == Start(local) + 1 + |Encode(cpu)| + LENGTH_BYTES
      ensures sent == if BUF_SIZE <= old(writePos) + MAXSIZE_PACK32 + LENGTH_BYTES then old(sent) + [Sealed(old(build))]
                      else old(sent)
    {
      hide PerfPayload, Encode, Splice;
      Pack32Length(cpu);
      if BUF_SIZE <= writePos + MAXSIZE_PACK32 + LENGTH_BYTES {
        Send();
      }
      ghost var done := Sealed(build);
      if writePos < 0 {
        FrameHeader();
      } else {
        WriteCpuSize();
      }
      StartSection(cpu, done);
      assert Concat(sent) + (done + [Section(cpu, [])]) == Concat(sent) + done + [Section(cpu, [])];
    }

    method StartSection(cpu: int32, ghost done: seq<Section>)
      requires buf.Length == BUF_SIZE && Start(local) < writePos
      requires writePos + MAXSIZE_PACK32 + LENGTH_BYTES < BUF_SIZE
      requires buf[..][Start(local)..writePos] == PerfPayload(done) && (!local ==> buf[0] == RESPONSE_APC_DATA)
      modifies buf, this`writePos, this`cpuSizePos, this`build
      ensures build == Building(done, Section(cpu, []))
      ensures Layout(local, build, buf[..], writePos, cpuSizePos)
      ensures writePos == old(writePos) + |Encode(cpu)| + LENGTH_BYTES
    {
      hide PerfPayload, Encode, Splice;
      Pack32Length(cpu);
      ghost var before := buf[..];
      ghost var pos := writePos;
      writePos := PackFlat(buf, writePos, cpu);
      cpuSizePos := writePos;
      writePos := writePos + LENGTH_BYTES;
      SpliceKeeps(before, pos, Encode(cpu), Start(local));
      OpenSection(local, done, cpu, buf[..], pos);
      build := Building(done, Section(cpu, []));
    }

    /** Pack `count` words of the kernel's ring, which the frame has room for. */
    method PackEvent(ring: seq<int64>, tail: nat, count: nat)
      requires Valid() && build.Building? && IsPow2(|ring|) && |ring| > 0
      requires writePos + |EncodeAll(RingWords(ring, tail, count))| < BUF_SIZE
      modifies this`writePos, this`build, buf
      ensures Valid() && build == WithWords(old(build), RingWords(ring, tail, count))
      ensures writePos == old(writePos) + |EncodeAll(RingWords(ring, tail, count))|
    {
      hide PerfFrame.Valid, IsPow2, Encode, EncodeAll, RingWords, Wrap;
      ghost var first := build;
      RingWordsNone(ring, tail);
      assert WithWords(first, []) == first by { NoWords(first); }
      var i := 0;
      while i < count
        invariant 0 <= i <= count && build == WithWords(first, RingWords(ring, tail, i))
        invariant Valid()
        invariant writePos + |EncodeAll(RingWords(ring, tail + i, count - i))|
               == old(writePos) + |EncodeAll(RingWords(ring, tail, count))|
      {
        MaskIsWrap(tail + i, |ring|);
        RingWordsFirst(ring, tail + i, count - i);
        PackWord(ring[BitAnd(tail + i, |ring| - 1)]);
        WordsGrow(first, ring, tail, i);
        i := i + 1;
      }
      RingWordsNone(ring, tail + count);
    }

    method PackWord(w: int64)
      requires Valid() && build.Building? && writePos + |Encode(w)| < BUF_SIZE
      modifies this`writePos, this`build, buf
      ensures Valid() && build == WithWords(old(build), [w]) && writePos == old(writePos) + |Encode(w)|
    {
      hide Layout, Frame, PerfPayload, Splice, Encode;
      LayoutBounds(local, build, buf[..], writePos, cpuSizePos);
      ghost var before := buf[..];
      ghost var pos := writePos;
      writePos := PackFlat(buf, writePos, w);
      AddWord(local, build, before, buf[..], pos, cpuSizePos, w);
      build := WithWords(build, [w]);
    }

    /** The event at `t`, in this frame if it has room for it and in a new one otherwise. */
    method AddEvent(cpu: int32, ring: seq<int64>, t: nat) returns (count: nat)
      requires Valid() && IsPow2(|ring|) && |ring| > 0
      requires build.Building? && build.cur.cpu == cpu && AllWhole(local, All())
      requires var n := EventWords(ring[Wrap(t, |ring|)]);
               && |EncodeAll(RingWords(ring, t, n))| <= Room(local, cpu)
               && Whole(RingWords(ring, t, n), Room(local, cpu))
      modifies this, buf
      ensures Valid() && build.Building? && build.cur.cpu == cpu && AllWhole(local, All())
      ensures count == EventWords(ring[Wrap(t, |ring|)])
      ensures Carries(All(), old(All()), cpu, RingWords(ring, t, count))
      ensures RingWords(ring, t, count) == Ending(build.cur.words, count)
      ensures sent == if BUF_SIZE <= old(writePos) + count * MAXSIZE_PACK64 then old(sent) + [Sealed(old(build))]
                      else old(sent)
    {
      hide Layout, IsPow2, Frame, PerfPayload, Encode, EncodeAll, Concat, WordsOf, RingWords, Whole, AllWhole, Carries;
      ghost var first := All();
      MaskIsWrap(t, |ring|);
      count := EventWords(ring[BitAnd(t, |ring| - 1)]);
      CarriesNothing(first, cpu);
      WordsLength(RingWords(ring, t, count));
      if BUF_SIZE <= writePos + count * MAXSIZE_PACK64 {
        Send();
        LayoutStarted(local, build, buf[..], writePos, cpuSizePos);
        CpuHeader(cpu);
        EmptySection(local, first, cpu);
      }
      ghost var before, b := All(), build;
      PackEvent(ring, t, count);
      EventAdded(local, sent, b, RingWords(ring, t, count));
      CarriesMore(All(), before, first, cpu, [], RingWords(ring, t, count));
      EndingIs(b.cur.words, RingWords(ring, t, count));
      assert [] + RingWords(ring, t, count) == RingWords(ring, t, count);
    }

    /** All events of one CPU's ring from `tail` to `head`: afterwards the frames carry exactly those
        words more, for that CPU and in order, and still only whole events per section. */
    method Add(cpu: int32, head: nat, tail: nat, ring: seq<int64>)
      requires Valid() && IsPow2(|ring|) && |ring| > 0 && tail <= head
      requires Whole(RingWords(ring, tail, head - tail), Room(local, cpu))
      requires AllWhole(local, All())
      modifies this, buf
      ensures Valid() && AllWhole(local, All())
      ensures Carries(All(), old(All()), cpu, RingWords(ring, tail, head - tail))
    {
      hide PerfFrame.Valid, PerfFrame.All, IsPow2, RingWords, Whole, Room, AllWhole, Carries, EventWords;
      ghost var first := All();
      CpuHeader(cpu);
      EmptySection(local, first, cpu);
      RingWordsNone(ring, tail);
      var t := tail;
      while head > t
        invariant tail <= t <= head
        invariant Valid() && build.Building? && build.cur.cpu == cpu
        invariant AllWhole(local, All()) && Whole(RingWords(ring, t, head - t), Room(local, cpu))
        invariant Carries(All(), first, cpu, RingWords(ring, tail, t - tail))
      {
        FirstEvent(ring, t, head, local, cpu);
        ghost var before := All();
        var count := AddEvent(cpu, ring, t);
        CarriesMore(All(), before, first, cpu, RingWords(ring, tail, t - tail), RingWords(ring, t, count));
        RingWordsJoin(ring, tail, t - tail, count);
        t := t + count;
      }
    }
  }

  /** The last `n` words. */
  function Ending(words: seq<int64>, n: nat): seq<int64> {
    if n <= |words| then words[|words| - n..] else words
  }

  lemma EndingIs(a: seq<int64>, b: seq<int64>)
    ensures Ending(a + b, |b|) == b
  {
  }

  /** The first of some words of a ring. */
  lemma RingWordsFirst(ring: seq<int64>, tail: nat, count: nat)
    requires |ring| > 0 && count > 0
    ensures |EncodeAll(RingWords(ring, tail, count))|
         == |Encode(ring[Wrap(tail, |ring|)])| + |EncodeAll(RingWords(ring, tail + 1, count - 1))|
  {
    hide Encode, Wrap;
    assert RingWords(ring, tail, count)[1..] == RingWords(ring, tail + 1, count - 1);
  }

  lemma NoWords(b: Build)
    requires b.Building?
    ensures WithWords(b, []) == b
  {
    assert b.cur.words + [] == b.cur.words;
  }

  lemma RingWordsNone(ring: seq<int64>, tail: nat)
    requires |ring| > 0
    ensures RingWords(ring, tail, 0) == [] && EncodeAll(RingWords(ring, tail, 0)) == []
  {
  }

  lemma CarriesNothing(ss: seq<Section>, cpu: int32)
    ensures Carries(ss, ss, cpu, [])
  {
    assert forall c :: WordsOf(c, ss) + [] == WordsOf(c, ss);
  }

  lemma LayoutStarted(local: bool, b: Build, buf: seq<byte>, writePos: int, cpuSizePos: int)
    requires Layout(local, b, buf, writePos, cpuSizePos)
    ensures writePos > 0 <==> b.Building?
    ensures b.Building? ==> Start(local) <= writePos < BUF_SIZE
    ensures b.Nothing? ==> writePos == -1 && cpuSizePos == -1
  {
  }

  lemma LayoutBounds(local: bool, b: Build, buf: seq<byte>, writePos: int, cpuSizePos: int)
    requires b.Building? && Layout(local, b, buf, writePos, cpuSizePos)
    ensures 0 < writePos < BUF_SIZE
  {
  }

  /** The `count` words of a ring from the word position `tail` on. */
  ghost function RingWords(ring: seq<int64>, tail: nat, count: nat): (r: seq<int64>)
    requires |ring| > 0
    ensures |r| == count
  {
    seq(count, i requires 0 <= i < count => ring[Wrap(tail + i, |ring|)])
  }

  function WithWords(b: Build, more: seq<int64>): Build
    requires b.Building?
  {
    b.(cur := b.cur.(words := b.cur.words + more))
  }

  lemma WordsGrow(b: Build, ring: seq<int64>, tail: nat, i: nat)
    requires b.Building? && |ring| > 0
    ensures WithWords(b, RingWords(ring, tail, i + 1))
         == WithWords(WithWords(b, RingWords(ring, tail, i)), [ring[Wrap(tail + i, |ring|)]])
  {
    assert RingWords(ring, tail, i + 1) == RingWords(ring, tail, i) + [ring[Wrap(tail + i, |ring|)]];
    var w := b.cur.words;
    assert w + RingWords(ring, tail, i + 1) == w + RingWords(ring, tail, i) + [ring[Wrap(tail + i, |ring|)]];
  }

  lemma RingWordsJoin(ring: seq<int64>, tail: nat, m: nat, n: nat)
    requires |ring| > 0
    ensures RingWords(ring, tail, m + n) == RingWords(ring, tail, m) + RingWords(ring, tail + m, n)
  {
  }

  /** No event straddles a section. */
  ghost predicate AllWhole(local: bool, ss: seq<Section>) {
    forall s :: s in ss ==> Whole(s.words, Room(local, s.cpu))
  }

  /** `now` carries the words of `before` and, for `cpu`, `more`. */
  ghost predicate Carries(now: seq<Section>, before: seq<Section>, cpu: int32, more: seq<int64>) {
    forall c :: WordsOf(c, now) == WordsOf(c, before) + (if c == cpu then more else [])
  }

  lemma EmptySection(local: bool, ss: seq<Section>, cpu: int32)
    ensures AllWhole(local, ss) ==> AllWhole(local, ss + [Section(cpu, [])])
    ensures Carries(ss + [Section(cpu, [])], ss, cpu, [])
  {
    hide WordsOf;
    forall c
      ensures WordsOf(c, ss + [Section(cpu, [])]) == WordsOf(c, ss) + []
    {
      WordsSnoc(c, ss, Section(cpu, []));
      assert WordsOf(c, ss) + [] == WordsOf(c, ss);
    }
  }

  lemma CarriesMore(now: seq<Section>, mid: seq<Section>, before: seq<Section>, cpu: int32,
                    a: seq<int64>, b: seq<int64>)
    requires Carries(now, mid, cpu, b) && Carries(mid, before, cpu, a)
    ensures Carries(now, before, cpu, a + b)
  {
    hide WordsOf;
    forall c
      ensures WordsOf(c, now) == WordsOf(c, before) + (if c == cpu then a + b else [])
    {
      assert WordsOf(c, before) + a + b == WordsOf(c, before) + (a + b);
      assert WordsOf(c, before) + [] + [] == WordsOf(c, before) + [];
    }
  }

  lemma LastWhole(local: bool, base: seq<Section>, last: Section, e: seq<int64>)
    requires AllWhole(local, base + [last]) && Whole(e, Room(local, last.cpu))
    ensures AllWhole(local, base + [Section(last.cpu, last.words + e)])
  {
    hide Room, Whole;
    var now := Section(last.cpu, last.words + e);
    assert last in base + [last];
    WholeAppend(last.words, e, Room(local, last.cpu));
    forall s | s in base + [now]
      ensures Whole(s.words, Room(local, s.cpu))
    {
      if s in base { assert s in base + [last]; }
    }
  }

  lemma LastCarries(base: seq<Section>, last: Section, e: seq<int64>)
    ensures Carries(base + [Section(last.cpu, last.words + e)], base + [last], last.cpu, e)
  {
    hide WordsOf;
    var now := Section(last.cpu, last.words + e);
    forall c
      ensures WordsOf(c, base + [now]) == WordsOf(c, base + [last]) + (if c == last.cpu then e else [])
    {
      WordsSnoc(c, base, last);
      WordsSnoc(c, base, now);
      assert WordsOf(c, base) + last.words + e == WordsOf(c, base) + (last.words + e);
      assert WordsOf(c, base) + [] + [] == WordsOf(c, base) + [];
    }
  }

  /** A whole event in the open section. */
  lemma EventAdded(local: bool, sent: seq<seq<Section>>, b: Build, e: seq<int64>)
    requires b.Building? && Whole(e, Room(local, b.cur.cpu)) && AllWhole(local, Concat(sent) + Sealed(b))
    ensures AllWhole(local, Concat(sent) + Sealed(WithWords(b, e)))
    ensures Carries(Concat(sent) + Sealed(WithWords(b, e)), Concat(sent) + Sealed(b), b.cur.cpu, e)
  {
    hide Room, Whole, AllWhole, Carries, Concat;
    var base := Concat(sent) + b.closed;
    assert Concat(sent) + Sealed(b) == base + [b.cur];
    assert Concat(sent) + Sealed(WithWords(b, e)) == base + [Section(b.cur.cpu, b.cur.words + e)];
    LastWhole(local, base, b.cur, e);
    LastCarries(base, b.cur, e);
  }

  /** The event at the tail is whole, and so is the rest. */
  lemma FirstEvent(ring: seq<int64>, t: nat, head: nat, local: bool, cpu: int32)
    requires |ring| > 0 && t < head && Whole(RingWords(ring, t, head - t), Room(local, cpu))
    ensures var n := EventWords(ring[Wrap(t, |ring|)]);
      && 0 < n <= head - t && |EncodeAll(RingWords(ring, t, n))| <= Room(local, cpu)
      && Whole(RingWords(ring, t, n), Room(local, cpu))
      && Whole(RingWords(ring, t + n, head - (t + n)), Room(local, cpu))
  {
    hide Room, EventWords, Wrap, EncodeAll;
    var words := RingWords(ring, t, head - t);
    var n := EventWords(ring[Wrap(t, |ring|)]);
    assert words[0] == ring[Wrap(t, |ring|)];
    assert words[n..] == RingWords(ring, t + n, head - (t + n)) && words[..n] == RingWords(ring, t, n);
    WholeOne(RingWords(ring, t, n), Room(local, cpu));
  }

  // ------------------------------------------------------------------ what the receiver sees

  lemma {:induction false} SectionInBytes(ss: seq<Section>, s: Section)
    requires s in ss
    ensures |EncodeAll(s.words)| <= |SectionsBytes(ss)|
  {
    hide Encode, EncodeAll;
    var last := ss[|ss| - 1];
    if s != last {
      SectionInBytes(ss[..|ss| - 1], s);
    }
  }

  /** A sent frame is one frame of the wire format, and its payload parses into its sections. */
  lemma FrameParses(local: bool, ss: seq<Section>)
    requires |Frame(local, PerfPayload(ss))| < BUF_SIZE
    ensures Parse(local, Frame(local, PerfPayload(ss))) == Frames([PerfPayload(ss)])
    ensures PerfPayload(ss)[0] == FRAME_PERF && ParseSections(PerfPayload(ss)[1..]) == Sections(Plain(ss))
  {
    hide Encode, EncodeAll, SectionsBytes, ParseSections;
    var f := Frame(local, PerfPayload(ss));
    ParseFrame(local, PerfPayload(ss), []);
    assert f + [] == f && [PerfPayload(ss)] + [] == [PerfPayload(ss)];
    forall s | s in ss
      ensures |EncodeAll(s.words)| < 0x1_0000_0000
    {
      SectionInBytes(ss, s);
    }
    assert PerfPayload(ss)[1..] == SectionsBytes(ss);
    ParseSectionsBytes(ss);
  }

  // ------------------------------------------------------------------ kernel events

  /** An event as the kernel writes it: `perf_event_header` with type, misc and size, and the words behind
      it. */
  datatype KernelEvent = KernelEvent(kind: nat, misc: nat, body: seq<int64>)

  function EventSize(e: KernelEvent): nat { 8 * (1 + |e.body|) }

  predicate EventOk(e: KernelEvent) {
    e.kind < 0x1_0000_0000 && e.misc < 0x1_0000 && EventSize(e) < 0x1_0000
  }

  /** The header as one little-endian word: 32 bits of type, 16 of misc, 16 of size. */
  function HeaderWord(kind: nat, misc: nat, size: nat): int64
    requires kind < 0x1_0000_0000 && misc < 0x1_0000 && size < 0x1_0000
  {
    var w := kind + 0x1_0000_0000 * misc + 0x1_0000_0000_0000 * size;
    if w < 0x8000_0000_0000_0000 then w else w - 0x1_0000_0000_0000_0000
  }

  /** The code reads the size out of the header. */
  lemma EventWordsExact(kind: nat, misc: nat, size: nat)
    requires kind < 0x1_0000_0000 && misc < 0x1_0000 && size < 0x1_0000
    ensures EventWords(HeaderWord(kind, misc, size)) == size / 8
  {
    var low := kind + 0x1_0000_0000 * misc;
    assert low < 0x1_0000_0000_0000;
    assert (low + 0x1_0000_0000_0000 * size) / 0x1_0000_0000_0000 == size;
  }

  function Words(e: KernelEvent): (w: seq<int64>)
    requires EventOk(e)
    ensures |w| == 1 + |e.body|
  {
    [HeaderWord(e.kind, e.misc, EventSize(e))] + e.body
  }

  predicate AllOk(es: seq<KernelEvent>) { forall i :: 0 <= i < |es| ==> EventOk(es[i]) }

  function AllWords(es: seq<KernelEvent>): seq<int64>
    requires AllOk(es)
  {
    if es == [] then [] else Words(es[0]) + AllWords(es[1..])
  }

  lemma FirstSize(e: KernelEvent)
    requires EventOk(e)
    ensures EventWords(Words(e)[0]) == |Words(e)|
  {
    EventWordsExact(e.kind, e.misc, EventSize(e));
  }

  /** Events that fit are whole events. */
  lemma {:induction false} EventsAreWhole(es: seq<KernelEvent>, room: int)
    requires AllOk(es) && forall i :: 0 <= i < |es| ==> |EncodeAll(Words(es[i]))| <= room
    ensures Whole(AllWords(es), room)
  {
    hide EncodeAll, EventWords, Words;
    if es != [] {
      FirstSize(es[0]);
      EventsAreWhole(es[1..], room);
      WholeOne(Words(es[0]), room);
      WholeAppend(Words(es[0]), AllWords(es[1..]), room);
    }
  }

  /** Whole words in front of the words of some events are the first of these events. */
  lemma {:induction false} WholeCut(a: seq<int64>, b: seq<int64>, es: seq<KernelEvent>, room: int) returns (k: nat)
    requires AllOk(es) && Whole(a, room) && a + b == AllWords(es)
    ensures k <= |es| && a == AllWords(es[..k]) && b == AllWords(es[k..])
    decreases |a|
  {
    hide EncodeAll, EventWords, Words;
    k := 0;
    if a == [] {
      assert es[..0] == [] && es[0..] == es && a + b == b;
    } else {
      var first, n := Words(es[0]), |Words(es[0])|;
      FirstSize(es[0]);
      assert (a + b)[0] == a[0] && (a + b)[0] == first[0];
      assert n == EventWords(a[0]) <= |a|;
      assert a[..n] == (a + b)[..n] == first;
      assert a[n..] + b == (a + b)[n..] == AllWords(es[1..]);
      var rest := WholeCut(a[n..], b, es[1..], room);
      k := rest + 1;
      assert es[..k][1..] == es[1..][..rest] && es[k..] == es[1..][rest..];
      assert a == a[..n] + a[n..];
    }
  }

  /** The words stand together in one section of the CPU. */
  ghost predicate InOneSection(ss: seq<Section>, cpu: int, words: seq<int64>) {
    exists i, at :: Within(ss, cpu, words, i, at)
  }

  predicate Within(ss: seq<Section>, cpu: int, words: seq<int64>, i: int, at: int) {
    && 0 <= i < |ss| && ss[i].cpu == cpu
    && 0 <= at <= at + |words| <= |ss[i].words| && ss[i].words[at..at + |words|] == words
  }

  lemma {:induction false} WordsWhole(local: bool, ss: seq<Section>, cpu: int32)
    requires AllWhole(local, ss)
    ensures Whole(WordsOf(cpu, ss), Room(local, cpu))
  {
    hide Room, Whole;
    if ss == [] {
      assert Whole([], Room(local, cpu)) by { NothingWhole(Room(local, cpu)); }
    } else {
      var init, last := ss[..|ss| - 1], ss[|ss| - 1];
      assert last in ss && forall s :: s in init ==> s in ss;
      WordsWhole(local, init, cpu);
      if last.cpu == cpu {
        WholeAppend(WordsOf(cpu, init), last.words, Room(local, cpu));
      } else {
        assert WordsOf(cpu, init) + [] == WordsOf(cpu, init);
      }
    }
  }

  lemma NothingWhole(room: int)
    ensures Whole([], room)
  {
  }

  lemma {:induction false} EventAt(es: seq<KernelEvent>, j: nat) returns (at: nat)
    requires AllOk(es) && j < |es|
    ensures at + |Words(es[j])| <= |AllWords(es)| && AllWords(es)[at..at + |Words(es[j])|] == Words(es[j])
    decreases j
  {
    hide Words;
    at := 0;
    if j > 0 {
      var rest := EventAt(es[1..], j - 1);
      at := |Words(es[0])| + rest;
      var n := |Words(es[j])|;
      assert AllWords(es)[at..at + n] == AllWords(es[1..])[rest..rest + n];
    }
  }

  /** If the sections carry the words of some events, each event stands whole in one of them. */
  lemma {:induction false} EventsInSections(local: bool, ss: seq<Section>, cpu: int32, es: seq<KernelEvent>, j: nat)
    requires AllWhole(local, ss) && AllOk(es) && WordsOf(cpu, ss) == AllWords(es) && j < |es|
    ensures InOneSection(ss, cpu, Words(es[j]))
    decreases |ss|
  {
    hide Whole, Room, Words;
    if ss == [] {
      var at := EventAt(es, j);
      assert false;
    } else {
      var init, last := ss[..|ss| - 1], ss[|ss| - 1];
      assert forall s :: s in init ==> s in ss;
      var mine := if last.cpu == cpu then last.words else [];
      WordsWhole(local, init, cpu);
      var k := WholeCut(WordsOf(cpu, init), mine, es, Room(local, cpu));
      if j < k {
        EventsInSections(local, init, cpu, es[..k], j);
        var i, at :| Within(init, cpu, Words(es[j]), i, at);
        assert Within(ss, cpu, Words(es[j]), i, at);
      } else {
        var at := EventAt(es[k..], j - k);
        assert es[k..][j - k] == es[j];
        assert Within(ss, cpu, Words(es[j]), |ss| - 1, at);
      }
    }
  }

  // ------------------------------------------------------------------ which events fit

  /** Some frame shorter than the buffer has the event whole in one section of its CPU. */
  ghost predicate Carriable(local: bool, cpu: int32, e: seq<int64>) {
    exists ss, s, a, b :: Carried(local, cpu, e, ss, s, a, b)
  }

  ghost predicate Carried(local: bool, cpu: int32, e: seq<int64>, ss: seq<Section>, s: Section,
                          a: seq<int64>, b: seq<int64>) {
    && |Frame(local, PerfPayload(ss))| < BUF_SIZE
    && s in ss && s.cpu == cpu && s.words == a + e + b
  }

  lemma {:induction false} SectionBelow(ss: seq<Section>, s: Section)
    requires s in ss
    ensures |SectionBytes(s)| <= |SectionsBytes(ss)|
  {
    hide SectionBytes;
    var last := ss[|ss| - 1];
    if s != last {
      SectionBelow(ss[..|ss| - 1], s);
    }
  }

  /** The events that `Add` takes are exactly those that a frame of the buffer's size can carry at all. */
  lemma FitsExactly(local: bool, cpu: int32, e: seq<int64>)
    ensures |EncodeAll(e)| <= Room(local, cpu) <==> Carriable(local, cpu, e)
  {
    hide Encode, EncodeAll, LittleEndian;
    if |EncodeAll(e)| <= Room(local, cpu) {
      var s := Section(cpu, e);
      SectionsSnoc([], s);
      assert [] + [s] == [s] && e == [] + e + [];
      assert Carried(local, cpu, e, [s], s, [], []);
    }
    if ss, s, a: seq<int64>, b: seq<int64> :| Carried(local, cpu, e, ss, s, a, b) {
      SectionBelow(ss, s);
      EncodeAllAppend(a + e, b);
      EncodeAllAppend(a, e);
    }
  }

  /** The packing loop of `add` without any check: the cursor goes straight on exactly if the words end
      before the buffer does, and wraps otherwise. */
  method PackUnchecked(buf: array<byte>, writePos: nat, words: seq<int64>) returns (pos: nat)
    requires buf.Length == BUF_SIZE && writePos < BUF_SIZE
    modifies buf
    ensures pos == Wrap(writePos + |EncodeAll(words)|, BUF_SIZE)
    ensures pos == writePos + |EncodeAll(words)| <==> writePos + |EncodeAll(words)| < BUF_SIZE
  {
    hide Encode, IsPow2, EncodeAll, Holds, Untouched, Wrap;
    BufSizePow2();
    pos := writePos;
    ghost var at: nat := writePos;
    assert words[0..] == words;
    WrapOnce(at);
    var i := 0;
    while i < |words|
      invariant 0 <= i <= |words| && pos == Wrap(at, BUF_SIZE)
      invariant at + |EncodeAll(words[i..])| == writePos + |EncodeAll(words)|
    {
      EncodeAllFirst(words, i);
      Pack64Length(words[i]);
      WrapAdvance(at, 0, BUF_SIZE);
      pos := Pack(buf, BUF_SIZE, pos, words[i], at);
      at := at + |Encode(words[i])|;
      i := i + 1;
    }
    NoBytes(words[i..]);
    WrapOnce(at);
  }

  lemma WrapOnce(at: nat)
    ensures Wrap(at, BUF_SIZE) == at <==> at < BUF_SIZE
  {
  }

  lemma EncodeAllFirst(words: seq<int64>, i: nat)
    requires i < |words|
    ensures |EncodeAll(words[i..])| == |Encode(words[i])| + |EncodeAll(words[i + 1..])|
  {
    assert words[i..][1..] == words[i + 1..];
  }

  lemma NoBytes(words: seq<int64>)
    requires words == []
    ensures EncodeAll(words) == []
  {
  }

  /** The mapped ring of one CPU, with a snapshot of its positions in words. */
  datatype CpuRing = CpuRing(mapped: bool, ring: seq<int64>, head: nat, tail: nat)

  ghost predicate RingReady(local: bool, cpu: int32, r: CpuRing) {
    r.mapped && r.head > r.tail ==>
      && IsPow2(|r.ring|) && |r.ring| > 0
      && Whole(RingWords(r.ring, r.tail, r.head - r.tail), Room(local, cpu))
  }

  /** The unread words of a CPU's ring. */
  ghost function Pending(r: CpuRing): seq<int64>
  {
    if r.mapped && r.head > r.tail && |r.ring| > 0 then RingWords(r.ring, r.tail, r.head - r.tail) else []
  }

  /** `PerfBuffer::send`: for every CPU the frames sent carry exactly its ring from tail to head, every
      section is whole events, and every frame parses back into its sections. */
  method SendRings(local: bool, rings: seq<CpuRing>)
    returns (sender: seq<seq<byte>>, tails: seq<nat>, ghost frames: seq<seq<Section>>)
    requires |rings| <= 32
    requires forall i :: 0 <= i < |rings| ==> RingReady(local, i, rings[i])
    ensures |sender| == |frames| && |tails| == |rings|
    ensures forall i :: 0 <= i < |frames| ==>
      && Parse(local, sender[i]) == Frames([PerfPayload(frames[i])])
      && ParseSections(PerfPayload(frames[i])[1..]) == Sections(Plain(frames[i]))
    ensures AllWhole(local, Concat(frames))
    ensures forall c :: 0 <= c < |rings| ==> WordsOf(c, Concat(frames)) == Pending(rings[c])
    ensures forall c :: 0 <= c < |rings| ==>
      tails[c] == if rings[c].mapped && rings[c].head > rings[c].tail then rings[c].head else rings[c].tail
  {
    hide Layout, Frame, PerfPayload, Concat, WordsOf, RingWords, Room, Parse, ParseSections;
    var frame := new PerfFrame(local);
    NoSections();
    assert frame.All() == [];
    tails := Collect(frame, rings);
    frame.Send();
    sender, frames := frame.sender, frame.sent;
    assert Concat(frames) + [] == Concat(frames);
    forall i | 0 <= i < |frames|
      ensures Parse(local, sender[i]) == Frames([PerfPayload(frames[i])])
      ensures ParseSections(PerfPayload(frames[i])[1..]) == Sections(Plain(frames[i]))
    {
      FrameParses(local, frames[i]);
    }
  }

  /** `PerfBuffer::send` on rings of kernel events: every event of every CPU arrives whole, in one section of
      one frame. */
  method SendEvents(local: bool, rings: seq<CpuRing>, ghost events: seq<seq<KernelEvent>>)
    returns (sender: seq<seq<byte>>, tails: seq<nat>, ghost frames: seq<seq<Section>>)
    requires |events| == |rings| <= 32
    requires forall c :: 0 <= c < |rings| ==>
      && AllOk(events[c]) && Pending(rings[c]) == AllWords(events[c])
      && (rings[c].mapped && rings[c].head > rings[c].tail ==> IsPow2(|rings[c].ring|) && |rings[c].ring| > 0)
    requires forall c, j :: 0 <= c < |rings| && 0 <= j < |events[c]| ==>
      EventOk(events[c][j]) && |EncodeAll(Words(events[c][j]))| <= Room(local, c)
    ensures |sender| == |frames|
    ensures forall i :: 0 <= i < |frames| ==>
      && Parse(local, sender[i]) == Frames([PerfPayload(frames[i])])
      && ParseSections(PerfPayload(frames[i])[1..]) == Sections(Plain(frames[i]))
    ensures forall c :: 0 <= c < |rings| ==> WordsOf(c, Concat(frames)) == AllWords(events[c])
    ensures forall c, j :: 0 <= c < |rings| && 0 <= j < |events[c]| ==>
      InOneSection(Concat(frames), c, Words(events[c][j]))
  {
    hide Whole, Room, EncodeAll, Words, AllWords, PerfPayload, Parse, ParseSections, Concat, WordsOf, RingWords,
         InOneSection, IsPow2;
    forall c | 0 <= c < |rings|
      ensures RingReady(local, c, rings[c])
    {
      EventsAreWhole(events[c], Room(local, c));
    }
    sender, tails, frames := SendRings(local, rings);
    forall c, j | 0 <= c < |rings| && 0 <= j < |events[c]|
      ensures InOneSection(Concat(frames), c, Words(events[c][j]))
    {
      EventsInSections(local, Concat(frames), c, events[c], j);
    }
  }

  /** The sections carry the pending words of the first `n` CPUs, and nothing for the others. */
  ghost predicate Forwarded(ss: seq<Section>, rings: seq<CpuRing>, n: nat) {
    forall c :: 0 <= c < |rings| ==> WordsOf(c, ss) == if c < n then Pending(rings[c]) else []
  }

  lemma ForwardedMore(now: seq<Section>, before: seq<Section>, rings: seq<CpuRing>, n: int32)
    requires 0 <= n < |rings| && Forwarded(before, rings, n) && Carries(now, before, n, Pending(rings[n]))
    ensures Forwarded(now, rings, n + 1)
  {
    hide WordsOf, Pending;
    forall c | 0 <= c < |rings|
      ensures WordsOf(c, now) == if c < n + 1 then Pending(rings[c]) else []
    {
      assert [] + Pending(rings[n]) == Pending(rings[n]);
      assert WordsOf(c, before) + [] == WordsOf(c, before);
    }
  }

  /** The loop over the CPUs. */
  method Collect(frame: PerfFrame, rings: seq<CpuRing>) returns (tails: seq<nat>)
    requires frame.Valid() && |rings| <= 32 && AllWhole(frame.local, frame.All()) && Forwarded(frame.All(), rings, 0)
    requires forall i :: 0 <= i < |rings| ==> RingReady(frame.local, i, rings[i])
    modifies frame, frame.buf
    ensures frame.Valid() && AllWhole(frame.local, frame.All()) && Forwarded(frame.All(), rings, |rings|)
    ensures |tails| == |rings|
    ensures forall c :: 0 <= c < |rings| ==>
      tails[c] == if rings[c].mapped && rings[c].head > rings[c].tail then rings[c].head else rings[c].tail
  {
    hide PerfFrame.Valid, PerfFrame.All, AllWhole, Forwarded, Carries, IsPow2, RingWords, Whole, Room;
    tails := [];
    var cpu := 0;
    while cpu < |rings|
      invariant 0 <= cpu <= |rings| && |tails| == cpu
      invariant frame.Valid() && AllWhole(frame.local, frame.All()) && Forwarded(frame.All(), rings, cpu)
      invariant forall c :: 0 <= c < cpu ==>
        tails[c] == if rings[c].mapped && rings[c].head > rings[c].tail then rings[c].head else rings[c].tail
    {
      var r := rings[cpu];
      var tail := r.tail;
      ghost var before := frame.All();
      assert RingReady(frame.local, cpu, rings[cpu]);
      if r.mapped && r.head > r.tail {
        frame.Add(cpu, r.head, r.tail, r.ring);
        tail := r.head;
      } else {
        CarriesNothing(before, cpu);
      }
      ForwardedMore(frame.All(), before, rings, cpu);
      tails := tails + [tail];
      cpu := cpu + 1;
    }
  }

  lemma NoSections()
    ensures forall c :: WordsOf(c, []) == []
    ensures Concat<Section>([]) == []
  {
  }
}

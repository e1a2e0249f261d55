/** The receiver's side of the message stream: a decoder of the perf-attribute and block-counter
    messages, and the proof that what a run of the buffer delivers decodes to exactly the messages that
    were accepted. */
module MessageStream {
  import opened RingIndex
  import opened Leb128
  import opened Framing
  import opened Messages
  import opened CaptureSpec

  // ------------------------------------------------------------------ reading one field

  /** A field and what follows it. */
  datatype Read<T> = Fail | Got(x: T, rest: seq<byte>) {
    predicate IsFailure() { Fail? }
    function PropagateFailure<U>(): Read<U>
      requires Fail?
    {
      Fail
    }
    function Extract(): (T, seq<byte>)
      requires Got?
    {
      (x, rest)
    }
  }

  function ReadInt(s: seq<byte>): Read<int> {
    match Decode(s)
    case Truncated => Fail
    case Value(x, n) => Got(x, s[n..])
  }

  function Read32(s: seq<byte>): Read<int32> {
    var (x, rest) :- ReadInt(s);
    if -0x8000_0000 <= x < 0x8000_0000 then Got(x, rest) else Fail
  }

  function Read64(s: seq<byte>): Read<int64> {
    var (x, rest) :- ReadInt(s);
    if -0x8000_0000_0000_0000 <= x < 0x8000_0000_0000_0000 then Got(x, rest) else Fail
  }

  /** A string up to its NUL. */
  function ReadString(s: seq<byte>): Read<seq<byte>> {
    if s == [] then Fail
    else if s[0] == 0 then Got([], s[1..])
    else
      var (x, rest) :- ReadString(s[1..]);
      Got([s[0]] + x, rest)
  }

  function ReadRaw(s: seq<byte>, n: nat): Read<seq<byte>> {
    if n <= |s| then Got(s[..n], s[n..]) else Fail
  }

  function ReadKeys(s: seq<byte>, n: nat): Read<seq<(int64, int32)>> {
    if n == 0 then Got([], s)
    else
      var (id, s1) :- Read64(s);
      var (key, s2) :- Read32(s1);
      var (more, rest) :- ReadKeys(s2, n - 1);
      Got([(id, key)] + more, rest)
  }

  function ReadOldKeys(s: seq<byte>, n: nat): Read<seq<int32>> {
    if n == 0 then Got([], s)
    else
      var (key, s1) :- Read32(s);
      var (more, rest) :- ReadOldKeys(s1, n - 1);
      Got([key] + more, rest)
  }

  lemma IntBack(x: int, t: seq<byte>)
    ensures ReadInt(Encode(x) + t) == Got(x, t)
  {
    hide Encode;
    DecodeEncode(x, t);
    assert (Encode(x) + t)[|Encode(x)|..] == t;
  }

  lemma Int32Back(x: int32, t: seq<byte>)
    ensures Read32(Encode(x) + t) == Got(x, t)
  {
    hide Encode, ReadInt;
    IntBack(x, t);
  }

  lemma Int64Back(x: int64, t: seq<byte>)
    ensures Read64(Encode(x) + t) == Got(x, t)
  {
    hide Encode, ReadInt;
    IntBack(x, t);
  }

  lemma {:induction false} StringBack(a: seq<byte>, t: seq<byte>)
    requires 0 !in a
    ensures ReadString(a + NUL + t) == Got(a, t)
  {
    if a == [] {
      assert (a + NUL + t)[1..] == t;
    } else {
      StringBack(a[1..], t);
      assert (a + NUL + t)[1..] == a[1..] + NUL + t;
      assert [a[0]] + a[1..] == a;
    }
  }

  lemma RawBack(a: seq<byte>, t: seq<byte>)
    ensures ReadRaw(a + t, |a|) == Got(a, t)
  {
  }

  /** The bytes of a list of writes, in front of `t`. */
  function Before(items: seq<Item>, t: seq<byte>): seq<byte> {
    if items == [] then t else ItemBytes(items[0]) + Before(items[1..], t)
  }

  lemma {:induction false} BeforeIs(items: seq<Item>, t: seq<byte>)
    ensures ItemsBytes(items) + t == Before(items, t)
  {
    if items != [] {
      BeforeIs(items[1..], t);
    }
  }

  lemma {:induction false} BeforeAppend(a: seq<Item>, b: seq<Item>, t: seq<byte>)
    ensures Before(a + b, t) == Before(a, Before(b, t))
  {
    if a == [] {
      assert a + b == b;
    } else {
      assert (a + b)[1..] == a[1..] + b;
      BeforeAppend(a[1..], b, t);
    }
  }

  lemma {:induction false} KeysBack(ids: seq<(int64, int32)>, t: seq<byte>)
    ensures ReadKeys(Before(KeyItems(ids), t), |ids|) == Got(ids, t)
  {
    hide Encode, Read32, Read64;
    if ids != [] {
      KeysBack(ids[1..], t);
      var rest := Before(KeyItems(ids[1..]), t);
      BeforeAppend([I64(ids[0].0), I32(ids[0].1)], KeyItems(ids[1..]), t);
      BeforeTwo(I64(ids[0].0), I32(ids[0].1), rest);
      Int64Back(ids[0].0, Encode(ids[0].1) + rest);
      Int32Back(ids[0].1, rest);
      assert [(ids[0].0, ids[0].1)] + ids[1..] == ids;
    }
  }

  lemma {:induction false} OldKeysBack(keys: seq<int32>, t: seq<byte>)
    ensures ReadOldKeys(Before(OldKeyItems(keys), t), |keys|) == Got(keys, t)
  {
    hide Encode, Read32;
    if keys != [] {
      OldKeysBack(keys[1..], t);
      var rest := Before(OldKeyItems(keys[1..]), t);
      BeforeAppend([I32(keys[0])], OldKeyItems(keys[1..]), t);
      BeforeOne(I32(keys[0]), rest);
      Int32Back(keys[0], rest);
      assert [keys[0]] + keys[1..] == keys;
    }
  }

  lemma BeforeOne(a: Item, t: seq<byte>)
    ensures Before([a], t) == ItemBytes(a) + t
  {
    assert [a][1..] == [];
  }

  lemma BeforeTwo(a: Item, b: Item, t: seq<byte>)
    ensures Before([a, b], t) == ItemBytes(a) + (ItemBytes(b) + t)
  {
    assert [a, b][1..] == [b];
    BeforeOne(b, t);
  }

  // ------------------------------------------------------------------ one message

  /** A decoded message, and whether a counter list is open after it. */
  type Item1 = (Message, bool)

  /** `perf_event_attr` tells its own size in its second 32-bit field. */
  predicate PeaOk(pea: seq<byte>) {
    |pea| >= 8 && FromLittleEndian(pea[4..8]) == |pea|
  }

  /** A group read starts with the number of its 16-byte entries as a 64-bit integer. */
  predicate GroupReadOk(raw: seq<byte>) {
    |raw| >= 8 && raw[4..8] == [0, 0, 0, 0] && |raw| == 8 + 16 * FromLittleEndian(raw[..4])
  }

  /** A message as the receiver may expect it: inside a counter list only counters and its end, strings
      without NUL, and structures of the size they tell. */
  predicate Expected(m: Message, counters: bool) {
    WellFormed(m) &&
    match m
    case PerfCounter(core, _, _) => counters && core != -1
    case PerfCounterFooter => counters
    case PerfCounterHeader(_) => !counters
    case Pea(pea, _) => !counters && PeaOk(pea)
    case Keys(_) => !counters
    case KeysOld(_, raw) => !counters && GroupReadOk(raw)
    case Format(format) => !counters && 0 !in format
    case Maps(_, _, maps) => !counters && 0 !in maps
    case Comm(_, _, image, comm) => !counters && 0 !in image && 0 !in comm
    case OnlineCpu(_, _) => !counters
    case OfflineCpu(_, _) => !counters
    case Kallsyms(text) => !counters && 0 !in text
    case _ => false
  }

  function After(m: Message, counters: bool): bool {
    m.PerfCounterHeader? || (counters && !m.PerfCounterFooter?)
  }

  function DecodeCounter(s: seq<byte>): Read<Item1> {
    var (core, s1) :- Read32(s);
    if core == -1 then Got((PerfCounterFooter, false), s1)
    else
      var (key, s2) :- Read32(s1);
      var (value, s3) :- Read64(s2);
      Got((PerfCounter(core, key, value), true), s3)
  }

  function DecodePea(s: seq<byte>): Read<Item1> {
    if |s| < 8 then Fail
    else
      var (pea, s1) :- ReadRaw(s, FromLittleEndian(s[4..8]));
      var (key, s2) :- Read32(s1);
      Got((Pea(pea, key), false), s2)
  }

  function DecodeKeys(s: seq<byte>): Read<Item1> {
    var (n, s1) :- Read32(s);
    if n < 0 then Fail
    else
      var (ids, s2) :- ReadKeys(s1, n);
      Got((Keys(ids), false), s2)
  }

  function DecodeKeysOld(s: seq<byte>): Read<Item1> {
    var (n, s1) :- Read32(s);
    if n < 0 then Fail
    else
      var (keys, s2) :- ReadOldKeys(s1, n);
      if |s2| < 8 then Fail
      else
        var (raw, s3) :- ReadRaw(s2, 8 + 16 * FromLittleEndian(s2[..4]));
        Got((KeysOld(keys, raw), false), s3)
  }

  function DecodeMaps(s: seq<byte>): Read<Item1> {
    var (pid, s1) :- Read32(s);
    var (tid, s2) :- Read32(s1);
    var (maps, s3) :- ReadString(s2);
    Got((Maps(pid, tid, maps), false), s3)
  }

  function DecodeComm(s: seq<byte>): Read<Item1> {
    var (pid, s1) :- Read32(s);
    var (tid, s2) :- Read32(s1);
    var (image, s3) :- ReadString(s2);
    var (comm, s4) :- ReadString(s3);
    Got((Comm(pid, tid, image, comm), false), s4)
  }

  function DecodeHotplug(s: seq<byte>, online: bool): Read<Item1> {
    var (time, s1) :- Read64(s);
    var (cpu, s2) :- Read32(s1);
    Got((if online then OnlineCpu(time, cpu) else OfflineCpu(time, cpu), false), s2)
  }

  function DecodeText(s: seq<byte>, kallsyms: bool): Read<Item1> {
    var (text, s1) :- ReadString(s);
    Got((if kallsyms then Kallsyms(text) else Format(text), false), s1)
  }

  function DecodeTime(s: seq<byte>): Read<Item1> {
    var (time, s1) :- Read64(s);
    Got((PerfCounterHeader(time), true), s1)
  }

  /** The message at the front of a perf-attribute stream, by the code numbers of the format. */
  function DecodeOne(s: seq<byte>, counters: bool): Read<Item1> {
    if counters then DecodeCounter(s)
    else
      var (code, t) :- Read32(s);
      if code == 1 then DecodePea(t)
      else if code == 2 then DecodeKeys(t)
      else if code == 3 then DecodeText(t, false)
      else if code == 4 then DecodeMaps(t)
      else if code == 5 then DecodeComm(t)
      else if code == 6 then DecodeKeysOld(t)
      else if code == 7 then DecodeHotplug(t, true)
      else if code == 8 then DecodeHotplug(t, false)
      else if code == 9 then DecodeText(t, true)
      else if code == 10 then DecodeTime(t)
      else Fail
  }

  // ------------------------------------------------------------------ every message is read back

  lemma BeforeCons(a: Item, items: seq<Item>, t: seq<byte>)
    ensures Before([a] + items, t) == ItemBytes(a) + Before(items, t)
  {
    assert ([a] + items)[1..] == items;
  }

  lemma CounterBack(m: Message, t: seq<byte>)
    requires Expected(m, true)
    ensures DecodeOne(Before(Items(m), t), true) == Got((m, After(m, true)), t)
  {
    hide Encode, Read32, Read64, Before;
    match m {
      case PerfCounter(core, key, value) =>
        assert Items(m) == [I32(core)] + [I32(key), I64(value)];
        BeforeCons(I32(core), [I32(key), I64(value)], t);
        BeforeTwo(I32(key), I64(value), t);
        Int32Back(core, Encode(key) + (Encode(value) + t));
        Int32Back(key, Encode(value) + t);
        Int64Back(value, t);
      case PerfCounterFooter =>
        BeforeOne(I32(-1), t);
        Int32Back(-1, t);
    }
  }

  lemma PeaBack(pea: seq<byte>, key: int32, t: seq<byte>)
    requires PeaOk(pea)
    ensures DecodePea(Before([Raw(pea), I32(key)], t)) == Got((Pea(pea, key), false), t)
  {
    hide Encode, Read32, Before, FromLittleEndian;
    BeforeTwo(Raw(pea), I32(key), t);
    var s := pea + (Encode(key) + t);
    assert s[4..8] == pea[4..8];
    RawBack(pea, Encode(key) + t);
    Int32Back(key, t);
  }

  lemma KeysMessageBack(ids: seq<(int64, int32)>, t: seq<byte>)
    requires |ids| < 0x8000_0000
    ensures DecodeKeys(Before([I32(|ids|)] + KeyItems(ids), t)) == Got((Keys(ids), false), t)
  {
    hide Encode, Read32, Before, ReadKeys;
    BeforeCons(I32(|ids|), KeyItems(ids), t);
    Int32Back(|ids|, Before(KeyItems(ids), t));
    KeysBack(ids, t);
  }

  lemma KeysOldBack(keys: seq<int32>, raw: seq<byte>, t: seq<byte>)
    requires |keys| < 0x8000_0000 && GroupReadOk(raw)
    ensures DecodeKeysOld(Before([I32(|keys|)] + (OldKeyItems(keys) + [Raw(raw)]), t))
         == Got((KeysOld(keys, raw), false), t)
  {
    hide Encode, Read32, Before, ReadOldKeys, FromLittleEndian;
    BeforeCons(I32(|keys|), OldKeyItems(keys) + [Raw(raw)], t);
    BeforeAppend(OldKeyItems(keys), [Raw(raw)], t);
    BeforeOne(Raw(raw), t);
    Int32Back(|keys|, Before(OldKeyItems(keys), raw + t));
    OldKeysBack(keys, raw + t);
    assert (raw + t)[..4] == raw[..4];
    RawBack(raw, t);
  }

  lemma MapsBack(pid: int32, tid: int32, maps: seq<byte>, t: seq<byte>)
    requires 0 !in maps
    ensures DecodeMaps(Before([I32(pid), I32(tid), Raw(maps + NUL)], t)) == Got((Maps(pid, tid, maps), false), t)
  {
    hide Encode, Read32, Before, ReadString;
    assert [I32(pid), I32(tid), Raw(maps + NUL)] == [I32(pid), I32(tid)] + [Raw(maps + NUL)];
    BeforeAppend([I32(pid), I32(tid)], [Raw(maps + NUL)], t);
    BeforeOne(Raw(maps + NUL), t);
    BeforeTwo(I32(pid), I32(tid), maps + NUL + t);
    Int32Back(pid, Encode(tid) + (maps + NUL + t));
    Int32Back(tid, maps + NUL + t);
    StringBack(maps, t);
  }

  lemma CommBack(pid: int32, tid: int32, image: seq<byte>, comm: seq<byte>, t: seq<byte>)
    requires 0 !in image && 0 !in comm
    ensures DecodeComm(Before([I32(pid), I32(tid), Raw(image + NUL), Raw(comm + NUL)], t))
         == Got((Comm(pid, tid, image, comm), false), t)
  {
    hide Encode, Read32, Before, ReadString;
    var strings := image + NUL + (comm + NUL + t);
    assert [I32(pid), I32(tid), Raw(image + NUL), Raw(comm + NUL)]
        == [I32(pid), I32(tid)] + [Raw(image + NUL), Raw(comm + NUL)];
    BeforeAppend([I32(pid), I32(tid)], [Raw(image + NUL), Raw(comm + NUL)], t);
    BeforeTwo(Raw(image + NUL), Raw(comm + NUL), t);
    BeforeTwo(I32(pid), I32(tid), strings);
    Int32Back(pid, Encode(tid) + strings);
    Int32Back(tid, strings);
    StringBack(image, comm + NUL + t);
    StringBack(comm, t);
  }

  lemma HotplugBack(time: int64, cpu: int32, online: bool, t: seq<byte>)
    ensures DecodeHotplug(Before([I64(time), I32(cpu)], t), online)
         == Got((if online then OnlineCpu(time, cpu) else OfflineCpu(time, cpu), false), t)
  {
    hide Encode, Read32, Read64, Before;
    BeforeTwo(I64(time), I32(cpu), t);
    Int64Back(time, Encode(cpu) + t);
    Int32Back(cpu, t);
  }

  lemma TextBack(text: seq<byte>, kallsyms: bool, t: seq<byte>)
    requires 0 !in text
    ensures DecodeText(Before([Raw(text + NUL)], t), kallsyms)
         == Got((if kallsyms then Kallsyms(text) else Format(text), false), t)
  {
    hide Before, ReadString;
    BeforeOne(Raw(text + NUL), t);
    StringBack(text, t);
  }

  lemma TimeBack(time: int64, t: seq<byte>)
    ensures DecodeTime(Before([I64(time)], t)) == Got((PerfCounterHeader(time), true), t)
  {
    hide Encode, Read64, Before;
    BeforeOne(I64(time), t);
    Int64Back(time, t);
  }

  /** The writes of a message after its code. */
  function Rest(m: Message): seq<Item>
    requires Expected(m, false)
  {
    match m
    case Pea(pea, key) => [Raw(pea), I32(key)]
    case Keys(ids) => [I32(|ids|)] + KeyItems(ids)
    case KeysOld(keys, raw) => [I32(|keys|)] + (OldKeyItems(keys) + [Raw(raw)])
    case Format(format) => [Raw(format + NUL)]
    case Maps(pid, tid, maps) => [I32(pid), I32(tid), Raw(maps + NUL)]
    case Comm(pid, tid, image, comm) => [I32(pid), I32(tid), Raw(image + NUL), Raw(comm + NUL)]
    case OnlineCpu(time, cpu) => [I64(time), I32(cpu)]
    case OfflineCpu(time, cpu) => [I64(time), I32(cpu)]
    case Kallsyms(text) => [Raw(text + NUL)]
    case PerfCounterHeader(time) => [I64(time)]
  }

  function CodeOf(m: Message): int32
    requires Expected(m, false)
  {
    match m
    case Pea(_, _) => CODE_PEA
    case Keys(_) => CODE_KEYS
    case KeysOld(_, _) => CODE_KEYS_OLD
    case Format(_) => CODE_FORMAT
    case Maps(_, _, _) => CODE_MAPS
    case Comm(_, _, _, _) => CODE_COMM
    case OnlineCpu(_, _) => CODE_ONLINE_CPU
    case OfflineCpu(_, _) => CODE_OFFLINE_CPU
    case Kallsyms(_) => CODE_KALLSYMS
    case PerfCounterHeader(_) => CODE_COUNTERS
  }

  lemma ItemsAre(m: Message)
    requires Expected(m, false)
    ensures Items(m) == [I32(CodeOf(m))] + Rest(m)
  {
    if m.KeysOld? {
      assert Items(m) == [I32(CODE_KEYS_OLD), I32(|m.keys|)] + OldKeyItems(m.keys) + [Raw(m.raw)];
    }
  }

  /** Any expected message in front of anything is read back, and nothing beyond it. */
  lemma MessageBack(m: Message, counters: bool, t: seq<byte>)
    requires Expected(m, counters)
    ensures DecodeOne(Bytes(m) + t, counters) == Got((m, After(m, counters)), t)
  {
    hide Encode, Read32, Read64, Before, ItemsBytes, ReadString, DecodePea, DecodeKeys, DecodeKeysOld, DecodeMaps,
         DecodeComm, DecodeHotplug, DecodeText, DecodeTime, DecodeCounter;
    BeforeIs(Items(m), t);
    if counters {
      CounterBack(m, t);
    } else {
      ItemsAre(m);
      BeforeCons(I32(CodeOf(m)), Rest(m), t);
      Int32Back(CodeOf(m), Before(Rest(m), t));
      match m {
        case Pea(pea, key) => PeaBack(pea, key, t);
        case Keys(ids) => KeysMessageBack(ids, t);
        case KeysOld(keys, raw) => KeysOldBack(keys, raw, t);
        case Format(format) => TextBack(format, false, t);
        case Maps(pid, tid, maps) => MapsBack(pid, tid, maps, t);
        case Comm(pid, tid, image, comm) => CommBack(pid, tid, image, comm, t);
        case OnlineCpu(time, cpu) => HotplugBack(time, cpu, true, t);
        case OfflineCpu(time, cpu) => HotplugBack(time, cpu, false, t);
        case Kallsyms(text) => TextBack(text, true, t);
        case PerfCounterHeader(time) => TimeBack(time, t);
      }
    }
  }

  // ------------------------------------------------------------------ whole streams

  function AllBytes(ms: seq<Message>): seq<byte>
    requires forall m :: m in ms ==> WellFormed(m)
  {
    if ms == [] then [] else Bytes(ms[0]) + AllBytes(ms[1..])
  }

  /** A list of messages in the order the receiver expects them. */
  predicate Sequence(ms: seq<Message>, counters: bool) {
    ms == [] || (Expected(ms[0], counters) && Sequence(ms[1..], After(ms[0], counters)))
  }

  datatype Stream = NoStream | Messages(ms: seq<Message>)

  function DecodeStream(s: seq<byte>, counters: bool): Stream
    decreases |s|
  {
    if s == [] then Messages([])
    else
      match DecodeOne(s, counters)
      case Fail => NoStream
      case Got(r, rest) =>
        if |rest| >= |s| then NoStream
        else
          match DecodeStream(rest, r.1)
          case NoStream => NoStream
          case Messages(ms) => Messages([r.0] + ms)
  }

  lemma BytesSome(m: Message)
    requires WellFormed(m)
    ensures |Bytes(m)| > 0
  {
    hide Encode;
    var items := Items(m);
    assert items != [] && items[0].I32?;
  }

  lemma {:induction false} StreamBack(ms: seq<Message>, counters: bool)
    requires Sequence(ms, counters) && forall m :: m in ms ==> WellFormed(m)
    ensures DecodeStream(AllBytes(ms), counters) == Messages(ms)
  {
    hide DecodeOne, Bytes, Expected, WellFormed;
    if ms != [] {
      var rest := AllBytes(ms[1..]);
      MessageBack(ms[0], counters, rest);
      BytesSome(ms[0]);
      StreamBack(ms[1..], After(ms[0], counters));
      assert ms == [ms[0]] + ms[1..];
    }
  }

  // ------------------------------------------------------------------ block counters

  /** The events of a block-counter frame: key and value, where key 0 is the time and key 1 the thread. */
  predicate IsEvent(m: Message) {
    m.EventHeader? || m.EventTid? || m.Event? || m.Event64?
  }

  function EventPair(m: Message): (int, int)
    requires IsEvent(m)
  {
    match m
    case EventHeader(time) => (0, time)
    case EventTid(tid) => (1, tid)
    case Event(key, value) => (key, value)
    case Event64(key, value) => (key, value)
  }

  function Pairs(ms: seq<Message>): seq<int>
    requires forall m :: m in ms ==> IsEvent(m)
  {
    if ms == [] then [] else [EventPair(ms[0]).0, EventPair(ms[0]).1] + Pairs(ms[1..])
  }

  lemma EventBytes(m: Message)
    requires IsEvent(m)
    ensures Bytes(m) == EncodeAll([EventPair(m).0, EventPair(m).1])
  {
    hide Encode;
    var items := Items(m);
    var a, b := EventPair(m).0, EventPair(m).1;
    assert items[1..][1..] == [] && [a, b][1..] == [b] && [b][1..] == [];
    assert ItemsBytes(items) == Encode(a) + (Encode(b) + ItemsBytes([]));
    assert EncodeAll([a, b]) == Encode(a) + (Encode(b) + EncodeAll([]));
  }

  lemma {:induction false} EventsBytes(ms: seq<Message>)
    requires forall m :: m in ms ==> WellFormed(m) && IsEvent(m)
    ensures AllBytes(ms) == EncodeAll(Pairs(ms))
  {
    hide Bytes, EncodeAll;
    if ms == [] {
      assert EncodeAll([]) == [] by { NoValues(); }
    } else {
      EventBytes(ms[0]);
      EventsBytes(ms[1..]);
      EncodeAllAppend([EventPair(ms[0]).0, EventPair(ms[0]).1], Pairs(ms[1..]));
    }
  }

  lemma NoValues()
    ensures EncodeAll([]) == []
  {
  }

  /** A stream of counter events decodes to its keys and values. */
  lemma EventsBack(ms: seq<Message>)
    requires forall m :: m in ms ==> WellFormed(m) && IsEvent(m)
    ensures DecodeAll(AllBytes(ms)) == Values(Pairs(ms))
  {
    EventsBytes(ms);
    DecodeAllEncodeAll(Pairs(ms));
  }

  // ------------------------------------------------------------------ core names

  /** The core-name message at the front of a summary stream: code 3, core, CPU id, and the name behind its
      length. */
  function DecodeCoreName(s: seq<byte>): Read<Message> {
    var (code, s1) :- Read32(s);
    if code != 3 then Fail
    else
      var (core, s2) :- Read32(s1);
      var (cpuid, s3) :- Read32(s2);
      var (n, s4) :- Read32(s3);
      if n < 0 then Fail
      else
        var (name, s5) :- ReadRaw(s4, n);
        Got(CoreName(core, cpuid, name), s5)
  }

  function DecodeCoreNames(s: seq<byte>): Stream
    decreases |s|
  {
    if s == [] then Messages([])
    else
      match DecodeCoreName(s)
      case Fail => NoStream
      case Got(m, rest) =>
        if |rest| >= |s| then NoStream
        else
          match DecodeCoreNames(rest)
          case NoStream => NoStream
          case Messages(ms) => Messages([m] + ms)
  }

  /** A core name in front of anything is read back, and nothing beyond it. */
  lemma CoreNameBack(m: Message, t: seq<byte>)
    requires m.CoreName? && WellFormed(m)
    ensures DecodeCoreName(Bytes(m) + t) == Got(m, t)
  {
    hide Encode, Read32, Before, ItemsBytes;
    var n: int32 := |m.name|;
    var s4 := m.name + t;
    var s3 := Encode(n) + s4;
    var s2 := Encode(m.cpuid) + s3;
    BeforeIs(Items(m), t);
    assert Items(m) == [I32(3), I32(m.core)] + ([I32(m.cpuid), I32(n)] + [Raw(m.name)]);
    BeforeAppend([I32(3), I32(m.core)], [I32(m.cpuid), I32(n)] + [Raw(m.name)], t);
    BeforeAppend([I32(m.cpuid), I32(n)], [Raw(m.name)], t);
    BeforeOne(Raw(m.name), t);
    BeforeTwo(I32(m.cpuid), I32(n), s4);
    BeforeTwo(I32(3), I32(m.core), s2);
    Int32Back(3, Encode(m.core) + s2);
    Int32Back(m.core, s2);
    Int32Back(m.cpuid, s3);
    Int32Back(n, s4);
    RawBack(m.name, t);
  }

  lemma {:induction false} CoreNamesBack(ms: seq<Message>)
    requires forall m :: m in ms ==> m.CoreName? && WellFormed(m)
    ensures DecodeCoreNames(AllBytes(ms)) == Messages(ms)
  {
    hide DecodeCoreName, Bytes, WellFormed;
    if ms != [] {
      var rest := AllBytes(ms[1..]);
      CoreNameBack(ms[0], rest);
      BytesSome(ms[0]);
      CoreNamesBack(ms[1..]);
      assert ms == [ms[0]] + ms[1..];
    }
  }

  // ------------------------------------------------------------------ what a run delivers

  /** The messages that a run accepts, in order. */
  ghost function AcceptedBy(c: Config, s: State, steps: seq<Step>): seq<Message>
    requires Legal(c, s, steps)
    decreases |steps|
  {
    if steps == [] then []
    else
      (if steps[0].Put? && Accepted(c, s, steps[0].m) then [steps[0].m] else [])
      + AcceptedBy(c, Next(c, s, steps[0]), steps[1..])
  }

  lemma StepLogs(c: Config, s: State, step: Step)
    requires Enabled(c, s, step)
    ensures Next(c, s, step).log
         == s.log + (if step.Put? && Accepted(c, s, step.m) then Bytes(step.m) else [])
  {
    hide Bytes, Wire, Committed;
    assert s.log + [] == s.log;
  }

  lemma {:induction false} RunLogs(c: Config, s: State, steps: seq<Step>)
    requires Legal(c, s, steps)
    ensures forall m :: m in AcceptedBy(c, s, steps) ==> WellFormed(m)
    ensures Run(c, s, steps).log == s.log + AllBytes(AcceptedBy(c, s, steps))
    decreases |steps|
  {
    hide Bytes, WellFormed, Next, Accepted;
    if steps == [] {
      assert s.log + [] == s.log;
    } else {
      StepLogs(c, s, steps[0]);
      RunLogs(c, Next(c, s, steps[0]), steps[1..]);
      var more := AcceptedBy(c, Next(c, s, steps[0]), steps[1..]);
      if steps[0].Put? && Accepted(c, s, steps[0].m) {
        assert WellFormed(steps[0].m);
        assert ([steps[0].m] + more)[1..] == more;
        assert s.log + Bytes(steps[0].m) + AllBytes(more) == s.log + (Bytes(steps[0].m) + AllBytes(more));
      } else {
        assert [] + more == more;
      }
    }
  }

  /** End to end: for every interleaving of writer and reader, once the buffer is done, cutting the bytes
      that were sent into frames, dropping the frame headers and decoding what is left gives exactly the
      messages that were accepted, in order. */
  lemma RunDeliversMessages(c: Config, steps: seq<Step>)
    requires ConfigOk(c) && Legal(c, Init(c), steps) && IsDone(c, Run(c, Init(c), steps))
    requires Sequence(AcceptedBy(c, Init(c), steps), false)
    ensures var frames := Parse(c.local, Run(c, Init(c), steps).sent);
      && frames.Frames?
      && DecodeStream(Bodies(|c.header|, frames.frames), false) == Messages(AcceptedBy(c, Init(c), steps))
  {
    hide Run, Legal, Sequence, DecodeStream, Parse, Bodies;
    RunComplete(c, steps);
    RunLogs(c, Init(c), steps);
    var ms := AcceptedBy(c, Init(c), steps);
    assert [] + AllBytes(ms) == AllBytes(ms);
    StreamBack(ms, false);
  }

  /** The same for block-counter events: a done buffer has sent exactly the keys and values of the events
      that were accepted, in order. */
  lemma RunDeliversEvents(c: Config, steps: seq<Step>)
    requires ConfigOk(c) && Legal(c, Init(c), steps) && IsDone(c, Run(c, Init(c), steps))
    requires forall m :: m in AcceptedBy(c, Init(c), steps) ==> IsEvent(m)
    ensures var frames := Parse(c.local, Run(c, Init(c), steps).sent);
      && frames.Frames?
      && (forall m :: m in AcceptedBy(c, Init(c), steps) ==> WellFormed(m) && IsEvent(m))
      && DecodeAll(Bodies(|c.header|, frames.frames)) == Values(Pairs(AcceptedBy(c, Init(c), steps)))
  {
    hide Run, Legal, DecodeAll, Parse, Bodies, AcceptedBy;
    RunComplete(c, steps);
    RunLogs(c, Init(c), steps);
    var ms := AcceptedBy(c, Init(c), steps);
    assert [] + AllBytes(ms) == AllBytes(ms);
    EventsBack(ms);
  }

  /** The same for core names: a done summary buffer has sent exactly the core names that were accepted. */
  lemma RunDeliversCoreNames(c: Config, steps: seq<Step>)
    requires ConfigOk(c) && Legal(c, Init(c), steps) && IsDone(c, Run(c, Init(c), steps))
    requires forall m :: m in AcceptedBy(c, Init(c), steps) ==> m.CoreName?
    ensures var frames := Parse(c.local, Run(c, Init(c), steps).sent);
      && frames.Frames?
      && DecodeCoreNames(Bodies(|c.header|, frames.frames)) == Messages(AcceptedBy(c, Init(c), steps))
  {
    hide Run, Legal, DecodeCoreNames, Parse, Bodies, AcceptedBy;
    RunComplete(c, steps);
    RunLogs(c, Init(c), steps);
    var ms := AcceptedBy(c, Init(c), steps);
    assert [] + AllBytes(ms) == AllBytes(ms);
    CoreNamesBack(ms);
  }
}

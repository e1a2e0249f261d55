/** The messages of the daemon's capture buffer: what each one writes and how much space it asks for. */
module Messages {
  import opened RingIndex
  import opened Leb128

  /** One write to the buffer: a packed integer or raw bytes. */
  datatype Item = I32(x: int32) | I64(y: int64) | Raw(data: seq<byte>)

  datatype Message =
    | CoreName(core: int32, cpuid: int32, name: seq<byte>)
    | EventHeader(time: int64)
    | EventTid(tid: int32)
    | Event(key: int32, value: int32)
    | Event64(key: int32, value64: int64)
    | Pea(pea: seq<byte>, key: int32)
    | Keys(ids: seq<(int64, int32)>)
    | KeysOld(keys: seq<int32>, raw: seq<byte>)
    | Format(format: seq<byte>)
    | Maps(pid: int32, tid: int32, maps: seq<byte>)
    | Comm(pid: int32, tid: int32, image: seq<byte>, comm: seq<byte>)
    | OnlineCpu(time: int64, cpu: int32)
    | OfflineCpu(time: int64, cpu: int32)
    | Kallsyms(kallsyms: seq<byte>)
    | PerfCounterHeader(time: int64)
    | PerfCounter(core: int32, key: int32, value64: int64)
    | PerfCounterFooter

  const MESSAGE_CORE_NAME := 3
  const CODE_PEA := 1
  const CODE_KEYS := 2
  const CODE_FORMAT := 3
  const CODE_MAPS := 4
  const CODE_COMM := 5
  const CODE_KEYS_OLD := 6
  const CODE_ONLINE_CPU := 7
  const CODE_OFFLINE_CPU := 8
  const CODE_KALLSYMS := 9
  const CODE_COUNTERS := 10

  const NUL: seq<byte> := [0]

  /** Lengths are passed as `int` by the source. */
  predicate WellFormed(m: Message) {
    match m
    case CoreName(_, _, name) => |name| < 0x8000_0000
    case Keys(ids) => |ids| < 0x8000_0000
    case KeysOld(keys, _) => |keys| < 0x8000_0000
    case _ => true
  }

  /** How many bytes a packed 32-bit integer takes. */
  function Size32(x: int32): nat {
    if -0x40 <= x < 0x40 then 1
    else if -0x2000 <= x < 0x2000 then 2
    else if -0x10_0000 <= x < 0x10_0000 then 3
    else if -0x800_0000 <= x < 0x800_0000 then 4
    else MAXSIZE_PACK32
  }

  /** The longest core name that the fixed reserve of its message covers whatever the numbers. */
  const MAX_CORE_NAME := 258

  function CoreNameSize(core: int32, cpuid: int32, name: seq<byte>): nat
    requires |name| < 0x8000_0000
  {
    1 + Size32(core) + Size32(cpuid) + Size32(|name|) + |name|
  }

  /** The messages that write more than they asked for: a hot-plug message whose time and CPU both have
      the longest encoding, and a core name that is too long for its numbers. */
  predicate Overruns(m: Message)
    requires WellFormed(m)
  {
    match m
    case CoreName(core, cpuid, name) => CoreNameSize(core, cpuid, name) > Reserve(m)
    case OnlineCpu(time, cpu) => LongTime(time) && LongCpu(cpu)
    case OfflineCpu(time, cpu) => LongTime(time) && LongCpu(cpu)
    case _ => false
  }

  predicate LongTime(time: int64) { !(-0x4000_0000_0000_0000 <= time < 0x4000_0000_0000_0000) }

  predicate LongCpu(cpu: int32) { !(-0x800_0000 <= cpu < 0x800_0000) }

  /** The one thing a caller has to see to: a core name that writes at most `slack` bytes too many. */
  predicate Fits(m: Message, slack: int)
    requires WellFormed(m)
  {
    m.CoreName? ==> CoreNameSize(m.core, m.cpuid, m.name) <= Reserve(m) + slack
  }

  function KeyItems(ids: seq<(int64, int32)>): seq<Item> {
    if ids == [] then [] else [I64(ids[0].0), I32(ids[0].1)] + KeyItems(ids[1..])
  }

  function OldKeyItems(keys: seq<int32>): seq<Item> {
    if keys == [] then [] else [I32(keys[0])] + OldKeyItems(keys[1..])
  }

  /** The writes of a message, in order. */
  function Items(m: Message): seq<Item>
    requires WellFormed(m)
  {
    match m
    case CoreName(core, cpuid, name) => [I32(MESSAGE_CORE_NAME), I32(core), I32(cpuid), I32(|name|), Raw(name)]
    case EventHeader(time) => [I32(0), I64(time)]
    case EventTid(tid) => [I32(1), I32(tid)]
    case Event(key, value) => [I32(key), I32(value)]
    case Event64(key, value) => [I32(key), I64(value)]
    case Pea(pea, key) => [I32(CODE_PEA), Raw(pea), I32(key)]
    case Keys(ids) => [I32(CODE_KEYS), I32(|ids|)] + KeyItems(ids)
    case KeysOld(keys, raw) => [I32(CODE_KEYS_OLD), I32(|keys|)] + OldKeyItems(keys) + [Raw(raw)]
    case Format(format) => [I32(CODE_FORMAT), Raw(format + NUL)]
    case Maps(pid, tid, maps) => [I32(CODE_MAPS), I32(pid), I32(tid), Raw(maps + NUL)]
    case Comm(pid, tid, image, comm) =>
      [I32(CODE_COMM), I32(pid), I32(tid), Raw(image + NUL), Raw(comm + NUL)]
    case OnlineCpu(time, cpu) => [I32(CODE_ONLINE_CPU), I64(time), I32(cpu)]
    case OfflineCpu(time, cpu) => [I32(CODE_OFFLINE_CPU), I64(time), I32(cpu)]
    case Kallsyms(text) => [I32(CODE_KALLSYMS), Raw(text + NUL)]
    case PerfCounterHeader(time) => [I32(CODE_COUNTERS), I64(time)]
    case PerfCounter(core, key, value) => [I32(core), I32(key), I64(value)]
    case PerfCounterFooter => [I32(-1)]
  }

  /** The space the message asks `checkSpace` for. */
  function Reserve(m: Message): nat {
    match m
    case CoreName(_, _, _) => 3 * MAXSIZE_PACK32 + 0x100
    case EventHeader(_) => MAXSIZE_PACK32 + MAXSIZE_PACK64
    case EventTid(_) => 2 * MAXSIZE_PACK32
    case Event(_, _) => 2 * MAXSIZE_PACK32
    case Event64(_, _) => MAXSIZE_PACK64 + MAXSIZE_PACK32
    case Pea(pea, _) => 2 * MAXSIZE_PACK32 + |pea|
    case Keys(ids) => 2 * MAXSIZE_PACK32 + |ids| * (MAXSIZE_PACK32 + MAXSIZE_PACK64)
    case KeysOld(keys, raw) => (2 + |keys|) * MAXSIZE_PACK32 + |raw|
    case Format(format) => MAXSIZE_PACK32 + |format| + 1
    case Maps(_, _, maps) => 3 * MAXSIZE_PACK32 + |maps| + 1
    case Comm(_, _, image, comm) => 3 * MAXSIZE_PACK32 + (|image| + 1) + (|comm| + 1)
    case OnlineCpu(_, _) => MAXSIZE_PACK32 + MAXSIZE_PACK64
    case OfflineCpu(_, _) => MAXSIZE_PACK32 + MAXSIZE_PACK64
    case Kallsyms(text) => 3 * MAXSIZE_PACK32 + |text| + 1
    case PerfCounterHeader(_) => MAXSIZE_PACK32 + MAXSIZE_PACK64
    case PerfCounter(_, _, _) => 2 * MAXSIZE_PACK32 + MAXSIZE_PACK64
    case PerfCounterFooter => MAXSIZE_PACK32
  }

  /** Whether the message waits for space (and is retried) or is dropped when there is none. */
  predicate Blocking(m: Message) {
    !(m.CoreName? || m.EventHeader? || m.EventTid? || m.Event? || m.Event64?)
  }

  /** Whether the message ends in `check`. */
  predicate EndsInCheck(m: Message) {
    !(m.EventHeader? || m.EventTid? || m.Event? || m.Event64? || m.PerfCounterHeader? || m.PerfCounter?)
  }

  function ItemBytes(i: Item): seq<byte> {
    match i
    case I32(x) => Encode(x)
    case I64(x) => Encode(x)
    case Raw(data) => data
  }

  function ItemsBytes(items: seq<Item>): seq<byte> {
    if items == [] then [] else ItemBytes(items[0]) + ItemsBytes(items[1..])
  }

  /** The write after the first `i` takes its bytes off the front of what is left. */
  lemma ItemsStep(items: seq<Item>, i: nat)
    requires i < |items|
    ensures ItemsBytes(items[i..]) == ItemBytes(items[i]) + ItemsBytes(items[i + 1..])
  {
    assert items[i..][1..] == items[i + 1..];
  }

  function Bytes(m: Message): seq<byte>
    requires WellFormed(m)
  {
    ItemsBytes(Items(m))
  }

  /** An upper bound on the size of one write ... */
  function ItemBound(i: Item): nat {
    match i
    case I32(x) => Size32(x)
    case I64(_) => MAXSIZE_PACK64
    case Raw(data) => |data|
  }

  /** ... and of a list of writes. */
  function Bound(items: seq<Item>): nat {
    if items == [] then 0 else ItemBound(items[0]) + Bound(items[1..])
  }

  lemma Size32Exact(x: int32)
    ensures |Encode(x)| == Size32(x)
  {
    hide Encode;
    Pack32Length(x);
    EncodeLength(x, 1);
    EncodeLength(x, 2);
    EncodeLength(x, 3);
    EncodeLength(x, 4);
    assert Half(4) == 128 * Half(3) && Half(3) == 128 * Half(2) && Half(2) == 128 * Half(1);
  }

  lemma {:induction false} BoundHolds(items: seq<Item>)
    ensures |ItemsBytes(items)| <= Bound(items)
  {
    if items != [] {
      BoundHolds(items[1..]);
      match items[0] {
        case I32(x) => Size32Exact(x);
        case I64(x) => Pack64Length(x);
        case Raw(_) =>
      }
    }
  }

  lemma {:induction false} BoundAppend(a: seq<Item>, b: seq<Item>)
    ensures Bound(a + b) == Bound(a) + Bound(b)
  {
    if a == [] {
      assert a + b == b;
    } else {
      assert (a + b)[1..] == a[1..] + b;
      BoundAppend(a[1..], b);
    }
  }

  lemma {:induction false} BoundShort(items: seq<Item>)
    requires 1 <= |items| <= 5
    ensures Bound(items) == ItemBound(items[0])
                          + (if |items| > 1 then ItemBound(items[1]) else 0)
                          + (if |items| > 2 then ItemBound(items[2]) else 0)
                          + (if |items| > 3 then ItemBound(items[3]) else 0)
                          + (if |items| > 4 then ItemBound(items[4]) else 0)
  {
    if |items| > 1 {
      BoundShort(items[1..]);
    }
  }

  lemma {:induction false} KeyBound(ids: seq<(int64, int32)>)
    ensures Bound(KeyItems(ids)) <= 15 * |ids|
  {
    if ids != [] {
      KeyBound(ids[1..]);
      BoundAppend([I64(ids[0].0), I32(ids[0].1)], KeyItems(ids[1..]));
      BoundShort([I64(ids[0].0), I32(ids[0].1)]);
    }
  }

  lemma {:induction false} OldKeyBound(keys: seq<int32>)
    ensures Bound(OldKeyItems(keys)) <= 5 * |keys|
  {
    if keys != [] {
      OldKeyBound(keys[1..]);
      BoundAppend([I32(keys[0])], OldKeyItems(keys[1..]));
    }
  }

  lemma KeysFit(m: Message)
    requires m.Keys? && WellFormed(m)
    ensures Bound(Items(m)) <= Reserve(m)
  {
    KeyBound(m.ids);
    BoundAppend([I32(CODE_KEYS), I32(|m.ids|)], KeyItems(m.ids));
    BoundShort([I32(CODE_KEYS), I32(|m.ids|)]);
  }

  lemma KeysOldFit(m: Message)
    requires m.KeysOld? && WellFormed(m)
    ensures Bound(Items(m)) <= Reserve(m)
  {
    OldKeyBound(m.keys);
    var head := [I32(CODE_KEYS_OLD), I32(|m.keys|)];
    BoundAppend(head, OldKeyItems(m.keys));
    BoundAppend(head + OldKeyItems(m.keys), [Raw(m.raw)]);
    BoundShort(head);
  }

  /** The bytes of a short list of writes. */
  lemma {:induction false} SizeShort(items: seq<Item>)
    requires 1 <= |items| <= 5
    ensures |ItemsBytes(items)| == |ItemBytes(items[0])|
                                 + (if |items| > 1 then |ItemBytes(items[1])| else 0)
                                 + (if |items| > 2 then |ItemBytes(items[2])| else 0)
                                 + (if |items| > 3 then |ItemBytes(items[3])| else 0)
                                 + (if |items| > 4 then |ItemBytes(items[4])| else 0)
  {
    hide ItemBytes;
    if |items| > 1 {
      SizeShort(items[1..]);
    }
  }

  lemma CoreNameExact(core: int32, cpuid: int32, name: seq<byte>)
    requires |name| < 0x8000_0000
    ensures |Bytes(CoreName(core, cpuid, name))| == CoreNameSize(core, cpuid, name)
  {
    hide Encode, ItemsBytes, Size32;
    SizeShort(Items(CoreName(core, cpuid, name)));
    Size32Exact(MESSAGE_CORE_NAME);
    assert Size32(MESSAGE_CORE_NAME) == 1 by { SmallSize(MESSAGE_CORE_NAME); }
    Size32Exact(core);
    Size32Exact(cpuid);
    Size32Exact(|name|);
  }

  lemma SmallSize(x: int32)
    requires 0 <= x < 0x40
    ensures Size32(x) == 1 && |Encode(x)| == 1
  {
  }

  lemma HotplugExact(m: Message)
    requires m.OnlineCpu? || m.OfflineCpu?
    ensures |Bytes(m)| <= Reserve(m) + 1
    ensures |Bytes(m)| == Reserve(m) + 1 <==> LongTime(m.time) && LongCpu(m.cpu)
  {
    hide Encode, ItemsBytes, Size32, Half;
    SizeShort(Items(m));
    SmallSize(CODE_ONLINE_CPU);
    SmallSize(CODE_OFFLINE_CPU);
    Pack64Length(m.time);
    EncodeLength(m.time, 9);
    Pack32Length(m.cpu);
    EncodeLength(m.cpu, 4);
    Halves();
  }

  /** A message writes at most what it asked for exactly if it is not one of those that overrun; with
      some slack, exactly the core names that fit into it are within it. */
  lemma MessageFits(m: Message)
    requires WellFormed(m)
    ensures |Bytes(m)| <= Reserve(m) <==> !Overruns(m)
    ensures forall slack :: slack >= 1 ==> (|Bytes(m)| <= Reserve(m) + slack <==> Fits(m, slack))
  {
    if m.CoreName? {
      CoreNameExact(m.core, m.cpuid, m.name);
    } else if m.OnlineCpu? || m.OfflineCpu? {
      HotplugExact(m);
    } else {
      OthersFit(m);
    }
  }

  lemma OthersFit(m: Message)
    requires WellFormed(m) && !m.CoreName? && !m.OnlineCpu? && !m.OfflineCpu?
    ensures |Bytes(m)| <= Reserve(m)
  {
    hide ItemsBytes;
    BoundHolds(Items(m));
    if m.Keys? {
      KeysFit(m);
    } else if m.KeysOld? {
      KeysOldFit(m);
    } else {
      BoundShort(Items(m));
    }
  }

  /** The most a write can take: five bytes for a 32-bit integer, ten for a 64-bit one, the raw bytes. */
  function FieldMost(i: Item): nat {
    match i
    case I32(_) => 5
    case I64(_) => 10
    case Raw(data) => |data|
  }

  function FieldBound(items: seq<Item>): nat {
    if items == [] then 0 else FieldMost(items[0]) + FieldBound(items[1..])
  }

  lemma {:induction false} FieldBoundAppend(a: seq<Item>, b: seq<Item>)
    ensures FieldBound(a + b) == FieldBound(a) + FieldBound(b)
  {
    if a == [] {
      assert a + b == b;
    } else {
      assert (a + b)[1..] == a[1..] + b;
      FieldBoundAppend(a[1..], b);
    }
  }

  lemma {:induction false} FieldBoundShort(items: seq<Item>)
    requires 1 <= |items| <= 5
    ensures FieldBound(items) == FieldMost(items[0])
                               + (if |items| > 1 then FieldMost(items[1]) else 0)
                               + (if |items| > 2 then FieldMost(items[2]) else 0)
                               + (if |items| > 3 then FieldMost(items[3]) else 0)
                               + (if |items| > 4 then FieldMost(items[4]) else 0)
  {
    if |items| > 1 {
      FieldBoundShort(items[1..]);
    }
  }

  lemma {:induction false} KeyFields(ids: seq<(int64, int32)>)
    ensures FieldBound(KeyItems(ids)) == 15 * |ids|
  {
    if ids != [] {
      KeyFields(ids[1..]);
      FieldBoundAppend([I64(ids[0].0), I32(ids[0].1)], KeyItems(ids[1..]));
      FieldBoundShort([I64(ids[0].0), I32(ids[0].1)]);
    }
  }

  lemma {:induction false} OldKeyFields(keys: seq<int32>)
    ensures FieldBound(OldKeyItems(keys)) == 5 * |keys|
  {
    if keys != [] {
      OldKeyFields(keys[1..]);
      FieldBoundAppend([I32(keys[0])], OldKeyItems(keys[1..]));
    }
  }

  /** A message asks for the most its fields can take, except that a hot-plug message forgets its code, a
      symbol chunk asks for two integers more, and a core name asks for three integers and 256 bytes. */
  lemma ReserveExact(m: Message)
    requires WellFormed(m)
    ensures var most := FieldBound(Items(m));
      Reserve(m) == if m.CoreName? then 271
                    else if m.OnlineCpu? || m.OfflineCpu? then most - MAXSIZE_PACK32
                    else if m.Kallsyms? then most + 2 * MAXSIZE_PACK32
                    else most
  {
    if m.Keys? {
      KeyFields(m.ids);
      var head := [I32(CODE_KEYS), I32(|m.ids|)];
      FieldBoundAppend(head, KeyItems(m.ids));
      FieldBoundShort(head);
    } else if m.KeysOld? {
      OldKeyFields(m.keys);
      var head := [I32(CODE_KEYS_OLD), I32(|m.keys|)];
      FieldBoundAppend(head, OldKeyItems(m.keys));
      FieldBoundAppend(head + OldKeyItems(m.keys), [Raw(m.raw)]);
      FieldBoundShort(head);
    } else {
      hide FieldBound;
      FieldBoundShort(Items(m));
    }
  }

  /** The reserve of a core name covers it, whatever the numbers, exactly up to `MAX_CORE_NAME`. */
  lemma CoreNameFits(name: seq<byte>)
    requires |name| < 0x8000_0000
    ensures |name| <= MAX_CORE_NAME <==>
      forall core: int32, cpuid: int32 ::
        |Bytes(CoreName(core, cpuid, name))| <= Reserve(CoreName(core, cpuid, name))
  {
    hide Bytes;
    forall core: int32, cpuid: int32
      ensures |Bytes(CoreName(core, cpuid, name))| == CoreNameSize(core, cpuid, name)
    {
      CoreNameExact(core, cpuid, name);
    }
    var top: int32 := 0x7fff_ffff;
    assert |Bytes(CoreName(top, top, name))| == CoreNameSize(top, top, name);
  }

  /** The extra byte of the hot-plug messages is real. */
  lemma OnlineCpuOverruns()
    ensures exists m: Message :: WellFormed(m) && m.OnlineCpu? && |Bytes(m)| == Reserve(m) + 1
  {
    var m := OnlineCpu(0x7fff_ffff_ffff_ffff, 0x7fff_ffff);
    HotplugExact(m);
  }
}

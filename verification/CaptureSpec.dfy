/** The capture buffer as a protocol between one writer and one reader, without the ring:
    committed frames, one open frame, and a reader that snapshots, sends and releases. */
module CaptureSpec {
  import opened RingIndex
  import opened Framing
  import opened Messages
  import opened Leb128

  /** `FRAME_HEADER_SIZE`: a frame whose payload is not longer holds no message. */
  const FRAME_HEADER_SIZE := 3
  const ROOM := 200
  const HYSTERESIS := 2000

  /** `header` is what every payload starts with: the frame type and, for some types, the core. */
  datatype Config = Config(size: nat, local: bool, header: seq<byte>, liveRate: nat)

  ghost predicate ConfigOk(c: Config) {
    IsPow2(c.size) && 256 <= c.size <= 0x4000_0000 && 0 < |c.header| <= FRAME_HEADER_SIZE
  }

  /** Where the reader is inside `Buffer::write`: between calls, holding a snapshot of the commit
      cursor, or done sending up to that snapshot but not having moved the read cursor yet. */
  datatype Reader = Idle | Snapped(upto: nat) | Sent(upto: nat)

  /** `log` collects the bytes of every accepted message; `sent` what the sender was given. */
  datatype State = State(
    frames: seq<seq<byte>>, open: bool, cur: seq<byte>,
    released: nat, reader: Reader, sent: seq<byte>,
    available: bool, done: bool, commitTime: nat, log: seq<byte>)

  datatype Step =
    | Put(m: Message, time: nat)
    | DoCommit(time: nat, force: bool)
    | DoCheck(time: nat)
    | SetDone
    | Snapshot
    | Send
    | Release

  function Overhead(c: Config): nat { TypeLength(c.local) + LENGTH_BYTES }

  function Committed(c: Config, s: State): nat { |Wire(c.local, s.frames)| }

  /** The bytes written since the last commit, frame prefix included. */
  function Uncommitted(c: Config, s: State): nat {
    if s.open then Overhead(c) + |s.cur| else 0
  }

  function Written(c: Config, s: State): nat { Committed(c, s) + Uncommitted(c, s) }

  function Filled(c: Config, s: State): int { Written(c, s) - s.released }

  /** `Buffer::bytesAvailable`. */
  function Space(c: Config, s: State): int {
    c.size - Filled(c, s) - (if s.available then ROOM else HYSTERESIS)
  }

  /** The commit deadline moves in whole periods to the first one not before `time`. */
  function Advance(rate: nat, deadline: nat, time: nat): (t: nat)
    ensures deadline <= t && (rate > 0 ==> time <= t)
    decreases time - deadline
  {
    if rate > 0 && time > deadline then Advance(rate, deadline + rate, time) else deadline
  }

  /** The deadline moved by a whole number of periods, and not by one too many. */
  lemma {:induction false} AdvanceExact(rate: nat, deadline: nat, time: nat) returns (k: nat)
    requires rate > 0
    ensures Advance(rate, deadline, time) == deadline + k * rate
    ensures k > 0 ==> Advance(rate, deadline, time) < time + rate
    decreases time - deadline
  {
    if time > deadline {
      var k' := AdvanceExact(rate, deadline + rate, time);
      k := k' + 1;
    } else {
      k := 0;
    }
  }

  /** The constructor's state: one open frame. */
  function Init(c: Config): State {
    State([], true, c.header, 0, Idle, [], true, false, c.liveRate, [])
  }

  function Commit(c: Config, s: State, time: nat, force: bool): State
    requires s.open
  {
    if !force && !s.done && |s.cur| <= FRAME_HEADER_SIZE then s
    else s.(frames := s.frames + [s.cur],
            commitTime := Advance(c.liveRate, s.commitTime, time),
            open := !s.done,
            cur := if s.done then [] else c.header)
  }

  function Check(c: Config, s: State, time: nat): State
    requires s.open
  {
    if Uncommitted(c, s) >= c.size * 3 / 4 || (c.liveRate > 0 && time >= s.commitTime)
    then Commit(c, s, time, false) else s
  }

  /** Message bytes written to the open frame. */
  function Append(s: State, data: seq<byte>): State {
    s.(cur := s.cur + data, log := s.log + data)
  }

  lemma AppendNothing(s: State)
    ensures Append(s, []) == s
  {
    assert s.cur + [] == s.cur && s.log + [] == s.log;
  }

  lemma AppendTwice(s: State, a: seq<byte>, b: seq<byte>)
    ensures Append(Append(s, a), b) == Append(s, a + b)
  {
    assert s.cur + a + b == s.cur + (a + b) && s.log + a + b == s.log + (a + b);
  }

  /** One attempt at a message: `checkSpace`, the writes, and `check` where the message has one.
      A blocking message that finds no space is retried later as a new step. */
  function PutMessage(c: Config, s: State, m: Message, time: nat): State
    requires s.open && WellFormed(m)
  {
    var ok := Space(c, s) >= Reserve(m);
    var s1 := s.(available := ok);
    var s2 := if ok then Append(s1, Bytes(m)) else s1;
    if EndsInCheck(m) && (ok || !Blocking(m)) then Check(c, s2, time) else s2
  }

  predicate Accepted(c: Config, s: State, m: Message) { Space(c, s) >= Reserve(m) }

  /** There is room for the header that a forced commit adds.  A frame that holds a message always
      leaves it. */
  predicate RoomForHeader(c: Config, s: State) { RoomAfter(c, s, 0) }

  /** After `n` more bytes the prefix and header of another frame still fit. */
  predicate RoomAfter(c: Config, s: State, n: nat) {
    Filled(c, s) + n + Overhead(c) + |c.header| < c.size
  }

  /** How far a message may overrun its reserve: the margin, less what a commit adds. */
  function Slack(c: Config): int { ROOM - 1 - (Overhead(c) + |c.header|) }

  /** The margin covers the message. */
  predicate Covered(c: Config, m: Message)
    requires WellFormed(m)
  {
    Fits(m, Slack(c))
  }

  predicate Enabled(c: Config, s: State, step: Step) {
    match step
    case Put(m, _) => s.open && WellFormed(m) && Covered(c, m)
    case DoCommit(_, force) => s.open && (force ==> RoomForHeader(c, s))
    case DoCheck(_) => s.open
    case SetDone => s.open
    case Snapshot => s.reader.Idle?
    case Send => s.reader.Snapped? && s.released <= s.reader.upto <= Committed(c, s)
    case Release => s.reader.Sent?
  }

  function Next(c: Config, s: State, step: Step): State
    requires Enabled(c, s, step)
  {
    match step
    case Put(m, time) => PutMessage(c, s, m, time)
    case DoCommit(time, force) => Commit(c, s, time, force)
    case DoCheck(time) => Check(c, s, time)
    case SetDone => Commit(c, s.(done := true), 0, false)
    case Snapshot => if Committed(c, s) == s.released then s else s.(reader := Snapped(Committed(c, s)))
    case Send => s.(sent := s.sent + Wire(c.local, s.frames)[s.released..s.reader.upto],
                    reader := Sent(s.reader.upto))
    case Release => s.(released := s.reader.upto, reader := Idle)
  }

  /** `Buffer::isDone`. */
  predicate IsDone(c: Config, s: State) {
    s.done && s.released == Committed(c, s) && Committed(c, s) == Written(c, s)
  }

  // ------------------------------------------------------------------ the invariant

  predicate FrameOk(c: Config, f: seq<byte>) {
    c.header <= f && Payload(f)
  }

  /** The messages in the open frame. */
  function OpenBody(c: Config, s: State): seq<byte> {
    if s.open && |c.header| <= |s.cur| then s.cur[|c.header|..] else []
  }

  /** The reader has been given a prefix of the committed stream, and never runs past it. */
  ghost predicate ReaderOk(c: Config, s: State) {
    var wire := Wire(c.local, s.frames);
    && s.released <= |wire|
    && match s.reader
       case Idle => s.sent == wire[..s.released]
       case Snapped(u) => s.released <= u <= |wire| && s.sent == wire[..s.released]
       case Sent(u) => s.released <= u <= |wire| && s.sent == wire[..u]
  }

  /** The ring is not full, and a frame that holds a message leaves room for the header that its commit
      adds. */
  predicate RoomOk(c: Config, s: State) {
    if s.open && |s.cur| > |c.header| then RoomForHeader(c, s) else Filled(c, s) < c.size
  }

  ghost predicate Inv(c: Config, s: State) {
    && ConfigOk(c)
    && (forall f :: f in s.frames ==> FrameOk(c, f))
    && s.open == !s.done
    && (if s.open then FrameOk(c, s.cur) else s.cur == [])
    && ReaderOk(c, s)
    && RoomOk(c, s)
    && s.log == Bodies(|c.header|, s.frames) + OpenBody(c, s)
  }

  lemma InitInv(c: Config)
    requires ConfigOk(c)
    ensures Inv(c, Init(c))
  {
  }

  /** What the ring relies on: the three cursors are in order and less than one ring apart. */
  lemma InvBounds(c: Config, s: State)
    requires Inv(c, s)
    ensures ConfigOk(c) && IsPow2(c.size) && 256 <= c.size && 0 < |c.header| <= FRAME_HEADER_SIZE && s.open == !s.done
    ensures s.released <= Committed(c, s) <= Written(c, s) < s.released + c.size
    ensures !s.reader.Idle? ==> s.released <= s.reader.upto <= Committed(c, s)
  {
    hide Wire;
  }

  /** Committing extends the committed stream by the open frame, at the position where it was
      written. */
  lemma CommitExtends(c: Config, s: State)
    ensures Wire(c.local, s.frames + [s.cur]) == Wire(c.local, s.frames) + Frame(c.local, s.cur)
    ensures |Frame(c.local, s.cur)| == Overhead(c) + |s.cur|
  {
    WireSnoc(c.local, s.frames, s.cur);
  }

  lemma ReaderKept(c: Config, s: State, t: State)
    requires ReaderOk(c, s) && s.reader == t.reader && s.released == t.released && s.sent == t.sent
    requires Wire(c.local, s.frames) <= Wire(c.local, t.frames)
    ensures ReaderOk(c, t)
  {
    var w, v := Wire(c.local, s.frames), Wire(c.local, t.frames);
    assert forall n :: 0 <= n <= |w| ==> v[..n] == w[..n];
  }

  /** What a commit that publishes does to the room. */
  lemma CommitRoom(c: Config, s: State, time: nat, force: bool)
    requires s.open && ConfigOk(c) && RoomOk(c, s)
    requires force || s.done || |s.cur| > FRAME_HEADER_SIZE
    ensures RoomOk(c, Commit(c, s, time, force)) <==> s.done || RoomForHeader(c, s)
  {
    hide Wire, IsPow2, Frame;
    CommitExtends(c, s);
  }

  /** A commit keeps the invariant, except a forced one exactly if it finds no room for the header. */
  lemma CommitInv(c: Config, s: State, time: nat, force: bool)
    requires s.open && Inv(c, s.(done := false))
    ensures Inv(c, Commit(c, s, time, force)) <==> (force && !s.done ==> RoomForHeader(c, s))
    ensures |s.cur| > |c.header| ==> RoomForHeader(c, s)
  {
    hide Wire, IsPow2, Frame, Bodies;
    var t := Commit(c, s, time, force);
    if !force && !s.done && |s.cur| <= FRAME_HEADER_SIZE {
      assert t == s == s.(done := false);
    } else {
      CommitExtends(c, s);
      ReaderKept(c, s, t);
      BodiesSnoc(|c.header|, s.frames, s.cur);
      CommitRoom(c, s, time, force);
      assert t.log == Bodies(|c.header|, t.frames) + OpenBody(c, t);
    }
  }

  lemma AppendInv(c: Config, s: State, data: seq<byte>)
    requires Inv(c, s) && s.open && RoomAfter(c, s, |data|)
    ensures Inv(c, Append(s, data))
  {
    var h := |c.header|;
    assert (s.cur + data)[h..] == s.cur[h..] + data;
    assert c.header <= s.cur + data;
  }

  lemma CheckInv(c: Config, s: State, time: nat)
    requires Inv(c, s) && s.open
    ensures Inv(c, Check(c, s, time))
  {
    assert s.(done := false) == s;
    CommitInv(c, s, time, false);
  }

  lemma PutInv(c: Config, s: State, m: Message, time: nat)
    requires Inv(c, s) && s.open && WellFormed(m) && Covered(c, m)
    ensures Inv(c, PutMessage(c, s, m, time))
  {
    var ok := Accepted(c, s, m);
    var s1 := s.(available := ok);
    assert Inv(c, s1);
    if ok {
      AcceptedFits(c, s, m);
      AppendInv(c, s1, Bytes(m));
      CheckInv(c, Append(s1, Bytes(m)), time);
    } else {
      CheckInv(c, s1, time);
    }
  }

  /** A covered message, once accepted, leaves room for the next header. */
  lemma AcceptedFits(c: Config, s: State, m: Message)
    requires ConfigOk(c) && WellFormed(m) && Covered(c, m) && Accepted(c, s, m)
    ensures RoomAfter(c, s, |Bytes(m)|)
  {
    hide Wire, Bytes, Reserve, IsPow2;
    MessageFits(m);
  }

  /** A state whose open frame fills the ring exactly up to what `m` may still be accepted with. */
  function Brimming(c: Config, m: Message): State
    requires Accepted(c, Init(c), m)
  {
    var filler := seq(Space(c, Init(c)) - Reserve(m), _ => 0);
    State([], true, c.header + filler, 0, Idle, [], true, false, c.liveRate, filler)
  }

  lemma BrimmingInv(c: Config, m: Message)
    requires ConfigOk(c) && Accepted(c, Init(c), m)
    ensures Inv(c, Brimming(c, m)) && Space(c, Brimming(c, m)) == Reserve(m)
  {
    hide Reserve, IsPow2;
    assert Wire(c.local, []) == [] && Bodies(|c.header|, []) == [];
    var s := Brimming(c, m);
    assert s.cur[|c.header|..] == s.log;
    assert [] + s.log == s.log;
  }

  /** The overrun that the margin covers, exactly: a message that a fresh buffer accepts is written
      without harm in every state if and only if it is covered. */
  lemma CoveredExactly(c: Config, m: Message, time: nat)
    requires ConfigOk(c) && WellFormed(m) && Accepted(c, Init(c), m)
    ensures Covered(c, m) <==>
      forall s :: Inv(c, s) && s.open && Accepted(c, s, m) ==> Inv(c, PutMessage(c, s, m, time))
  {
    hide Inv, PutMessage, Reserve, Bytes, IsPow2;
    if Covered(c, m) {
      forall s | Inv(c, s) && s.open && Accepted(c, s, m)
        ensures Inv(c, PutMessage(c, s, m, time))
      {
        PutInv(c, s, m, time);
      }
    } else {
      BrimmingInv(c, m);
      BrimmingSpills(c, m, time);
      NoRoomNoInv(c, PutMessage(c, Brimming(c, m), m, time));
      assert !Inv(c, PutMessage(c, Brimming(c, m), m, time));
    }
  }

  lemma NoRoomNoInv(c: Config, s: State)
    requires !RoomOk(c, s)
    ensures !Inv(c, s)
  {
  }

  lemma BrimmingSpills(c: Config, m: Message, time: nat)
    requires ConfigOk(c) && WellFormed(m) && Accepted(c, Init(c), m) && !Covered(c, m)
    ensures Brimming(c, m).open && Accepted(c, Brimming(c, m), m)
    ensures !RoomOk(c, PutMessage(c, Brimming(c, m), m, time))
  {
    BrimmingInv(c, m);
    hide Reserve, Bytes, IsPow2, Wire, Brimming, Inv, Frame;
    MessageFits(m);
    var s := Append(Brimming(c, m), Bytes(m));
    CommitExtends(c, s);
  }

  lemma SendInv(c: Config, s: State)
    requires Inv(c, s) && Enabled(c, s, Send)
    ensures Inv(c, Next(c, s, Send))
  {
    var wire := Wire(c.local, s.frames);
    assert wire[..s.released] + wire[s.released..s.reader.upto] == wire[..s.reader.upto];
  }

  /** Every step of either side keeps the invariant. */
  lemma StepInv(c: Config, s: State, step: Step)
    requires Inv(c, s) && Enabled(c, s, step)
    ensures Inv(c, Next(c, s, step))
  {
    match step {
      case Put(m, time) => PutInv(c, s, m, time);
      case DoCommit(time, force) =>
        assert s.(done := false) == s;
        CommitInv(c, s, time, force);
      case DoCheck(time) => CheckInv(c, s, time);
      case SetDone =>
        assert s.(done := true).(done := false) == s;
        CommitInv(c, s.(done := true), 0, false);
      case Send => SendInv(c, s);
      case _ =>
    }
  }

  // ------------------------------------------------------------------ whole runs

  ghost predicate Legal(c: Config, s: State, steps: seq<Step>)
    decreases |steps|
  {
    steps == [] || (Enabled(c, s, steps[0]) && Legal(c, Next(c, s, steps[0]), steps[1..]))
  }

  ghost function Run(c: Config, s: State, steps: seq<Step>): State
    requires Legal(c, s, steps)
    decreases |steps|
  {
    if steps == [] then s else Run(c, Next(c, s, steps[0]), steps[1..])
  }

  lemma {:induction false} RunInv(c: Config, s: State, steps: seq<Step>)
    requires Inv(c, s) && Legal(c, s, steps)
    ensures Inv(c, Run(c, s, steps))
    decreases |steps|
  {
    hide Inv, Enabled;
    if steps != [] {
      StepInv(c, s, steps[0]);
      RunInv(c, Next(c, s, steps[0]), steps[1..]);
    }
  }

  /** For every interleaving of writer and reader steps: what was sent is a prefix of the committed
      frames, the committed stream parses back to exactly those frames, and the frames together with
      the open one carry exactly the accepted messages in order. */
  lemma RunDelivers(c: Config, steps: seq<Step>)
    requires ConfigOk(c) && Legal(c, Init(c), steps)
    ensures var s := Run(c, Init(c), steps);
      && s.sent <= Wire(c.local, s.frames)
      && Parse(c.local, Wire(c.local, s.frames)) == Frames(s.frames)
      && (forall f :: f in s.frames ==> c.header <= f)
      && s.log == Bodies(|c.header|, s.frames) + OpenBody(c, s)
      && 0 <= Filled(c, s) < c.size
  {
    hide Run, Legal, Parse, Bodies;
    InitInv(c);
    RunInv(c, Init(c), steps);
    ParseWire(c.local, Run(c, Init(c), steps).frames);
  }

  /** Once `isDone` holds, the bytes sent parse into frames that carry every accepted message. */
  lemma RunComplete(c: Config, steps: seq<Step>)
    requires ConfigOk(c) && Legal(c, Init(c), steps)
    requires IsDone(c, Run(c, Init(c), steps))
    ensures var s := Run(c, Init(c), steps);
      && Parse(c.local, s.sent) == Frames(s.frames)
      && Bodies(|c.header|, s.frames) == s.log
  {
    hide Run, Legal, Parse, Bodies, Wire;
    InitInv(c);
    RunDelivers(c, steps);
    RunInv(c, Init(c), steps);
    DoneSentAll(c, Run(c, Init(c), steps));
  }

  lemma DoneSentAll(c: Config, s: State)
    requires Inv(c, s) && IsDone(c, s)
    ensures s.sent == Wire(c.local, s.frames) && OpenBody(c, s) == []
    ensures s.log == Bodies(|c.header|, s.frames)
  {
    assert s.log == Bodies(|c.header|, s.frames) + [];
  }

  // ------------------------------------------------------------------ progress

  /** The commits of `check` keep the open frame below three quarters of the ring. */
  predicate BelowMark(c: Config, s: State) { Uncommitted(c, s) < c.size * 3 / 4 }

  lemma CheckBelowMark(c: Config, s: State, time: nat)
    requires Inv(c, s) && s.open
    ensures BelowMark(c, Check(c, s, time))
  {
  }

  /** The messages whose writers end in `check`: everything but events and the parts of a counter list
      before its end. */
  predicate Checked(step: Step) {
    step.Put? ==>
      var m := step.m;
      || m.CoreName? || m.Pea? || m.Keys? || m.KeysOld? || m.Format? || m.Maps? || m.Comm?
      || m.OnlineCpu? || m.OfflineCpu? || m.Kallsyms? || m.PerfCounterFooter?
  }

  /** The others never commit. */
  lemma UncheckedKeeps(c: Config, s: State, m: Message, time: nat)
    requires s.open && WellFormed(m) && !Checked(Put(m, time))
    ensures PutMessage(c, s, m, time).frames == s.frames
  {
    hide Bytes, Committed, Reserve;
  }

  /** A message that finds no space changes nothing but the flag, except that a core name still checks. */
  lemma RejectedLeaves(c: Config, s: State, m: Message, time: nat)
    requires s.open && WellFormed(m) && !Accepted(c, s, m)
    ensures var t := s.(available := false);
      PutMessage(c, s, m, time) == if m.CoreName? then Check(c, t, time) else t
  {
    hide Bytes, Committed, Reserve;
  }

  // ------------------------------------------------------------------ deadlines

  /** What the open frame holds is not overdue at `time`. */
  predicate Timely(c: Config, s: State, time: nat) {
    c.liveRate > 0 && s.open ==> |s.cur| <= FRAME_HEADER_SIZE || time < s.commitTime
  }

  /** A live capture commits at its deadline, and the next deadline is the first one not before the time;
      before the deadline and below the mark nothing is committed. */
  lemma CheckTimely(c: Config, s: State, time: nat)
    requires s.open && !s.done && |c.header| <= FRAME_HEADER_SIZE
    ensures var t := Check(c, s, time);
      && Timely(c, t, time)
      && (c.liveRate > 0 && time >= s.commitTime && |s.cur| > FRAME_HEADER_SIZE ==>
            t.frames == s.frames + [s.cur] && t.cur == c.header && time <= t.commitTime < time + c.liveRate)
      && (BelowMark(c, s) && (c.liveRate == 0 || time < s.commitTime) ==> t == s)
      && (!BelowMark(c, s) && |s.cur| > FRAME_HEADER_SIZE ==> t.frames == s.frames + [s.cur])
  {
    hide Committed, Advance;
    if c.liveRate > 0 {
      var k := AdvanceExact(c.liveRate, s.commitTime, time);
      AdvanceReaches(c.liveRate, s.commitTime, time);
    }
  }

  lemma AdvanceReaches(rate: nat, deadline: nat, time: nat)
    requires rate > 0
    ensures time <= Advance(rate, deadline, time)
    ensures time <= deadline ==> Advance(rate, deadline, time) == deadline
    ensures time > deadline ==> Advance(rate, deadline, time) != deadline
  {
  }

  /** Whether the step ends in a check: every message of these runs that is accepted does, and a core name
      in any case. */
  predicate Checks(c: Config, s: State, step: Step) {
    step.DoCheck? || (step.Put? && (Accepted(c, s, step.m) || step.m.CoreName?))
  }

  function CheckTime(c: Config, s: State, step: Step, t0: nat): nat {
    if Checks(c, s, step) then step.time else t0
  }

  /** The time of the last check of a run, `t0` if it has none. */
  ghost function LastCheck(c: Config, s: State, steps: seq<Step>, t0: nat): nat
    requires Legal(c, s, steps)
    decreases |steps|
  {
    if steps == [] then t0
    else LastCheck(c, Next(c, s, steps[0]), steps[1..], CheckTime(c, s, steps[0], t0))
  }

  lemma StepTimely(c: Config, s: State, step: Step, t0: nat)
    requires Inv(c, s) && Enabled(c, s, step) && Checked(step) && Timely(c, s, t0)
    ensures Timely(c, Next(c, s, step), CheckTime(c, s, step, t0))
  {
    InvBounds(c, s);
    hide Inv, Committed, Reserve, Bytes, Check, Wire;
    match step {
      case Put(m, time) =>
        if Accepted(c, s, m) {
          CheckTimely(c, Append(s.(available := true), Bytes(m)), time);
        } else {
          RejectedLeaves(c, s, m, time);
          CheckTimely(c, s.(available := false), time);
        }
      case DoCheck(time) => CheckTimely(c, s, time);
      case _ =>
    }
  }

  /** Over every run of messages that end in `check`: what is not yet committed was not overdue at the last
      check. */
  lemma {:induction false} RunTimely(c: Config, s: State, steps: seq<Step>, t0: nat)
    requires Inv(c, s) && Legal(c, s, steps) && Timely(c, s, t0) && forall t :: t in steps ==> Checked(t)
    ensures Timely(c, Run(c, s, steps), LastCheck(c, s, steps, t0))
    decreases |steps|
  {
    hide Inv, Enabled, Next, Timely, Checked, CheckTime;
    if steps != [] {
      StepInv(c, s, steps[0]);
      StepTimely(c, s, steps[0], t0);
      RunTimely(c, Next(c, s, steps[0]), steps[1..], CheckTime(c, s, steps[0], t0));
    }
  }

  /** Every deadline of a run is a positive multiple of the live rate. */
  ghost predicate WholePeriods(rate: nat, deadline: nat) {
    exists k: nat :: k > 0 && deadline == k * rate
  }

  lemma AdvancePeriods(rate: nat, deadline: nat, time: nat)
    requires rate > 0 && WholePeriods(rate, deadline)
    ensures WholePeriods(rate, Advance(rate, deadline, time))
  {
    var k: nat :| k > 0 && deadline == k * rate;
    var n := AdvanceExact(rate, deadline, time);
    SumPeriods(k, n, rate);
  }

  lemma SumPeriods(a: nat, b: nat, rate: nat)
    requires a > 0
    ensures WholePeriods(rate, a * rate + b * rate)
  {
    assert (a + b) * rate == a * rate + b * rate;
  }

  lemma StepPeriods(c: Config, s: State, step: Step)
    requires c.liveRate > 0 && Enabled(c, s, step) && WholePeriods(c.liveRate, s.commitTime)
    ensures WholePeriods(c.liveRate, Next(c, s, step).commitTime)
  {
    hide Committed, Reserve, Bytes, Advance, WholePeriods;
    var time := if step.Put? || step.DoCommit? || step.DoCheck? then step.time else 0;
    AdvancePeriods(c.liveRate, s.commitTime, time);
  }

  lemma {:induction false} RunPeriods(c: Config, s: State, steps: seq<Step>)
    requires c.liveRate > 0 && Legal(c, s, steps) && WholePeriods(c.liveRate, s.commitTime)
    ensures WholePeriods(c.liveRate, Run(c, s, steps).commitTime)
    decreases |steps|
  {
    hide Enabled, Next, WholePeriods;
    if steps != [] {
      StepPeriods(c, s, steps[0]);
      RunPeriods(c, Next(c, s, steps[0]), steps[1..]);
    }
  }

  /** From the start of a live capture: deadlines are whole periods, and nothing overdue stays open. */
  lemma LiveRun(c: Config, steps: seq<Step>)
    requires ConfigOk(c) && c.liveRate > 0 && Legal(c, Init(c), steps) && forall t :: t in steps ==> Checked(t)
    ensures var s := Run(c, Init(c), steps);
      WholePeriods(c.liveRate, s.commitTime) && Timely(c, s, LastCheck(c, Init(c), steps, 0))
  {
    hide Run, LastCheck, Legal;
    InitInv(c);
    assert 1 * c.liveRate == Init(c).commitTime;
    RunPeriods(c, Init(c), steps);
    RunTimely(c, Init(c), steps, 0);
  }

  /** Without forced commits every committed frame holds a message, but for the last one of a done
      buffer. */
  predicate FramesFull(s: State) {
    forall i :: 0 <= i < |s.frames| - (if s.done then 1 else 0) ==> |s.frames[i]| > FRAME_HEADER_SIZE
  }

  lemma {:induction false} RunFramesFull(c: Config, s: State, steps: seq<Step>)
    requires Inv(c, s) && FramesFull(s) && Legal(c, s, steps)
    requires forall t :: t in steps && t.DoCommit? ==> !t.force
    ensures FramesFull(Run(c, s, steps))
    decreases |steps|
  {
    hide Inv, Enabled, Next, FramesFull;
    if steps != [] {
      StepInv(c, s, steps[0]);
      StepFramesFull(c, s, steps[0]);
      RunFramesFull(c, Next(c, s, steps[0]), steps[1..]);
    }
  }

  lemma StepFramesFull(c: Config, s: State, step: Step)
    requires Inv(c, s) && FramesFull(s) && Enabled(c, s, step) && (step.DoCommit? ==> !step.force)
    ensures FramesFull(Next(c, s, step))
  {
    InvBounds(c, s);
    hide Inv, Committed, Reserve, Bytes, Advance;
  }

  lemma {:induction false} RunBelowMark(c: Config, s: State, steps: seq<Step>)
    requires Inv(c, s) && BelowMark(c, s) && Legal(c, s, steps)
    requires forall t :: t in steps ==> Checked(t)
    ensures BelowMark(c, Run(c, s, steps))
    decreases |steps|
  {
    if steps != [] {
      var next := Next(c, s, steps[0]);
      StepInv(c, s, steps[0]);
      StepBelowMark(c, s, steps[0]);
      assert forall t :: t in steps[1..] ==> t in steps;
      RunBelowMark(c, next, steps[1..]);
    }
  }

  lemma StepBelowMark(c: Config, s: State, step: Step)
    requires Inv(c, s) && BelowMark(c, s) && Enabled(c, s, step) && Checked(step)
    ensures BelowMark(c, Next(c, s, step))
  {
    if step.Put? {
      PutInv(c, s, step.m, step.time);
    }
  }

  /** With the committed data drained, a message is accepted exactly when it, the open frame and the
      margin in force fit the ring. */
  lemma DrainedAccepts(c: Config, s: State, m: Message)
    requires Inv(c, s) && s.released == Committed(c, s)
    ensures Accepted(c, s, m)
       <==> Uncommitted(c, s) + Reserve(m) + (if s.available then ROOM else HYSTERESIS) <= c.size
  {
  }

  /** No message of at most `size/4 - 2000` bytes stays blocked: after any run of messages that end
      in `check`, it is accepted as soon as the reader has drained what is committed. */
  lemma NoLostWakeup(c: Config, steps: seq<Step>, m: Message)
    requires ConfigOk(c) && Legal(c, Init(c), steps)
    requires forall t :: t in steps ==> Checked(t)
    requires Reserve(m) + HYSTERESIS <= c.size / 4
    ensures var s := Run(c, Init(c), steps);
            s.released == Committed(c, s) ==> Accepted(c, s, m)
  {
    InitInv(c);
    RunInv(c, Init(c), steps);
    RunBelowMark(c, Init(c), steps);
  }

  /** The open frame alone leaves no room for the message beside the hysteresis margin. */
  predicate Crowded(c: Config, s: State, m: Message) {
    s.open && !s.available && Uncommitted(c, s) + Reserve(m) + HYSTERESIS > c.size
  }

  /** What can happen while the writer waits to write `m`: it tries again, or the reader moves. */
  predicate Waiting(step: Step, m: Message) {
    match step
    case Put(n, _) => n == m
    case _ => step.Snapshot? || step.Send? || step.Release?
  }

  lemma WaitingStep(c: Config, s: State, m: Message, step: Step)
    requires Inv(c, s) && Crowded(c, s, m) && Blocking(m) && Waiting(step, m) && Enabled(c, s, step)
    ensures Crowded(c, Next(c, s, step), m) && Next(c, s, step).log == s.log
  {
  }

  /** A crowded writer waits for ever: no sequence of retries and reader steps lets the message in. */
  lemma {:induction false} CrowdedForEver(c: Config, s: State, m: Message, steps: seq<Step>)
    requires Inv(c, s) && Crowded(c, s, m) && Blocking(m) && Legal(c, s, steps)
    requires forall t :: t in steps ==> Waiting(t, m)
    ensures !Accepted(c, Run(c, s, steps), m) && Run(c, s, steps).log == s.log
    decreases |steps|
  {
    if steps != [] {
      StepInv(c, s, steps[0]);
      WaitingStep(c, s, m, steps[0]);
      CrowdedForEver(c, Next(c, s, steps[0]), m, steps[1..]);
    }
  }

  const COUNTER := PerfCounter(0, 0, 0)

  lemma CounterStep(c: Config, s: State)
    requires Inv(c, s) && s.open && s.released == Committed(c, s)
    ensures var t := Next(c, s, Put(COUNTER, 0));
      && t.open && t.released == Committed(c, t)
      && (if Accepted(c, s, COUNTER) then Uncommitted(c, s) < Uncommitted(c, t) else Crowded(c, t, COUNTER))
  {
    ItemsStep(Items(COUNTER), 0);
    assert Bytes(COUNTER) == Encode(0) + ItemsBytes(Items(COUNTER)[1..]);
  }

  /** In every drained buffer a long enough counter list gets there, because `perfCounter` never commits. */
  lemma {:induction false} CounterListCrowds(c: Config, s: State) returns (steps: seq<Step>)
    requires Inv(c, s) && s.open && s.released == Committed(c, s)
    ensures Legal(c, s, steps) && (forall t :: t in steps ==> t == Put(COUNTER, 0))
    ensures Inv(c, Run(c, s, steps)) && Crowded(c, Run(c, s, steps), COUNTER)
    decreases c.size - Uncommitted(c, s), s.available
  {
    steps := [];
    if !Crowded(c, s, COUNTER) {
      var step := Put(COUNTER, 0);
      StepInv(c, s, step);
      CounterStep(c, s);
      var more := CounterListCrowds(c, Next(c, s, step));
      steps := [step] + more;
    }
  }

  // ------------------------------------------------------------------ the reader inside a message

  /** The writer's part of the state is untouched. */
  predicate SameWriter(s: State, t: State) {
    t == s.(released := t.released, reader := t.reader, sent := t.sent)
  }

  /** The reader has caught up with the commits. */
  predicate Drained(c: Config, s: State) { s.released == Committed(c, s) }

  /** The reader is one thread: what it does next follows from where it is. */
  function ReaderStep(s: State): Step {
    match s.reader
    case Idle => Snapshot
    case Snapped(_) => Send
    case Sent(_) => Release
  }

  /** No other step of the reader is possible, so a schedule need only say when it moves. */
  lemma ReaderForced(c: Config, s: State, step: Step)
    requires step.Snapshot? || step.Send? || step.Release?
    ensures Enabled(c, s, step) ==> step == ReaderStep(s)
  {
  }

  lemma InvReader(c: Config, s: State)
    requires Inv(c, s)
    ensures ReaderOk(c, s)
  {
  }

  ghost function ReaderNext(c: Config, s: State): (t: State)
    requires ReaderOk(c, s)
    ensures ReaderOk(c, t) && SameWriter(s, t) && s.released <= t.released
    ensures Inv(c, s) ==> Inv(c, t)
  {
    ReaderKeeps(c, s);
    Next(c, s, ReaderStep(s))
  }

  lemma ReaderKeeps(c: Config, s: State)
    requires ReaderOk(c, s)
    ensures Enabled(c, s, ReaderStep(s))
    ensures var t := Next(c, s, ReaderStep(s));
      ReaderOk(c, t) && SameWriter(s, t) && s.released <= t.released && (Inv(c, s) ==> Inv(c, t))
  {
    hide Wire;
    if s.reader.Snapped? {
      var wire := Wire(c.local, s.frames);
      assert wire[..s.released] + wire[s.released..s.reader.upto] == wire[..s.reader.upto];
    }
    if Inv(c, s) {
      StepInv(c, s, ReaderStep(s));
    }
  }

  ghost function Reads(c: Config, s: State, n: nat): (t: State)
    requires ReaderOk(c, s)
    ensures ReaderOk(c, t) && SameWriter(s, t) && s.released <= t.released
    ensures Inv(c, s) ==> Inv(c, t)
    decreases n
  {
    if n == 0 then s else Reads(c, ReaderNext(c, s), n - 1)
  }

  lemma {:induction false} ReadsSnoc(c: Config, s: State, n: nat)
    requires ReaderOk(c, s)
    ensures Reads(c, s, n + 1) == ReaderNext(c, Reads(c, s, n))
    decreases n
  {
    hide Inv, ReaderOk, ReaderNext;
    if n > 0 {
      ReadsSnoc(c, ReaderNext(c, s), n - 1);
    } else {
      assert Reads(c, ReaderNext(c, s), 0) == ReaderNext(c, s);
    }
  }


  /** What happens between the space check and the end of a message: the writer writes some of its
      bytes, or the reader takes its next step. */
  datatype Micro = Write(bytes: seq<byte>) | Read

  ghost function Micros(c: Config, s: State, ms: seq<Micro>): State
    requires ReaderOk(c, s)
    decreases |ms|
  {
    if ms == [] then s
    else if ms[0].Read? then Micros(c, ReaderNext(c, s), ms[1..])
    else
      ReaderKept(c, s, Append(s, ms[0].bytes));
      Micros(c, Append(s, ms[0].bytes), ms[1..])
  }

  function BytesOf(ms: seq<Micro>): seq<byte> {
    if ms == [] then [] else (if ms[0].Write? then ms[0].bytes else []) + BytesOf(ms[1..])
  }

  function ReadsOf(ms: seq<Micro>): nat {
    if ms == [] then 0 else (if ms[0].Read? then 1 else 0) + ReadsOf(ms[1..])
  }

  /** The reader does not see the open frame. */
  lemma ReaderAppend(c: Config, s: State, data: seq<byte>)
    requires ReaderOk(c, s)
    ensures ReaderOk(c, Append(s, data))
    ensures ReaderNext(c, Append(s, data)) == Append(ReaderNext(c, s), data)
  {
    hide Wire;
  }

  lemma {:induction false} ReadsAppend(c: Config, s: State, data: seq<byte>, n: nat)
    requires ReaderOk(c, s)
    ensures ReaderOk(c, Append(s, data))
    ensures Reads(c, Append(s, data), n) == Append(Reads(c, s, n), data)
    decreases n
  {
    hide ReaderOk, ReaderNext, Append;
    ReaderAppend(c, s, data);
    if n > 0 {
      ReadsAppend(c, ReaderNext(c, s), data, n - 1);
    }
  }

  /** In whatever order the writes and the reader's steps come, the result is that of all the reader's
      steps followed by all the writes. */
  lemma {:induction false} MicrosCommute(c: Config, s: State, ms: seq<Micro>)
    requires ReaderOk(c, s)
    ensures Micros(c, s, ms) == Append(Reads(c, s, ReadsOf(ms)), BytesOf(ms))
    decreases |ms|
  {
    hide ReaderOk, ReaderNext, Append;
    if ms == [] {
      AppendNothing(s);
    } else if ms[0].Read? {
      MicrosCommute(c, ReaderNext(c, s), ms[1..]);
      assert [] + BytesOf(ms[1..]) == BytesOf(ms[1..]);
    } else {
      ReadsAppend(c, s, ms[0].bytes, ReadsOf(ms[1..]));
      MicrosCommute(c, Append(s, ms[0].bytes), ms[1..]);
      AppendTwice(Reads(c, s, ReadsOf(ms)), ms[0].bytes, BytesOf(ms[1..]));
    }
  }

  /** Writing a message in one step loses no interleaving: a message that passed its space check and was
      then written piece by piece with the reader moving in between leaves the state of the reader's steps
      followed by the message as one step. */
  lemma MessageIsAtomic(c: Config, s: State, m: Message, time: nat, ms: seq<Micro>)
    requires Inv(c, s) && s.open && WellFormed(m) && Accepted(c, s, m) && BytesOf(ms) == Bytes(m)
    ensures ReaderOk(c, s.(available := true))
    ensures var t := Micros(c, s.(available := true), ms);
      && t.open
      && PutMessage(c, Reads(c, s, ReadsOf(ms)), m, time) == if EndsInCheck(m) then Check(c, t, time) else t
  {
    var s1 := s.(available := true);
    MicrosCommute(c, s1, ms);
    ReadsAvailable(c, s, ReadsOf(ms));
    hide Inv, Bytes, Wire, Check, EndsInCheck, Reserve, Reads, Micros;
    SameSpace(c, s, Reads(c, s, ReadsOf(ms)), m);
  }

  lemma SameSpace(c: Config, s: State, t: State, m: Message)
    requires SameWriter(s, t) && s.released <= t.released && Accepted(c, s, m)
    ensures Accepted(c, t, m)
  {
    hide Wire, Reserve;
  }

  /** The reader does not look at the writer's flag. */
  lemma {:induction false} ReadsAvailable(c: Config, s: State, n: nat)
    requires ReaderOk(c, s)
    ensures ReaderOk(c, s.(available := true))
    ensures Reads(c, s.(available := true), n) == Reads(c, s, n).(available := true)
    decreases n
  {
    hide Wire;
    if n > 0 {
      assert ReaderNext(c, s.(available := true)) == ReaderNext(c, s).(available := true);
      ReadsAvailable(c, ReaderNext(c, s), n - 1);
    }
  }

  // ------------------------------------------------------------------ forced commits

  lemma ForcedStep(c: Config, s: State)
    requires s.open && !s.done
    ensures var t := Commit(c, s, 0, true);
      t.open && t.done == s.done && t.released == s.released && t.cur == c.header
      && Filled(c, t) == Filled(c, s) + Overhead(c) + |c.header|
  {
    hide Wire, Frame;
    CommitExtends(c, s);
  }

  /** Forced commits of empty frames, with no reader to help, come to a state where the header does not
      fit: one more runs over the ring. */
  lemma {:induction false} ForcedCommitsSpill(c: Config, s: State) returns (steps: seq<Step>)
    requires Inv(c, s) && s.open
    ensures Legal(c, s, steps) && forall t :: t in steps ==> t == DoCommit(0, true)
    ensures var t := Run(c, s, steps);
      Inv(c, t) && t.open && !RoomForHeader(c, t) && Filled(c, Commit(c, t, 0, true)) >= c.size
    decreases c.size - Filled(c, s)
  {
    hide Inv, Filled, Commit, ConfigOk;
    InvOpen(c, s);
    ForcedStep(c, s);
    steps := [];
    if RoomForHeader(c, s) {
      var step := DoCommit(0, true);
      StepInv(c, s, step);
      var more := ForcedCommitsSpill(c, Next(c, s, step));
      steps := [step] + more;
    }
  }

  lemma InvOpen(c: Config, s: State)
    requires Inv(c, s)
    ensures s.open == !s.done && |c.header| > 0 && Filled(c, s) < c.size
  {
    InvBounds(c, s);
  }
}

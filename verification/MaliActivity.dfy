/** Mali job tracing: the kernel sees jobs when they are queued, and the driver turns overlapping starts
    back into a strictly alternating trace per GPU unit and core. */
module MaliActivity {
  import opened Sequences

  /** The core and the counter key of a GPU unit; the key is never zero. */
  datatype Unit = Unit(core: int, key: int)

  /** One `gator_marshal_activity_switch`; activity and pid zero mean that the unit became idle. */
  datatype Switch = Switch(u: Unit, activity: int, pid: int)

  datatype Event = Enqueue(u: Unit, activity: int, pid: int) | Stop(u: Unit)

  datatype Slot = Slot(count: nat, activity: int, pid: int)

  /** `events` is the history, `crowded` the units that ever had more than two jobs outstanding. */
  datatype State = State(slots: map<Unit, Slot>, trace: seq<Switch>, events: seq<Event>, crowded: set<Unit>)

  const EMPTY := State(map[], [], [], {})

  function Get(s: State, u: Unit): Slot {
    if u in s.slots then s.slots[u] else Slot(0, 0, 0)
  }

  predicate EventOk(e: Event) { e.u.key != 0 && (e.Enqueue? ==> e.activity != 0) }

  function Next(s: State, e: Event): State {
    var slot := Get(s, e.u);
    match e
    case Enqueue(u, activity, pid) =>
      var slot' := if slot.count > 0 then Slot(slot.count + 1, activity, pid) else slot.(count := 1);
      s.(slots := s.slots[u := slot'],
         trace := s.trace + (if slot.count == 0 then [Switch(u, activity, pid)] else []),
         events := s.events + [e],
         crowded := if slot.count >= 2 then s.crowded + {u} else s.crowded)
    case Stop(u) =>
      if slot.count == 0 then s.(slots := s.slots[u := slot], events := s.events + [e])
      else
        s.(slots := s.slots[u := slot.(count := slot.count - 1)],
           trace := s.trace + [Switch(u, 0, 0)]
                    + (if slot.count > 1 then [Switch(u, slot.activity, slot.pid)] else []),
           events := s.events + [e])
  }

  // ------------------------------------------------------------------ what the trace should look like

  type Job = (int, int)

  /** The trace of one unit. */
  function Of(trace: seq<Switch>, u: Unit): seq<Switch> {
    if trace == [] then []
    else Of(trace[..|trace| - 1], u) + (if trace[|trace| - 1].u == u then [trace[|trace| - 1]] else [])
  }

  /** The jobs that the trace says were started on one unit. */
  function Started(trace: seq<Switch>, u: Unit): seq<Job> {
    if trace == [] then []
    else
      var x := trace[|trace| - 1];
      Started(trace[..|trace| - 1], u) + (if x.u == u && x.activity != 0 then [(x.activity, x.pid)] else [])
  }

  /** The jobs queued on one unit, in order. */
  function Queued(events: seq<Event>, u: Unit): seq<Job> {
    if events == [] then []
    else
      var e := events[|events| - 1];
      Queued(events[..|events| - 1], u) + (if e.u == u && e.Enqueue? then [(e.activity, e.pid)] else [])
  }

  /** Start and stop in strict alternation; the last job may still be running. */
  function Alternating(u: Unit, jobs: seq<Job>, running: bool): seq<Switch> {
    if jobs == [] then []
    else
      var last := jobs[|jobs| - 1];
      Alternating(u, jobs[..|jobs| - 1], false) + [Switch(u, last.0, last.1)]
      + (if running then [] else [Switch(u, 0, 0)])
  }

  function Waiting(count: nat): nat { if count > 1 then count - 1 else 0 }

  lemma TraceSnoc(trace: seq<Switch>, x: Switch, u: Unit)
    ensures Of(trace + [x], u) == if x.u == u then Of(trace, u) + [x] else Of(trace, u)
    ensures Started(trace + [x], u)
         == if x.u == u && x.activity != 0 then Started(trace, u) + [(x.activity, x.pid)] else Started(trace, u)
  {
    assert (trace + [x])[..|trace|] == trace;
  }

  lemma QueuedSnoc(events: seq<Event>, e: Event, u: Unit)
    ensures Queued(events + [e], u)
         == if e.u == u && e.Enqueue? then Queued(events, u) + [(e.activity, e.pid)] else Queued(events, u)
  {
    assert (events + [e])[..|events|] == events;
  }

  /** A running job stops. */
  lemma Stops(u: Unit, jobs: seq<Job>)
    requires jobs != []
    ensures Alternating(u, jobs, true) + [Switch(u, 0, 0)] == Alternating(u, jobs, false)
  {
  }

  /** An idle unit starts a job. */
  lemma Starts(u: Unit, jobs: seq<Job>, j: Job)
    ensures Alternating(u, jobs, false) + [Switch(u, j.0, j.1)] == Alternating(u, jobs + [j], true)
  {
    assert (jobs + [j])[..|jobs|] == jobs;
  }

  // ------------------------------------------------------------------ the invariant

  ghost predicate UnitOk(s: State, u: Unit) {
    var slot, queue, jobs := Get(s, u), Queued(s.events, u), Started(s.trace, u);
    && Of(s.trace, u) == Alternating(u, jobs, slot.count > 0)
    && (slot.count > 0 ==> jobs != [])
    && |jobs| + Waiting(slot.count) == |queue|
    && (slot.count > 1 ==> slot.activity != 0)
    && (u !in s.crowded ==>
          && slot.count <= 2 && jobs <= queue
          && (slot.count == 2 ==> queue[|queue| - 1] == (slot.activity, slot.pid)))
  }

  ghost predicate Inv(s: State) { forall u :: UnitOk(s, u) }

  lemma OtherUnit(s: State, e: Event, u: Unit)
    requires UnitOk(s, u) && e.u != u
    ensures UnitOk(Next(s, e), u)
  {
    hide Alternating, Of, Queued, Started;
    var slot := Get(s, e.u);
    QueuedSnoc(s.events, e, u);
    assert s.trace + [] == s.trace;
    match e {
      case Enqueue(v, activity, pid) => TraceSnoc(s.trace, Switch(v, activity, pid), u);
      case Stop(v) =>
        var stopped := s.trace + [Switch(v, 0, 0)];
        TraceSnoc(s.trace, Switch(v, 0, 0), u);
        TraceSnoc(stopped, Switch(v, slot.activity, slot.pid), u);
        assert stopped + [] == stopped;
    }
  }

  lemma EnqueueUnit(s: State, e: Event)
    requires e.Enqueue? && EventOk(e) && UnitOk(s, e.u)
    ensures UnitOk(Next(s, e), e.u)
  {
    hide Alternating, Of, Queued, Started;
    QueuedSnoc(s.events, e, e.u);
    TraceSnoc(s.trace, Switch(e.u, e.activity, e.pid), e.u);
    assert s.trace + [] == s.trace;
    Starts(e.u, Started(s.trace, e.u), (e.activity, e.pid));
  }

  lemma StopUnit(s: State, e: Event)
    requires e.Stop? && EventOk(e) && UnitOk(s, e.u)
    ensures UnitOk(Next(s, e), e.u)
  {
    hide Alternating, Of, Queued, Started;
    var u, slot := e.u, Get(s, e.u);
    QueuedSnoc(s.events, e, u);
    if slot.count > 0 {
      var stopped := s.trace + [Switch(u, 0, 0)];
      TraceSnoc(s.trace, Switch(u, 0, 0), u);
      Stops(u, Started(s.trace, u));
      assert stopped + [] == stopped;
      TraceSnoc(stopped, Switch(u, slot.activity, slot.pid), u);
      Starts(u, Started(s.trace, u), (slot.activity, slot.pid));
    }
  }

  lemma StepInv(s: State, e: Event)
    requires Inv(s) && EventOk(e)
    ensures Inv(Next(s, e))
  {
    hide UnitOk, Next;
    forall u
      ensures UnitOk(Next(s, e), u)
    {
      if u != e.u {
        OtherUnit(s, e, u);
      } else if e.Enqueue? {
        EnqueueUnit(s, e);
      } else {
        StopUnit(s, e);
      }
    }
  }

  function Run(events: seq<Event>): State {
    if events == [] then EMPTY else Next(Run(events[..|events| - 1]), events[|events| - 1])
  }

  lemma {:induction false} RunInv(events: seq<Event>)
    requires forall e :: e in events ==> EventOk(e)
    ensures Inv(Run(events)) && Run(events).events == events
  {
    hide Inv;
    if events == [] {
      EmptyInv();
    } else {
      RunInv(events[..|events| - 1]);
      StepInv(Run(events[..|events| - 1]), events[|events| - 1]);
      assert events[..|events| - 1] + [events[|events| - 1]] == events;
    }
  }

  lemma EmptyInv()
    ensures Inv(EMPTY)
  {
  }

  /** For every run and every unit the trace strictly alternates starts and stops; it has one start per
      queued job except those still waiting; and as long as no three jobs are outstanding at once, the starts
      are the queued jobs in order. */
  lemma TraceAlternates(events: seq<Event>, u: Unit)
    requires forall e :: e in events ==> EventOk(e)
    ensures var s := Run(events); var jobs := Started(s.trace, u);
      && Of(s.trace, u) == Alternating(u, jobs, Outstanding(events, u) > 0)
      && |jobs| == |Queued(events, u)| - Waiting(Outstanding(events, u))
      && (!ThreeAtOnce(events, u) ==> jobs <= Queued(events, u))
  {
    hide Of, Alternating, Queued, Run, Started, Outstanding, ThreeAtOnce;
    RunInv(events);
    CrowdedExactly(events, u);
    assert UnitOk(Run(events), u);
  }

  // ------------------------------------------------------------------ lost jobs

  /** The job is queued, but it was not started and is not the one that waits in the slot. */
  ghost predicate Lost(s: State, u: Unit, j: Job) {
    && j in Queued(s.events, u) && j !in Started(s.trace, u)
    && !(Get(s, u).count > 1 && j == (Get(s, u).activity, Get(s, u).pid))
  }

  ghost predicate SomeLost(s: State, u: Unit) { exists j :: Lost(s, u, j) }

  /** What one event adds to the started jobs of a unit. */
  lemma StartedNext(s: State, e: Event, u: Unit)
    requires EventOk(e) && UnitOk(s, u)
    ensures var slot := Get(s, u);
      Started(Next(s, e).trace, u) == Started(s.trace, u) +
        if e.u != u then []
        else if e.Enqueue? then (if slot.count == 0 then [(e.activity, e.pid)] else [])
        else if slot.count > 1 then [(slot.activity, slot.pid)] else []
  {
    hide Started, Queued, Of, Alternating;
    var x := Get(s, e.u);
    assert s.trace + [] == s.trace && Started(s.trace, u) + [] == Started(s.trace, u);
    match e {
      case Enqueue(v, activity, pid) => TraceSnoc(s.trace, Switch(v, activity, pid), u);
      case Stop(v) =>
        var stopped := s.trace + [Switch(v, 0, 0)];
        TraceSnoc(s.trace, Switch(v, 0, 0), u);
        TraceSnoc(stopped, Switch(v, x.activity, x.pid), u);
        assert stopped + [] == stopped;
    }
  }

  /** A lost job stays lost: it is never started nor queued again. */
  lemma LostStays(s: State, e: Event, u: Unit, j: Job)
    requires EventOk(e) && UnitOk(s, u) && Lost(s, u, j) && Distinct(Queued(Next(s, e).events, u))
    ensures Lost(Next(s, e), u, j)
  {
    hide Started, Queued, Of, Alternating;
    var queue := Queued(s.events, u);
    QueuedSnoc(s.events, e, u);
    StartedNext(s, e, u);
    var k :| 0 <= k < |queue| && queue[k] == j;
    var after := Queued(s.events + [e], u);
    assert after[k] == j;
    if e.u == u && e.Enqueue? {
      assert after[|queue|] == (e.activity, e.pid);
    }
  }

  /** The third job at once replaces the one that waited, which is then lost. */
  lemma ThirdJobReplaces(s: State, e: Event)
    requires EventOk(e) && e.Enqueue? && UnitOk(s, e.u) && e.u !in s.crowded && Get(s, e.u).count >= 2
    requires Distinct(Queued(Next(s, e).events, e.u))
    ensures Lost(Next(s, e), e.u, (Get(s, e.u).activity, Get(s, e.u).pid))
  {
    hide Started, Queued, Of, Alternating;
    var queue, jobs := Queued(s.events, e.u), Started(s.trace, e.u);
    var n := |queue| - 1;
    QueuedSnoc(s.events, e, e.u);
    StartedNext(s, e, e.u);
    var after := Queued(s.events + [e], e.u);
    assert after[n] == (Get(s, e.u).activity, Get(s, e.u).pid) && after[n + 1] == (e.activity, e.pid);
    assert |jobs| == n && forall k :: 0 <= k < n ==> jobs[k] == after[k];
  }

  lemma LossStep(s: State, e: Event, u: Unit)
    requires EventOk(e) && UnitOk(s, u) && Distinct(Queued(Next(s, e).events, u))
    requires u in s.crowded ==> SomeLost(s, u)
    ensures u in Next(s, e).crowded ==> SomeLost(Next(s, e), u)
  {
    hide Lost, UnitOk, Queued;
    if u in s.crowded {
      var j :| Lost(s, u, j);
      LostStays(s, e, u, j);
    } else if u in Next(s, e).crowded {
      ThirdJobReplaces(s, e);
    }
  }

  lemma {:induction false} RunLoses(events: seq<Event>, u: Unit)
    requires (forall e :: e in events ==> EventOk(e)) && Distinct(Queued(events, u))
    ensures u in Run(events).crowded ==> SomeLost(Run(events), u)
  {
    hide UnitOk, Lost, Next;
    if events != [] {
      var before, e := events[..|events| - 1], events[|events| - 1];
      RunInv(before);
      RunInv(events);
      assert Inv(Run(before));
      assert before + [e] == events;
      QueuedSnoc(before, e, u);
      DistinctPrefix(Queued(before, u), Queued(events, u));
      RunLoses(before, u);
      LossStep(Run(before), e, u);
    } else {
      assert EMPTY.crowded == {};
    }
  }

  lemma DistinctPrefix(a: seq<Job>, b: seq<Job>)
    requires a <= b && Distinct(b)
    ensures Distinct(a)
  {
    assert forall i :: 0 <= i < |a| ==> a[i] == b[i];
  }

  /** While no third job was queued at once, nothing is lost. */
  lemma NothingLost(s: State, u: Unit)
    requires UnitOk(s, u) && u !in s.crowded
    ensures !SomeLost(s, u)
  {
    hide Queued, Started, Of, Alternating;
    var queue, jobs := Queued(s.events, u), Started(s.trace, u);
    forall j | j in queue
      ensures !Lost(s, u, j)
    {
      var k :| 0 <= k < |queue| && queue[k] == j;
      if k < |jobs| {
        assert jobs[k] == j;
      }
    }
  }

  /** The jobs queued on a unit and not yet stopped. */
  function Outstanding(events: seq<Event>, u: Unit): nat {
    if events == [] then 0
    else
      var n, e := Outstanding(events[..|events| - 1], u), events[|events| - 1];
      if e.u != u then n else if e.Enqueue? then n + 1 else if n > 0 then n - 1 else 0
  }

  /** At some time the unit had three jobs outstanding. */
  ghost predicate ThreeAtOnce(events: seq<Event>, u: Unit) {
    exists k :: 0 <= k <= |events| && Outstanding(events[..k], u) > 2
  }

  lemma ThreeSnoc(events: seq<Event>, e: Event, u: Unit)
    ensures ThreeAtOnce(events + [e], u) <==> ThreeAtOnce(events, u) || Outstanding(events + [e], u) > 2
  {
    hide Outstanding;
    var all := events + [e];
    assert all[..|all|] == all;
    assert forall k :: 0 <= k <= |events| ==> all[..k] == events[..k];
    if ThreeAtOnce(events, u) {
      var k :| 0 <= k <= |events| && Outstanding(events[..k], u) > 2;
      assert Outstanding(all[..k], u) > 2;
    }
    if Outstanding(all, u) > 2 {
      assert Outstanding(all[..|all|], u) > 2;
    }
  }

  lemma {:induction false} CrowdedExactly(events: seq<Event>, u: Unit)
    ensures Get(Run(events), u).count == Outstanding(events, u)
    ensures u in Run(events).crowded <==> ThreeAtOnce(events, u)
  {
    hide ThreeAtOnce;
    if events == [] {
      assert !ThreeAtOnce([], u) by { NotThree(u); }
    } else {
      var before, e := events[..|events| - 1], events[|events| - 1];
      CrowdedExactly(before, u);
      ThreeSnoc(before, e, u);
      assert before + [e] == events;
      AtMostOnce(before, u);
    }
  }

  lemma NotThree(u: Unit)
    ensures !ThreeAtOnce([], u)
  {
  }

  lemma AtMostOnce(events: seq<Event>, u: Unit)
    ensures Outstanding(events, u) > 2 ==> ThreeAtOnce(events, u)
  {
    assert events[..|events|] == events;
  }

  /** The promise of the driver, exactly: for every run whose jobs on a unit can be told apart, a queued
      job is neither started nor waiting if and only if three jobs were outstanding at once; and where none
      is waiting at the end, the starts are the queued jobs in order if and only if that never happened. */
  lemma JobsLostExactly(events: seq<Event>, u: Unit)
    requires (forall e :: e in events ==> EventOk(e)) && Distinct(Queued(events, u))
    ensures var s := Run(events);
      && (SomeLost(s, u) <==> ThreeAtOnce(events, u))
      && (Outstanding(events, u) <= 1 ==>
            (Started(s.trace, u) == Queued(events, u) <==> !ThreeAtOnce(events, u)))
  {
    hide Run, Queued, Started, Of, Alternating, ThreeAtOnce, Outstanding;
    var s := Run(events);
    RunInv(events);
    assert UnitOk(s, u);
    CrowdedExactly(events, u);
    if u in s.crowded {
      RunLoses(events, u);
    } else {
      NothingLost(s, u);
    }
  }

  // ------------------------------------------------------------------ jobs in turn

  /** A stop with other jobs waiting starts the newest job.  It is in turn if that looks the same as the one
      that waits longest. */
  predicate TurnOk(before: seq<Event>, e: Event, u: Unit) {
    var n, q := Outstanding(before, u), Queued(before, u);
    e == Stop(u) && 2 <= n <= |q| ==> q[|q| - (n - 1)] == q[|q| - 1]
  }

  ghost predicate InTurn(events: seq<Event>, u: Unit) {
    forall k :: 0 <= k < |events| ==> TurnOk(events[..k], events[k], u)
  }

  lemma InTurnSnoc(events: seq<Event>, e: Event, u: Unit)
    ensures InTurn(events + [e], u) <==> InTurn(events, u) && TurnOk(events, e, u)
  {
    hide TurnOk;
    var all := events + [e];
    assert all[..|events|] == events && all[|events|] == e;
    assert forall k :: 0 <= k < |events| ==> all[..k] == events[..k] && all[k] == events[k];
    if InTurn(all, u) {
      assert TurnOk(all[..|events|], all[|events|], u);
      forall k | 0 <= k < |events|
        ensures TurnOk(events[..k], events[k], u)
      {
        assert TurnOk(all[..k], all[k], u);
      }
    }
  }

  /** The job that waits in the slot is the newest one queued. */
  ghost predicate SlotNewest(s: State, u: Unit) {
    var slot, queue := Get(s, u), Queued(s.events, u);
    slot.count >= 2 ==> queue != [] && queue[|queue| - 1] == (slot.activity, slot.pid)
  }

  lemma NewestStep(s: State, e: Event, u: Unit)
    requires SlotNewest(s, u)
    ensures SlotNewest(Next(s, e), u)
  {
    hide Queued;
    QueuedSnoc(s.events, e, u);
  }

  lemma PrefixSnoc(jobs: seq<Job>, x: Job, queue: seq<Job>)
    ensures |jobs| < |queue| ==> (jobs + [x] <= queue <==> jobs <= queue && queue[|jobs|] == x)
    ensures |jobs| <= |queue| ==> (jobs <= queue + [x] <==> jobs <= queue)
    ensures |jobs| == |queue| ==> (jobs + [x] <= queue + [x] <==> jobs <= queue)
  {
    if |jobs| < |queue| && jobs + [x] <= queue {
      assert jobs == (jobs + [x])[..|jobs|] && (jobs + [x])[|jobs|] == x;
    }
    if |jobs| <= |queue| && jobs <= queue + [x] {
      assert jobs == (queue + [x])[..|jobs|] == queue[..|jobs|];
    }
    if |jobs| == |queue| && jobs + [x] <= queue + [x] {
      assert jobs == (jobs + [x])[..|jobs|] == (queue + [x])[..|jobs|] == queue;
    }
  }

  /** One event: the started jobs stay in the order of the queue exactly if they were and it is in turn. */
  lemma TurnStep(s: State, e: Event, u: Unit)
    requires EventOk(e) && UnitOk(s, u) && SlotNewest(s, u) && Get(s, u).count == Outstanding(s.events, u)
    ensures Started(Next(s, e).trace, u) <= Queued(Next(s, e).events, u) <==>
      Started(s.trace, u) <= Queued(s.events, u) && TurnOk(s.events, e, u)
  {
    hide Queued, Started, Of, Alternating, Outstanding;
    var jobs, queue, slot := Started(s.trace, u), Queued(s.events, u), Get(s, u);
    QueuedSnoc(s.events, e, u);
    StartedNext(s, e, u);
    assert jobs + [] == jobs;
    if e.u == u && e.Enqueue? {
      PrefixSnoc(jobs, (e.activity, e.pid), queue);
    } else if e.u == u && slot.count > 1 {
      PrefixSnoc(jobs, (slot.activity, slot.pid), queue);
    }
  }

  /** For every run: the jobs start in the order in which they were queued if and only if every stop is in
      turn; with none waiting at the end, they are then exactly the queue. */
  lemma {:induction false} JobsInTurn(events: seq<Event>, u: Unit)
    requires forall e :: e in events ==> EventOk(e)
    ensures SlotNewest(Run(events), u)
    ensures Started(Run(events).trace, u) <= Queued(events, u) <==> InTurn(events, u)
    ensures Outstanding(events, u) <= 1 ==>
      (Started(Run(events).trace, u) == Queued(events, u) <==> InTurn(events, u))
  {
    hide Queued, Started, UnitOk, Next, TurnOk, InTurn, SlotNewest, Outstanding;
    RunInv(events);
    assert UnitOk(Run(events), u);
    CrowdedExactly(events, u);
    SameLength(Run(events), u);
    if events == [] {
      NothingYet(u);
    } else {
      var before, e := events[..|events| - 1], events[|events| - 1];
      assert before + [e] == events;
      RunInv(before);
      assert UnitOk(Run(before), u);
      CrowdedExactly(before, u);
      JobsInTurn(before, u);
      NewestStep(Run(before), e, u);
      TurnStep(Run(before), e, u);
      InTurnSnoc(before, e, u);
    }
  }

  lemma NothingYet(u: Unit)
    ensures SlotNewest(EMPTY, u) && Started([], u) == [] && Queued([], u) == [] && InTurn([], u)
  {
  }

  lemma SameLength(s: State, u: Unit)
    requires UnitOk(s, u)
    ensures Get(s, u).count <= 1 ==> |Started(s.trace, u)| == |Queued(s.events, u)|
  {
  }

  lemma {:induction false} QueuedPrefix(events: seq<Event>, k: nat, u: Unit)
    requires k <= |events|
    ensures Queued(events[..k], u) <= Queued(events, u)
  {
    if k < |events| {
      QueuedPrefix(events[..|events| - 1], k, u);
      assert events[..|events| - 1][..k] == events[..k];
    } else {
      assert events[..k] == events;
    }
  }

  /** Jobs that look the same hide every loss: the trace of a unit that only one process uses is always
      right. */
  lemma SameProcessInTurn(events: seq<Event>, u: Unit, j: Job)
    requires (forall e :: e in events ==> EventOk(e)) && forall x :: x in Queued(events, u) ==> x == j
    ensures InTurn(events, u) && Started(Run(events).trace, u) <= Queued(events, u)
  {
    hide Queued, Outstanding, Run, Started;
    forall k | 0 <= k < |events|
      ensures TurnOk(events[..k], events[k], u)
    {
      QueuedPrefix(events, k, u);
      var q, all := Queued(events[..k], u), Queued(events, u);
      forall i | 0 <= i < |q|
        ensures q[i] == j
      {
        assert q[i] == all[i] && all[i] in all;
      }
    }
    JobsInTurn(events, u);
  }

  /** So three jobs outstanding at once need not show. */
  lemma ThreeNeedNotShow(u: Unit)
    requires u.key != 0
    ensures var a := Enqueue(u, 1, 7); var events := [a, a, a, Stop(u), Stop(u)];
      && ThreeAtOnce(events, u) && Outstanding(events, u) == 1
      && Started(Run(events).trace, u) == Queued(events, u)
  {
    var a := Enqueue(u, 1, 7);
    var events := [a, a, a, Stop(u), Stop(u)];
    ThreeThenOne(u, a);
    hide Run, Started, ThreeAtOnce, Outstanding, Queued, InTurn;
    OneProcess(events, u, (1, 7));
    SameProcessInTurn(events, u, (1, 7));
    JobsInTurn(events, u);
  }

  lemma ThreeThenOne(u: Unit, a: Event)
    requires a.u == u && a.Enqueue?
    ensures ThreeAtOnce([a, a, a, Stop(u), Stop(u)], u) && Outstanding([a, a, a, Stop(u), Stop(u)], u) == 1
  {
    hide Outstanding;
    var d := Stop(u);
    assert Outstanding([], u) == 0 by { NoneYet(u); }
    assert [] + [a] == [a] && [a] + [a] == [a, a] && [a, a] + [a] == [a, a, a];
    assert [a, a, a] + [d] == [a, a, a, d] && [a, a, a, d] + [d] == [a, a, a, d, d];
    OutstandingSnoc([], a, u);
    OutstandingSnoc([a], a, u);
    OutstandingSnoc([a, a], a, u);
    OutstandingSnoc([a, a, a], d, u);
    OutstandingSnoc([a, a, a, d], d, u);
    var all := [a, a, a, d, d];
    assert all[..3] == [a, a, a];
  }

  lemma NoneYet(u: Unit)
    ensures Outstanding([], u) == 0
  {
  }

  /** What every queued job looks like. */
  lemma {:induction false} OneProcess(events: seq<Event>, u: Unit, j: Job)
    requires forall e :: e in events && e.Enqueue? ==> (e.activity, e.pid) == j
    ensures forall x :: x in Queued(events, u) ==> x == j
  {
    if events != [] {
      OneProcess(events[..|events| - 1], u, j);
    }
  }

  lemma OutstandingSnoc(events: seq<Event>, e: Event, u: Unit)
    ensures var n := Outstanding(events, u);
      Outstanding(events + [e], u) == if e.u != u then n else if e.Enqueue? then n + 1 else if n > 0 then n - 1 else 0
  {
    assert (events + [e])[..|events|] == events;
  }

  /** With three jobs queued at once, the second one is never started. */
  lemma ThirdJobLosesSecond(u: Unit)
    requires u.key != 0
    ensures var a, b, c := Enqueue(u, 1, 10), Enqueue(u, 1, 20), Enqueue(u, 1, 30);
      Run([a, b, c, Stop(u), Stop(u)]).trace ==
        [Switch(u, 1, 10), Switch(u, 0, 0), Switch(u, 1, 30), Switch(u, 0, 0), Switch(u, 1, 30)]
  {
    var a, b, c, d := Enqueue(u, 1, 10), Enqueue(u, 1, 20), Enqueue(u, 1, 30), Stop(u);
    hide Run;
    RunSnoc([], a);
    RunSnoc([a], b);
    RunSnoc([a, b], c);
    RunSnoc([a, b, c], d);
    RunSnoc([a, b, c, d], d);
    assert Run([]) == EMPTY by { RunEmpty(); }
    assert [] + [a] == [a] && [a] + [b] == [a, b] && [a, b] + [c] == [a, b, c];
    assert [a, b, c] + [d] == [a, b, c, d] && [a, b, c, d] + [d] == [a, b, c, d, d];
  }

  lemma RunEmpty()
    ensures Run([]) == EMPTY
  {
  }

  lemma RunSnoc(events: seq<Event>, e: Event)
    ensures Run(events + [e]) == Next(Run(events), e)
  {
    assert (events + [e])[..|events|] == events;
  }

  // ------------------------------------------------------------------ marshalling after the lock

  /** The driver decides about its switches under the lock and marshals them after it: `s` is the state that
      the lock protects, `pending` the switches decided and not yet marshalled, `out` the trace so far. */
  datatype Late = Late(s: State, pending: seq<Switch>, out: seq<Switch>)

  /** A call passes the lock, or the `i`th pending switch is marshalled. */
  datatype Action = Locked(e: Event) | Marshalled(i: nat)

  /** The switches that a call decides to marshal. */
  function Decided(s: State, e: Event): seq<Switch> {
    var slot := Get(s, e.u);
    match e
    case Enqueue(u, activity, pid) => if slot.count == 0 then [Switch(u, activity, pid)] else []
    case Stop(u) =>
      if slot.count == 0 then []
      else if slot.count == 1 then [Switch(u, 0, 0)]
      else [Switch(u, 0, 0), Switch(u, slot.activity, slot.pid)]
  }

  lemma DecidedIs(s: State, e: Event)
    ensures Next(s, e).trace == s.trace + Decided(s, e)
  {
  }

  function LateNext(l: Late, a: Action): Late {
    match a
    case Locked(e) => Late(Next(l.s, e), l.pending + Decided(l.s, e), l.out)
    case Marshalled(i) =>
      if i < |l.pending| then Late(l.s, l.pending[..i] + l.pending[i + 1..], l.out + [l.pending[i]]) else l
  }

  /** The switch of another call for the unit is overtaken. */
  predicate Overtakes(l: Late, a: Action, u: Unit) {
    a.Marshalled? && a.i < |l.pending| && l.pending[a.i].u == u && exists j :: 0 <= j < a.i && l.pending[j].u == u
  }

  lemma {:induction false} OfAppend(a: seq<Switch>, b: seq<Switch>, u: Unit)
    ensures Of(a + b, u) == Of(a, u) + Of(b, u)
  {
    hide Of;
    if b == [] {
      OfNone(b, u);
      assert a + b == a && Of(a, u) + [] == Of(a, u);
    } else {
      var init, last := b[..|b| - 1], b[|b| - 1];
      OfAppend(a, init, u);
      assert a + b == a + init + [last] && b == init + [last];
      TraceSnoc(a + init, last, u);
      TraceSnoc(init, last, u);
      assert Of(a, u) + Of(init, u) + [last] == Of(a, u) + (Of(init, u) + [last]);
    }
  }

  lemma {:induction false} OfNone(a: seq<Switch>, u: Unit)
    requires forall j :: 0 <= j < |a| ==> a[j].u != u
    ensures Of(a, u) == []
  {
    if a != [] {
      OfNone(a[..|a| - 1], u);
    }
  }

  lemma OfOne(x: Switch, u: Unit)
    ensures Of([x], u) == if x.u == u then [x] else []
  {
    TraceSnoc([], x, u);
    assert [] + [x] == [x];
  }

  /** What is marshalled and what is pending together are the trace of the lock's order. */
  ghost predicate LateOk(l: Late, u: Unit) { Of(l.out, u) + Of(l.pending, u) == Of(l.s.trace, u) }

  /** A switch that overtakes none of its unit goes from the front of the pending ones to the trace. */
  lemma MarshalKeeps(l: Late, a: Action, u: Unit)
    requires LateOk(l, u) && a.Marshalled? && !Overtakes(l, a, u)
    ensures LateOk(LateNext(l, a), u)
  {
    hide Of;
    if a.i < |l.pending| {
      var front, x, back := l.pending[..a.i], l.pending[a.i], l.pending[a.i + 1..];
      assert l.pending == front + [x] + back;
      OfAppend(front + [x], back, u);
      OfAppend(front, [x], u);
      OfAppend(front, back, u);
      OfAppend(l.out, [x], u);
      OfOne(x, u);
      if x.u == u {
        OfNone(front, u);
        assert Of(l.out, u) + ([] + [x] + Of(back, u)) == Of(l.out, u) + [x] + ([] + Of(back, u));
      } else {
        assert Of(front, u) + [] + Of(back, u) == Of(front, u) + Of(back, u);
        assert Of(l.out, u) + [] == Of(l.out, u);
      }
    }
  }

  lemma LockKeeps(l: Late, e: Event, u: Unit)
    requires LateOk(l, u)
    ensures LateOk(LateNext(l, Locked(e)), u)
  {
    hide Of;
    var more := Decided(l.s, e);
    DecidedIs(l.s, e);
    OfAppend(l.pending, more, u);
    OfAppend(l.s.trace, more, u);
    assert Of(l.out, u) + Of(l.pending, u) + Of(more, u) == Of(l.out, u) + (Of(l.pending, u) + Of(more, u));
  }

  function LateRun(actions: seq<Action>): Late {
    if actions == [] then Late(EMPTY, [], []) else LateNext(LateRun(actions[..|actions| - 1]), actions[|actions| - 1])
  }

  /** The calls in the order in which they passed the lock. */
  function EventsOf(actions: seq<Action>): seq<Event> {
    if actions == [] then []
    else
      var a := actions[|actions| - 1];
      EventsOf(actions[..|actions| - 1]) + (if a.Locked? then [a.e] else [])
  }

  /** No switch of the unit overtakes another of it: for instance, if its calls do not overlap. */
  ghost predicate Orderly(actions: seq<Action>, u: Unit) {
    forall k :: 0 <= k < |actions| ==> !Overtakes(LateRun(actions[..k]), actions[k], u)
  }

  lemma {:induction false} LateIs(actions: seq<Action>, u: Unit)
    requires Orderly(actions, u)
    ensures LateOk(LateRun(actions), u) && LateRun(actions).s == Run(EventsOf(actions))
  {
    hide LateOk, LateNext, Overtakes;
    if actions == [] {
      assert LateOk(Late(EMPTY, [], []), u) by { NothingLate(u); }
    } else {
      var before, a := actions[..|actions| - 1], actions[|actions| - 1];
      assert forall k :: 0 <= k < |before| ==> before[..k] == actions[..k];
      assert !Overtakes(LateRun(actions[..|actions| - 1]), actions[|actions| - 1], u);
      LateIs(before, u);
      if a.Locked? {
        LockKeeps(LateRun(before), a.e, u);
        RunSnoc(EventsOf(before), a.e);
      } else {
        MarshalKeeps(LateRun(before), a, u);
        assert EventsOf(before) + [] == EventsOf(before);
      }
      LateState(LateRun(before), a);
    }
  }

  lemma NothingLate(u: Unit)
    ensures LateOk(Late(EMPTY, [], []), u)
  {
  }

  lemma LateState(l: Late, a: Action)
    ensures LateNext(l, a).s == if a.Locked? then Next(l.s, a.e) else l.s
  {
  }

  /** With the marshalling outside the lock: as long as no switch of a unit overtakes another of it, what
      was marshalled is the start of the alternating trace, and all of it once nothing of it is pending. */
  lemma LateTraceAlternates(actions: seq<Action>, u: Unit)
    requires (forall e :: e in EventsOf(actions) ==> EventOk(e)) && Orderly(actions, u)
    ensures var l, events := LateRun(actions), EventsOf(actions);
      var whole := Alternating(u, Started(Run(events).trace, u), Outstanding(events, u) > 0);
      Of(l.out, u) <= whole && (Of(l.pending, u) == [] ==> Of(l.out, u) == whole)
  {
    hide Of, Alternating, Started, Run, LateRun, EventsOf, Outstanding, Orderly;
    LateIs(actions, u);
    TraceAlternates(EventsOf(actions), u);
  }

  /** A stop that overtakes the start it belongs to is marshalled first. */
  lemma OvertakenStart(u: Unit)
    requires u.key != 0
    ensures var actions := [Locked(Enqueue(u, 1, 7)), Locked(Stop(u)), Marshalled(1), Marshalled(0)];
      LateRun(actions).out == [Switch(u, 0, 0), Switch(u, 1, 7)]
  {
    var a, b, c, d := Locked(Enqueue(u, 1, 7)), Locked(Stop(u)), Marshalled(1), Marshalled(0);
    TwoPending(u);
    hide LateRun, Next, Decided;
    LateSnoc([a, b], c);
    LateSnoc([a, b, c], d);
    assert [a, b] + [c] == [a, b, c] && [a, b, c] + [d] == [a, b, c, d];
    var x, y := Switch(u, 1, 7), Switch(u, 0, 0);
    assert [x, y][..1] + [x, y][2..] == [x] && [] + [y] == [y] && [y] + [x] == [y, x];
  }

  lemma TwoPending(u: Unit)
    ensures var l := LateRun([Locked(Enqueue(u, 1, 7)), Locked(Stop(u))]);
      l.pending == [Switch(u, 1, 7), Switch(u, 0, 0)] && l.out == []
  {
    hide LateRun;
    var a, b := Locked(Enqueue(u, 1, 7)), Locked(Stop(u));
    assert LateRun([]) == Late(EMPTY, [], []) by { LateEmpty(); }
    LateSnoc([], a);
    LateSnoc([a], b);
    assert [] + [a] == [a] && [a] + [b] == [a, b];
  }

  lemma LateEmpty()
    ensures LateRun([]) == Late(EMPTY, [], [])
  {
  }

  lemma LateSnoc(actions: seq<Action>, a: Action)
    ensures LateRun(actions + [a]) == LateNext(LateRun(actions), a)
  {
    assert (actions + [a])[..|actions|] == actions;
  }

  // ------------------------------------------------------------------ the table

  const NUMBER_OF_GPU_UNITS := 4
  const NUMBER_OF_GPU_CORES := 16
  const TABLE := NUMBER_OF_GPU_UNITS * NUMBER_OF_GPU_CORES

  /** `struct mali_activity`; core and key zero mark a free entry. */
  datatype Entry = Entry(core: int, key: int, count: int, lastActivity: int, lastPid: int)

  const FREE := Entry(0, 0, 0, 0, 0)

  function UnitOf(e: Entry): Unit { Unit(e.core, e.key) }

  /** The first `used` entries are different units, the others are free, and they hold the slots. */
  ghost predicate TableIs(t: seq<Entry>, used: nat, slots: map<Unit, Slot>) {
    && used <= |t| == TABLE
    && (forall i :: 0 <= i < used ==> t[i].key != 0 && UnitOf(t[i]) in slots)
    && (forall i :: 0 <= i < used ==> SlotIs(t[i], slots))
    && (forall i :: used <= i < |t| ==> t[i] == FREE)
    && (forall i, j :: 0 <= i < j < used ==> UnitOf(t[i]) != UnitOf(t[j]))
    && (forall u :: u in slots ==> Placed(t, used, u))
  }

  ghost predicate SlotIs(e: Entry, slots: map<Unit, Slot>) {
    UnitOf(e) in slots &&
    var slot := slots[UnitOf(e)];
    e.count == slot.count && e.lastActivity == slot.activity && e.lastPid == slot.pid
  }

  ghost predicate Placed(t: seq<Entry>, used: nat, u: Unit)
    requires used <= |t|
  {
    exists i :: 0 <= i < used && UnitOf(t[i]) == u
  }

  /** Claiming the next free entry adds an empty slot. */
  lemma Claim(t: seq<Entry>, used: nat, slots: map<Unit, Slot>, u: Unit)
    requires TableIs(t, used, slots) && used < TABLE && u.key != 0 && u !in slots
    ensures TableIs(t[used := Entry(u.core, u.key, 0, 0, 0)], used + 1, slots[u := Slot(0, 0, 0)])
  {
    var t', slots' := t[used := Entry(u.core, u.key, 0, 0, 0)], slots[u := Slot(0, 0, 0)];
    assert UnitOf(t'[used]) == u;
    forall v | v in slots'
      ensures Placed(t', used + 1, v)
    {
      if v != u {
        assert Placed(t, used, v);
        var i :| 0 <= i < used && UnitOf(t[i]) == v;
        assert UnitOf(t'[i]) == v;
      }
    }
  }

  /** Updating the counters of an entry updates its slot. */
  lemma Change(t: seq<Entry>, used: nat, slots: map<Unit, Slot>, i: nat, slot: Slot)
    requires TableIs(t, used, slots) && i < used
    ensures TableIs(t[i := Entry(t[i].core, t[i].key, slot.count, slot.activity, slot.pid)], used,
                    slots[UnitOf(t[i]) := slot])
  {
    var t' := t[i := Entry(t[i].core, t[i].key, slot.count, slot.activity, slot.pid)];
    var slots' := slots[UnitOf(t[i]) := slot];
    forall v | v in slots'
      ensures Placed(t', used, v)
    {
      assert Placed(t, used, v);
      var k :| 0 <= k < used && UnitOf(t[k]) == v;
      assert UnitOf(t'[k]) == v;
    }
  }

  class Activities {
    const table: array<Entry>
    /** The switches marshalled so far. */
    var trace: seq<Switch>
    ghost var used: nat
    ghost var st: State

    ghost predicate Valid()
      reads this, table
    {
      used <= TABLE && TableIs(table[..], used, st.slots) && trace == st.trace
    }

    constructor ()
      ensures Valid() && fresh(table) && st == EMPTY
    {
      table := new Entry[TABLE](_ => FREE);
      trace, used, st := [], 0, EMPTY;
    }

    /** Find the unit's entry, claiming a free one if it has none; `TABLE` when the table is full, where
        the driver stops with a bug. */
    method Index(core: int, key: int) returns (i: nat)
      requires Valid() && key != 0
      modifies this`used, this`st, table
      ensures Valid() && i <= TABLE
      ensures i == TABLE <==> Unit(core, key) !in old(st.slots) && old(used) == TABLE
      ensures i < TABLE ==> i < used && UnitOf(table[i]) == Unit(core, key)
      ensures i == TABLE ==> st == old(st)
      ensures i < TABLE ==> st == old(st).(slots := old(st.slots)[Unit(core, key) := Get(old(st), Unit(core, key))])
    {
      hide TableIs;
      var u := Unit(core, key);
      ghost var before := table[..];
      TableSize(before, used, st.slots);
      i := 0;
      while i < TABLE
        invariant 0 <= i <= TABLE && i <= used
        invariant table[..] == before && st == old(st) && used == old(used)
        invariant forall k :: 0 <= k < i ==> UnitOf(before[k]) != u
      {
        EntryAt(before, used, st.slots, i);
        assert table[i] == before[i];
        if table[i].core == core && table[i].key == key {
          assert st.slots[u := st.slots[u]] == st.slots;
          return;
        }
        if table[i].core == 0 && table[i].key == 0 {
          NotPlaced(before, used, st.slots, u);
          Claim(before, used, st.slots, u);
          table[i] := Entry(core, key, table[i].count, table[i].lastActivity, table[i].lastPid);
          st := st.(slots := st.slots[u := Slot(0, 0, 0)]);
          used := used + 1;
          assert table[..] == before[i := Entry(core, key, 0, 0, 0)];
          return;
        }
        i := i + 1;
      }
      NotPlaced(before, used, st.slots, u);
    }

    method ActivityEnqueue(core: int, key: int, activity: int, pid: int) returns (ok: bool)
      requires Valid() && key != 0
      modifies this, table
      ensures Valid()
      ensures ok <==> Unit(core, key) in old(st.slots) || old(used) < TABLE
      ensures ok ==> st == Next(old(st), Enqueue(Unit(core, key), activity, pid))
    {
      hide TableIs, Next;
      var u := Unit(core, key);
      ghost var first := st;
      var i := Index(core, key);
      if i == TABLE {
        return false;
      }
      EntryIs(table[..], used, st.slots, i);
      var count := table[i].count;
      var entry := table[i].(count := count + 1);
      if count != 0 {
        entry := entry.(lastActivity := activity, lastPid := pid);
      }
      ghost var before := table[..];
      Change(before, used, st.slots, i, Slot(entry.count, entry.lastActivity, entry.lastPid));
      table[i] := entry;
      if count == 0 {
        trace := trace + [Switch(u, activity, pid)];
      }
      assert table[..] == before[i := entry];
      EnqueueIs(first, u, activity, pid);
      st := Next(first, Enqueue(u, activity, pid));
      ok := true;
    }

    method ActivityStop(core: int, key: int) returns (ok: bool)
      requires Valid() && key != 0
      modifies this, table
      ensures Valid()
      ensures ok <==> Unit(core, key) in old(st.slots) || old(used) < TABLE
      ensures ok ==> st == Next(old(st), Stop(Unit(core, key)))
    {
      hide TableIs, Next;
      var u := Unit(core, key);
      ghost var first := st;
      var i := Index(core, key);
      if i == TABLE {
        return false;
      }
      EntryIs(table[..], used, st.slots, i);
      StopIs(first, u);
      ok := true;
      if table[i].count == 0 {
        st := Next(first, Stop(u));
        return;
      }
      var entry := table[i].(count := table[i].count - 1);
      ghost var before := table[..];
      Change(before, used, st.slots, i, Slot(entry.count, entry.lastActivity, entry.lastPid));
      table[i] := entry;
      assert table[..] == before[i := entry];
      trace := trace + [Switch(u, 0, 0)];
      if entry.count != 0 {
        trace := trace + [Switch(u, entry.lastActivity, entry.lastPid)];
      }
      st := Next(first, Stop(u));
    }
  }

  lemma TableSize(t: seq<Entry>, used: nat, slots: map<Unit, Slot>)
    requires TableIs(t, used, slots)
    ensures used <= |t| == TABLE
  {
  }

  /** An entry within the used part holds a unit with a slot, any other is free. */
  lemma EntryAt(t: seq<Entry>, used: nat, slots: map<Unit, Slot>, i: nat)
    requires TableIs(t, used, slots) && i < TABLE
    ensures i < |t|
    ensures if i < used then t[i].key != 0 && UnitOf(t[i]) in slots else t[i] == FREE
  {
  }

  lemma NotPlaced(t: seq<Entry>, used: nat, slots: map<Unit, Slot>, u: Unit)
    requires TableIs(t, used, slots) && forall k :: 0 <= k < used ==> UnitOf(t[k]) != u
    ensures u !in slots
  {
    assert !Placed(t, used, u);
  }

  lemma EntryIs(t: seq<Entry>, used: nat, slots: map<Unit, Slot>, i: nat)
    requires TableIs(t, used, slots) && i < used
    ensures i < |t| == TABLE && UnitOf(t[i]) in slots && t[i].count >= 0
    ensures slots[UnitOf(t[i])] == Slot(t[i].count, t[i].lastActivity, t[i].lastPid)
  {
  }

  lemma EnqueueIs(s: State, u: Unit, activity: int, pid: int)
    ensures var slot := Get(s, u);
      Next(s, Enqueue(u, activity, pid)).slots == s.slots[u := slot]
        [u := if slot.count > 0 then Slot(slot.count + 1, activity, pid) else slot.(count := 1)]
      && Next(s, Enqueue(u, activity, pid)).trace
           == if slot.count == 0 then s.trace + [Switch(u, activity, pid)] else s.trace
  {
    assert s.trace + [] == s.trace;
  }

  lemma StopIs(s: State, u: Unit)
    ensures var slot := Get(s, u); var t := Next(s, Stop(u));
      && (slot.count == 0 ==> t.slots == s.slots[u := slot] && t.trace == s.trace)
      && (slot.count > 0 ==> t.slots == s.slots[u := slot][u := slot.(count := slot.count - 1)])
      && (slot.count == 1 ==> t.trace == s.trace + [Switch(u, 0, 0)])
      && (slot.count > 1 ==> t.trace == s.trace + [Switch(u, 0, 0)] + [Switch(u, slot.activity, slot.pid)])
  {
    assert s.trace + [Switch(u, 0, 0)] + [] == s.trace + [Switch(u, 0, 0)];
  }
}

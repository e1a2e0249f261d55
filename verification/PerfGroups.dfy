/** Placement of perf counters into groups: every counter takes the next slot, and one that is not
    pinned is opened in the group of the leader of its type. */
module PerfGroups {
  const MAX_PERFORMANCE_COUNTERS := 50
  const SLOTS := 2 * MAX_PERFORMANCE_COUNTERS
  const LEADERS := 16
  const PERF_TYPE_HARDWARE := 0
  const PERF_TYPE_SOFTWARE := 1
  const PERF_TYPE_TRACEPOINT := 2
  const INT_MAX := 0x7fff_ffff

  /** The flags that decide about grouping. */
  datatype Flags = Flags(perCpu: bool, leader: bool, cpu: bool)

  /** A slot is in use when its key is not negative. */
  datatype Slot = Slot(key: int, perfType: int, flags: Flags, pinned: bool)

  const UNUSED := Slot(-1, 0, Flags(false, false, false), false)

  function EffectiveType(perfType: int, flags: Flags): int {
    if flags.cpu then PERF_TYPE_HARDWARE else perfType
  }

  datatype Outcome = Added | Refused | Fatal

  /** Whether `prepareCPU` opens a slot on a CPU. */
  predicate Prepared(s: Slot, cpu: nat) { cpu == 0 || s.flags.perCpu }

  /** The slot's leader comes before it, is pinned, and is opened wherever the slot is. */
  predicate Led(slots: seq<Slot>, leaders: seq<int>, i: nat)
    requires i < |slots| && |leaders| == LEADERS
  {
    var t := EffectiveType(slots[i].perfType, slots[i].flags);
    0 <= t < LEADERS &&
    var l := leaders[t];
    && 0 <= l < i && slots[l].pinned && slots[l].key >= 0
    && (slots[i].flags.perCpu ==> slots[l].flags.perCpu)
  }

  /** The slot was made to lead the type: the scheduler tracepoint, on every CPU, leads the CPU group, and a
      clock whose key tells the type leads each other one. */
  predicate LeaderFor(s: Slot, t: nat) {
    && s.pinned
    && if t == 0 then s.perfType == PERF_TYPE_TRACEPOINT && s.flags.perCpu && s.flags.cpu
       else s.perfType == PERF_TYPE_SOFTWARE && s.key == INT_MAX - t
  }

  /** A leader's slot suits its type. */
  predicate LeaderOk(slots: seq<Slot>, used: nat, leaders: seq<int>, t: nat)
    requires t < |leaders| && used <= |slots|
  {
    leaders[t] >= 0 ==> leaders[t] < used && LeaderFor(slots[leaders[t]], t)
  }

  ghost predicate Inv(slots: seq<Slot>, used: nat, leaders: seq<int>) {
    && used <= |slots| == SLOTS && |leaders| == LEADERS
    && (forall i :: 0 <= i < |slots| ==> (slots[i].key >= 0 <==> i < used))
    && (forall i :: 0 <= i < used ==> slots[i].pinned == slots[i].flags.leader)
    && (forall t :: 0 <= t < LEADERS ==> LeaderOk(slots, used, leaders, t))
    && (forall i :: 0 <= i < used && !slots[i].pinned ==> Led(slots, leaders, i))
  }

  /** What `perf_event_open` may answer. */
  datatype OpenResult = Opened | NotHere | Offline | Error

  /** One call: the slot, and the slot whose group it joins (-1 for none). */
  datatype Attempt = Attempt(slot: nat, group: int)

  datatype Status = Success | Failure | CpuOffline

  ghost predicate Tried(attempts: seq<Attempt>, slot: int) {
    exists m :: 0 <= m < |attempts| && attempts[m].slot == slot
  }

  /** A slot in use on this CPU; a pinned one opens a group, another joins the one whose leader was made for
      its type, or for the CPU if it is flagged so, and was tried before. */
  ghost predicate AttemptOk(slots: seq<Slot>, used: nat, before: seq<Attempt>, a: Attempt, cpu: nat) {
    && a.slot < used <= |slots| && (cpu == 0 || slots[a.slot].flags.perCpu)
    && (a.group < 0 <==> slots[a.slot].pinned)
    && (a.group >= 0 ==>
          && a.group < used && Tried(before, a.group)
          && LeaderMade(slots[a.group], slots[a.slot]))
  }

  ghost predicate LeaderMade(leader: Slot, s: Slot) {
    if s.flags.cpu then LeaderFor(leader, 0) else s.perfType >= 0 && LeaderFor(leader, s.perfType)
  }

  /** The pass goes on past a slot that opened or does not apply to the CPU, and stops at the first other
      answer, which decides its status. */
  ghost predicate Answered(attempts: seq<Attempt>, answers: seq<OpenResult>, status: Status) {
    var n := |attempts|;
    && (forall k :: 0 <= k < n ==> attempts[k].slot < |answers|)
    && (forall k :: 0 <= k < n - (if status == Success then 0 else 1) ==>
          answers[attempts[k].slot] == Opened || answers[attempts[k].slot] == NotHere)
    && (status == CpuOffline ==> n > 0 && answers[attempts[n - 1].slot] == Offline)
    && (status == Failure ==> n > 0 && answers[attempts[n - 1].slot] == Error)
  }

  lemma TriedMore(attempts: seq<Attempt>, a: Attempt)
    ensures forall slot :: Tried(attempts, slot) || slot == a.slot ==> Tried(attempts + [a], slot)
    ensures forall k :: 0 <= k <= |attempts| ==> (attempts + [a])[..k] == attempts[..k]
    ensures attempts[..|attempts|] == attempts
  {
    assert (attempts + [a])[|attempts|] == a;
    forall slot | Tried(attempts, slot)
      ensures Tried(attempts + [a], slot)
    {
      var m :| 0 <= m < |attempts| && attempts[m].slot == slot;
      assert (attempts + [a])[m].slot == slot;
    }
  }

  class PerfGroup {
    const slots: array<Slot>
    const leaders: array<int>
    ghost var used: nat

    ghost predicate Valid()
      reads this, slots, leaders
    {
      slots != leaders as object && Inv(slots[..], used, leaders[..])
    }

    constructor ()
      ensures Valid() && fresh(slots) && fresh(leaders) && used == 0
      ensures forall t :: 0 <= t < LEADERS ==> leaders[t] == -1
    {
      slots := new Slot[SLOTS](_ => UNUSED);
      leaders := new int[LEADERS](_ => -1);
      used := 0;
    }

    /** `doAdd`: the first free slot, which is the next one; -1 when there is none. */
    method DoAdd(key: int, perfType: int, flags: Flags) returns (i: int)
      requires Valid() && key >= 0
      requires !flags.leader ==>
        var t := EffectiveType(perfType, flags);
        && 0 <= t < LEADERS && leaders[t] >= 0
        && (flags.perCpu ==> t == PERF_TYPE_HARDWARE)
      modifies this`used, slots
      ensures Valid()
      ensures old(used) == SLOTS ==> i == -1 && used == old(used) && slots[..] == old(slots[..])
      ensures old(used) < SLOTS ==>
        && i == old(used) && used == old(used) + 1
        && slots[..] == old(slots[..])[i := Slot(key, perfType, flags, flags.leader)]
    {
      hide Inv, Led;
      InvSizes(slots[..], used, leaders[..]);
      i := 0;
      while i < SLOTS
        invariant 0 <= i <= used <= SLOTS == slots.Length && slots[..] == old(slots[..])
        invariant used == old(used) && Valid()
      {
        InvKeys(slots[..], used, leaders[..], i);
        if slots[i].key < 0 {
          break;
        }
        i := i + 1;
      }
      if i >= SLOTS {
        return -1;
      }
      InvKeys(slots[..], used, leaders[..], i);
      ghost var before := slots[..];
      Placed(before, used, leaders[..], Slot(key, perfType, flags, flags.leader));
      slots[i] := Slot(key, perfType, flags, flags.leader);
      assert slots[..] == before[i := Slot(key, perfType, flags, flags.leader)];
      used := used + 1;
    }

    /** `createCpuGroup` while the CPU group has no members: `switchKey` is the key of the scheduler tracepoint,
        `readable` whether its id can be read, `sampled` whether a clock is sampled. */
    method CreateCpuGroup(switchKey: int, readable: bool, sampled: bool) returns (ok: bool)
      requires Valid() && switchKey >= 0 && NoMembers(slots[..], used, PERF_TYPE_HARDWARE)
      modifies this`used, slots, leaders
      ensures Valid() && leaders[..][1..] == old(leaders[..][1..])
      ensures used >= old(used) && slots[..old(used)] == old(slots[..used])
      ensures ok <==> readable && old(used) + (if sampled then 2 else 1) <= SLOTS
      ensures ok ==> used == old(used) + if sampled then 2 else 1
      ensures leaders[PERF_TYPE_HARDWARE]
           == if !readable then old(leaders[PERF_TYPE_HARDWARE]) else if old(used) < SLOTS then old(used) else -1
    {
      hide Inv, Led;
      InvSizes(slots[..], used, leaders[..]);
      if !readable {
        return false;
      }
      var i := DoAdd(switchKey, PERF_TYPE_TRACEPOINT, Flags(true, true, true));
      ghost var before := leaders[..];
      InvSizes(slots[..], used, before);
      NewLeader(slots[..], used, before, PERF_TYPE_HARDWARE, i);
      leaders[PERF_TYPE_HARDWARE] := i;
      assert leaders[..] == before[PERF_TYPE_HARDWARE := i];
      if leaders[PERF_TYPE_HARDWARE] < 0 {
        return false;
      }
      if sampled {
        InvSizes(slots[..], used, leaders[..]);
        var j := DoAdd(INT_MAX - PERF_TYPE_HARDWARE, PERF_TYPE_SOFTWARE, Flags(true, false, true));
        if j < 0 {
          return false;
        }
      }
      ok := true;
    }

    /** The group a counter needs, created if it is missing. */
    method NeedGroup(t: nat, switchKey: int, readable: bool, sampled: bool) returns (ok: bool)
      requires Valid() && t < LEADERS && leaders[t] < 0 && switchKey >= 0
      modifies this`used, slots, leaders
      ensures Valid() && (ok ==> leaders[t] >= 0)
      ensures forall u :: 0 <= u < LEADERS && u != t ==> leaders[u] == old(leaders[u])
      ensures used >= old(used) && slots[..old(used)] == old(slots[..used])
    {
      hide Inv, Led;
      InvSizes(slots[..], used, leaders[..]);
      ghost var before := leaders[..];
      if t == PERF_TYPE_HARDWARE {
        NoLeaderNoMembers(slots[..], used, leaders[..], t);
        ok := CreateCpuGroup(switchKey, readable, sampled);
        InvSizes(slots[..], used, leaders[..]);
        assert forall u :: 1 <= u < LEADERS ==> leaders[u] == leaders[..][1..][u - 1];
      } else {
        var l := DoAdd(INT_MAX - t, PERF_TYPE_SOFTWARE, Flags(false, true, false));
        NoLeaderNoMembers(slots[..], used, before, t);
        NewLeader(slots[..], used, before, t, l);
        leaders[t] := l;
        assert leaders[..] == before[t := l];
        ok := l >= 0;
      }
    }

    /** `add`, which creates the group of the counter's type if there is none. */
    method Add(key: int, perfType: int, flags: Flags, switchKey: int, readable: bool, sampled: bool)
      returns (r: Outcome)
      requires Valid() && key >= 0 && perfType >= 0 && switchKey >= 0
      modifies this`used, slots, leaders
      ensures Valid()
      ensures forall u :: 0 <= u < LEADERS && old(leaders[u]) >= 0 ==> leaders[u] == old(leaders[u])
      ensures used >= old(used) && slots[..old(used)] == old(slots[..used])
      ensures r == Added ==> used > old(used) && slots[used - 1] == Slot(key, perfType, flags, flags.leader)
    {
      hide Inv, Led;
      InvSizes(slots[..], used, leaders[..]);
      var t := EffectiveType(perfType, flags);
      if t >= LEADERS {
        return Fatal;
      }
      if !flags.leader && leaders[t] < 0 {
        var ok := NeedGroup(t, switchKey, readable, sampled);
        if !ok {
          return Refused;
        }
      }
      if !flags.leader && t != PERF_TYPE_HARDWARE && flags.perCpu {
        return Fatal;
      }
      InvSizes(slots[..], used, leaders[..]);
      ghost var kept := slots[..];
      var i := DoAdd(key, perfType, flags);
      InvSizes(slots[..], used, leaders[..]);
      assert slots[..old(used)] == kept[..old(used)];
      r := if i >= 0 then Added else Refused;
    }

    /** `prepareCPU`: the calls it makes, given the answers.  Whenever a slot joins a group, the group's
        leader was tried on the same CPU before. */
    method PrepareCpu(cpu: nat, answers: seq<OpenResult>) returns (attempts: seq<Attempt>, status: Status)
      requires Valid() && |answers| == SLOTS
      ensures forall k :: 0 <= k < |attempts| ==> AttemptOk(slots[..], used, attempts[..k], attempts[k], cpu)
      ensures status == Success ==>
        forall i :: 0 <= i < used && Prepared(slots[i], cpu) ==> Tried(attempts, i)
      ensures forall k, l :: 0 <= k < l < |attempts| ==> attempts[k].slot < attempts[l].slot
      ensures Answered(attempts, answers, status)
    {
      attempts := [];
      var i := 0;
      while i < SLOTS
        invariant 0 <= i <= SLOTS
        invariant forall j :: 0 <= j < i && j < used && Prepared(slots[j], cpu) ==> Tried(attempts, j)
        invariant forall k :: 0 <= k < |attempts| ==> AttemptOk(slots[..], used, attempts[..k], attempts[k], cpu)
        invariant forall k :: 0 <= k < |attempts| ==> attempts[k].slot < i
        invariant forall k, l :: 0 <= k < l < |attempts| ==> attempts[k].slot < attempts[l].slot
        invariant Answered(attempts, answers, Success)
      {
        if slots[i].key >= 0 && (cpu == 0 || slots[i].flags.perCpu) {
          var group := -1;
          if !slots[i].pinned {
            assert Led(slots[..], leaders[..], i);
            assert LeaderOk(slots[..], used, leaders[..], EffectiveType(slots[i].perfType, slots[i].flags));
            group := leaders[EffectiveType(slots[i].perfType, slots[i].flags)];
          }
          ghost var before := attempts;
          assert AttemptOk(slots[..], used, before, Attempt(i, group), cpu);
          TriedMore(before, Attempt(i, group));
          attempts := attempts + [Attempt(i, group)];
          if answers[i] == Offline {
            return attempts, CpuOffline;
          }
          if answers[i] == Error {
            return attempts, Failure;
          }
        }
        i := i + 1;
      }
      status := Success;
    }
  }

  lemma InvSizes(slots: seq<Slot>, used: nat, leaders: seq<int>)
    requires Inv(slots, used, leaders)
    ensures used <= |slots| == SLOTS && |leaders| == LEADERS
  {
  }

  lemma InvKeys(slots: seq<Slot>, used: nat, leaders: seq<int>, i: nat)
    requires Inv(slots, used, leaders) && i < SLOTS
    ensures |slots| == SLOTS && (slots[i].key >= 0 <==> i < used)
  {
  }

  /** The next slot filled: a leader, or a member whose leader exists. */
  lemma Placed(slots: seq<Slot>, used: nat, leaders: seq<int>, s: Slot)
    requires Inv(slots, used, leaders) && used < SLOTS && s.key >= 0 && s.pinned == s.flags.leader
    requires !s.pinned ==>
      var t := EffectiveType(s.perfType, s.flags);
      0 <= t < LEADERS && leaders[t] >= 0 && (s.flags.perCpu ==> t == PERF_TYPE_HARDWARE)
    ensures Inv(slots[used := s], used + 1, leaders)
  {
    var after, n := slots[used := s], used + 1;
    forall t: nat | t < LEADERS
      ensures LeaderOk(after, n, leaders, t)
    {
      assert LeaderOk(slots, used, leaders, t);
    }
    forall i | 0 <= i < used + 1 && !after[i].pinned
      ensures Led(after, leaders, i)
    {
      if i < used {
        assert Led(slots, leaders, i);
      } else {
        assert LeaderOk(slots, used, leaders, EffectiveType(s.perfType, s.flags));
      }
    }
  }

  /** No slot in use joins the group of type `t`. */
  ghost predicate NoMembers(slots: seq<Slot>, used: nat, t: int) {
    forall i :: 0 <= i < used && i < |slots| && !slots[i].pinned ==> EffectiveType(slots[i].perfType, slots[i].flags) != t
  }

  lemma NoLeaderNoMembers(slots: seq<Slot>, used: nat, leaders: seq<int>, t: nat)
    requires Inv(slots, used, leaders) && t < LEADERS && leaders[t] < 0
    ensures NoMembers(slots, used, t)
  {
    forall i | 0 <= i < used && !slots[i].pinned
      ensures EffectiveType(slots[i].perfType, slots[i].flags) != t
    {
      assert Led(slots, leaders, i);
    }
  }

  /** The last slot in use, or none if there was no room, becomes the leader of type `t`.  The slots stay
      led if and only if none of them belongs to that type yet. */
  lemma NewLeader(slots: seq<Slot>, used: nat, leaders: seq<int>, t: nat, l: int)
    requires Inv(slots, used, leaders) && t < LEADERS
    requires l < 0 || l == used - 1
    requires l >= 0 ==> LeaderFor(slots[l], t)
    ensures Inv(slots, used, leaders[t := l]) <==> NoMembers(slots, used, t)
  {
    var after := leaders[t := l];
    forall u | 0 <= u < LEADERS
      ensures LeaderOk(slots, used, after, u)
    {
      assert LeaderOk(slots, used, leaders, u);
    }
    forall i | 0 <= i < used && !slots[i].pinned
      ensures Led(slots, after, i) <==> EffectiveType(slots[i].perfType, slots[i].flags) != t
    {
      assert Led(slots, leaders, i);
    }
  }
}

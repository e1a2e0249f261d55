/** Anonymous shared memory backed by Nexus blocks: an area lives from its file's `open` to its
    `release`, but its block outlives the file while external references remain. */
module Ashmem {
  import opened Sequences

  /** Handles and addresses of zero mean "none". */
  datatype Area = Area(block: nat, addr: nat, size: nat, align: nat, movable: bool, ext: int, deferred: bool)

  datatype Event = Alloc(h: nat) | Lock(h: nat) | Unlock(h: nat) | Free(h: nat)

  /** `areas` is the block list, `files` the areas whose file is open, `log` the calls made to Nexus. */
  datatype State = State(areas: map<nat, Area>, files: set<nat>, log: seq<Event>)

  datatype Count = Add | Rem | Other

  datatype Step =
    | Open(id: nat)
    | SetSize(id: nat, size: nat, align: nat, movable: bool)
    | GetMem(id: nat, handle: nat, address: nat)
    | ExtRefcnt(hdl: nat, cnt: Count)
    | Release(id: nat)

  const EMPTY := State(map[], {}, [])

  // ------------------------------------------------------------------ Nexus, as its own automaton

  datatype Nexus = Broken | Heap(locks: map<nat, nat>)

  /** A block is allocated while free, freed while allocated and unlocked, and unlocked while locked. */
  function React(n: Nexus, e: Event): Nexus {
    match n
    case Broken => Broken
    case Heap(locks) =>
      match e
      case Alloc(h) => if h == 0 || h in locks then Broken else Heap(locks[h := 0])
      case Lock(h) => if h in locks then Heap(locks[h := locks[h] + 1]) else Broken
      case Unlock(h) => if h in locks && locks[h] > 0 then Heap(locks[h := locks[h] - 1]) else Broken
      case Free(h) => if h in locks && locks[h] == 0 then Heap(locks - {h}) else Broken
  }

  function Replay(log: seq<Event>): Nexus {
    if log == [] then Heap(map[]) else React(Replay(log[..|log| - 1]), log[|log| - 1])
  }

  lemma ReplaySnoc(log: seq<Event>, e: Event)
    ensures Replay(log + [e]) == React(Replay(log), e)
  {
    assert (log + [e])[..|log|] == log;
  }

  // ------------------------------------------------------------------ the driver

  /** `nx_ashmem_asma_free_block`, as the calls it makes. */
  function FreeCalls(pinned: bool, a: Area): seq<Event> {
    if a.block == 0 then []
    else (if !a.movable && pinned && a.addr != 0 then [Unlock(a.block)] else []) + [Free(a.block)]
  }

  /** The area leaves the list and its block is freed. */
  function Drop(pinned: bool, s: State, id: nat): State
    requires id in s.areas
  {
    s.(areas := s.areas - {id}, log := s.log + FreeCalls(pinned, s.areas[id]))
  }

  /** The `GETMEM` request; `handle` is what Nexus would allocate (zero if it cannot) and `address`
      what it would lock the block at. */
  function Map(pinned: bool, s: State, id: nat, handle: nat, address: nat): State
    requires id in s.areas
  {
    var a := s.areas[id];
    if a.size == 0 || a.block != 0 || handle == 0 then s
    else if a.movable || !pinned then
      s.(areas := s.areas[id := a.(block := handle, addr := 0)], log := s.log + [Alloc(handle)])
    else
      s.(areas := s.areas[id := a.(block := handle, addr := address)],
         log := s.log + [Alloc(handle), Lock(handle)])
  }

  function Counted(a: Area, cnt: Count): Area {
    var ext := if cnt.Add? then a.ext + 1 else a.ext - 1;
    a.(ext := if ext < 0 then 0 else ext)
  }

  ghost predicate Holds(s: State, id: nat, hdl: nat) {
    id in s.areas && hdl != 0 && s.areas[id].block == hdl
  }

  /** The `EXT_REFCNT` request for the area `id` that holds the block. */
  function Recount(pinned: bool, s: State, id: nat, cnt: Count): State
    requires id in s.areas
  {
    if cnt.Other? then s
    else
      var s1 := s.(areas := s.areas[id := Counted(s.areas[id], cnt)]);
      if s1.areas[id].ext == 0 && s1.areas[id].deferred then Drop(pinned, s1, id) else s1
  }

  function Close(pinned: bool, s: State, id: nat): State
    requires id in s.areas
  {
    var a := s.areas[id];
    var s1 := s.(files := s.files - {id});
    if a.block != 0 && a.ext > 0 then s1.(areas := s.areas[id := a.(deferred := true)])
    else Drop(pinned, s1, id)
  }

  predicate Enabled(s: State, step: Step) {
    match step
    case Open(id) => id !in s.areas
    case SetSize(id, _, _, _) => id in s.files && id in s.areas
    case GetMem(id, handle, address) =>
      id in s.files && id in s.areas && address != 0 && handle !in Live(s)
    case ExtRefcnt(_, _) => true
    case Release(id) => id in s.files && id in s.areas
  }

  /** The blocks that areas hold. */
  function Live(s: State): set<nat> {
    set id | id in s.areas && s.areas[id].block != 0 :: s.areas[id].block
  }

  ghost function Next(pinned: bool, s: State, step: Step): State
    requires Enabled(s, step)
  {
    match step
    case Open(id) => s.(areas := s.areas[id := Area(0, 0, 0, 0, false, 0, false)], files := s.files + {id})
    case SetSize(id, size, align, movable) =>
      var a := s.areas[id];
      if a.addr != 0 then s
      else s.(areas := s.areas[id := a.(size := size, align := align, movable := movable)])
    case GetMem(id, handle, address) => Map(pinned, s, id, handle, address)
    case ExtRefcnt(hdl, cnt) =>
      if id :| Holds(s, id, hdl) then Recount(pinned, s, id, cnt) else s
    case Release(id) => Close(pinned, s, id)
  }

  // ------------------------------------------------------------------ the invariant

  ghost predicate AreaOk(pinned: bool, s: State, id: nat)
    requires id in s.areas
  {
    var a := s.areas[id];
    && a.ext >= 0
    && (a.block == 0 ==> a.ext == 0 && a.addr == 0)
    && (a.addr != 0 ==> !a.movable && pinned)
    && (if id in s.files then !a.deferred else a.deferred && a.block != 0 && a.ext > 0)
  }

  /** Two areas never hold the same block. */
  ghost predicate Unshared(s: State) {
    forall i, j :: i in s.areas && j in s.areas && i != j && s.areas[i].block != 0
                   ==> s.areas[i].block != s.areas[j].block
  }

  /** What Nexus has seen leaves exactly the held blocks allocated, locked once where the area has an
      address. */
  ghost predicate NexusAgrees(s: State) {
    Replay(s.log).Heap? &&
    var locks := Replay(s.log).locks;
    && locks.Keys == Live(s)
    && forall id :: id in s.areas && s.areas[id].block in locks
         ==> locks[s.areas[id].block] == if s.areas[id].addr != 0 then 1 else 0
  }

  ghost predicate Inv(pinned: bool, s: State) {
    && s.files <= s.areas.Keys
    && (forall id :: id in s.areas ==> AreaOk(pinned, s, id))
    && Unshared(s)
    && NexusAgrees(s)
  }

  lemma LiveHas(s: State, id: nat)
    requires id in s.areas && s.areas[id].block != 0
    ensures s.areas[id].block in Live(s)
  {
  }

  lemma {:induction false} FreeReplays(pinned: bool, s: State, id: nat)
    requires id in s.areas && s.areas[id].block != 0 && NexusAgrees(s)
    requires s.areas[id].addr != 0 ==> !s.areas[id].movable && pinned
    ensures Replay(s.log + FreeCalls(pinned, s.areas[id])) == Heap(Replay(s.log).locks - {s.areas[id].block})
  {
    var a := s.areas[id];
    LiveHas(s, id);
    if a.addr != 0 {
      ReplaySnoc(s.log, Unlock(a.block));
      ReplaySnoc(s.log + [Unlock(a.block)], Free(a.block));
      assert s.log + FreeCalls(pinned, a) == s.log + [Unlock(a.block)] + [Free(a.block)];
      var locks := Replay(s.log).locks;
      assert locks[a.block := locks[a.block] - 1] - {a.block} == locks - {a.block};
    } else {
      ReplaySnoc(s.log, Free(a.block));
      assert s.log + FreeCalls(pinned, a) == s.log + [Free(a.block)];
    }
  }

  /** Everything but the open files of `s`, in which area `id` may be about to go. */
  ghost predicate InvBut(pinned: bool, s: State, id: nat) {
    && id in s.areas && id !in s.files && s.files <= s.areas.Keys
    && (forall i :: i in s.areas && i != id ==> AreaOk(pinned, s, i))
    && (s.areas[id].addr != 0 ==> s.areas[id].block != 0 && !s.areas[id].movable && pinned)
    && Unshared(s)
    && NexusAgrees(s)
  }

  /** Dropping an area frees its block, once, and unlocks it exactly if it was locked. */
  lemma DropInv(pinned: bool, s: State, id: nat)
    requires InvBut(pinned, s, id)
    ensures Inv(pinned, Drop(pinned, s, id))
    ensures Live(Drop(pinned, s, id)) == Live(s) - {s.areas[id].block}
  {
    DropLive(pinned, s, id);
    DropAreas(pinned, s, id);
    DropNexus(pinned, s, id);
  }

  /** The other areas are as they were. */
  lemma DropAreas(pinned: bool, s: State, id: nat)
    requires InvBut(pinned, s, id)
    ensures var t := Drop(pinned, s, id);
      && t.files <= t.areas.Keys && Unshared(t)
      && forall i :: i in t.areas ==> AreaOk(pinned, t, i)
  {
    hide NexusAgrees, FreeCalls;
    var t := Drop(pinned, s, id);
    forall i | i in t.areas
      ensures AreaOk(pinned, t, i)
    {
      assert AreaOk(pinned, s, i);
    }
  }

  lemma DropNexus(pinned: bool, s: State, id: nat)
    requires InvBut(pinned, s, id)
    ensures NexusAgrees(Drop(pinned, s, id))
  {
    hide Live, AreaOk, FreeCalls, Replay;
    var t := Drop(pinned, s, id);
    DropLive(pinned, s, id);
    if s.areas[id].block != 0 {
      FreeReplays(pinned, s, id);
    } else {
      NothingToFree(pinned, s, id);
      NoZero(s);
    }
  }

  lemma NothingToFree(pinned: bool, s: State, id: nat)
    requires id in s.areas && s.areas[id].block == 0
    ensures Drop(pinned, s, id).log == s.log
  {
  }

  lemma NoZero(s: State)
    ensures 0 !in Live(s)
  {
  }

  lemma DropLive(pinned: bool, s: State, id: nat)
    requires InvBut(pinned, s, id)
    ensures Live(Drop(pinned, s, id)) == Live(s) - {s.areas[id].block}
  {
    var t := Drop(pinned, s, id);
    var h := s.areas[id].block;
    forall x | x in Live(s) && x != h
      ensures x in Live(t)
    {
      var i :| i in s.areas && s.areas[i].block == x;
      LiveHas(t, i);
    }
  }

  /** Areas that keep their block and address leave Nexus as it is. */
  lemma SameBlocks(s: State, t: State)
    requires NexusAgrees(s) && t.log == s.log && t.areas.Keys == s.areas.Keys
    requires forall i :: i in s.areas ==> t.areas[i].block == s.areas[i].block && t.areas[i].addr == s.areas[i].addr
    ensures NexusAgrees(t) && Live(t) == Live(s)
  {
    assert forall i :: i in s.areas ==> i in t.areas;
    assert Live(t) == Live(s);
  }

  lemma OpenLive(s: State, t: State, id: nat)
    requires id !in s.areas && t.areas.Keys == s.areas.Keys + {id} && t.areas[id].block == 0
    requires forall i :: i in s.areas ==> t.areas[i] == s.areas[i]
    ensures Live(t) == Live(s)
  {
    assert forall i :: i in s.areas ==> i in t.areas;
  }

  lemma OpenInv(pinned: bool, s: State, id: nat)
    requires Inv(pinned, s) && Enabled(s, Open(id))
    ensures Inv(pinned, Next(pinned, s, Open(id)))
  {
    hide Replay, NexusAgrees;
    var t := Next(pinned, s, Open(id));
    OpenNexus(s, t, id);
    forall i | i in t.areas
      ensures AreaOk(pinned, t, i)
    {
      if i != id { assert AreaOk(pinned, s, i); }
    }
  }

  lemma OpenNexus(s: State, t: State, id: nat)
    requires NexusAgrees(s) && id !in s.areas && t.areas == s.areas[id := Area(0, 0, 0, 0, false, 0, false)]
    requires t.log == s.log
    ensures NexusAgrees(t)
  {
    OpenLive(s, t, id);
    hide Live, Replay;
    NoZero(s);
  }

  /** A newly allocated block is held by the one area it was allocated for. */
  lemma MapLive(s: State, t: State, id: nat, handle: nat)
    requires id in s.areas && s.areas[id].block == 0 && handle != 0
    requires t.areas.Keys == s.areas.Keys && t.areas[id].block == handle
    requires forall i :: i in s.areas && i != id ==> t.areas[i] == s.areas[i]
    ensures Live(t) == Live(s) + {handle}
  {
    LiveHas(t, id);
    forall x | x in Live(s)
      ensures x in Live(t)
    {
      var i :| i in s.areas && s.areas[i].block == x;
      LiveHas(t, i);
    }
  }

  lemma MapReplays(log: seq<Event>, handle: nat, lock: bool)
    requires Replay(log).Heap? && handle != 0 && handle !in Replay(log).locks
    ensures var calls := if lock then [Alloc(handle), Lock(handle)] else [Alloc(handle)];
      Replay(log + calls) == Heap(Replay(log).locks[handle := if lock then 1 else 0])
  {
    ReplaySnoc(log, Alloc(handle));
    if lock {
      ReplaySnoc(log + [Alloc(handle)], Lock(handle));
      assert log + [Alloc(handle), Lock(handle)] == log + [Alloc(handle)] + [Lock(handle)];
    }
  }

  lemma MapNexus(pinned: bool, s: State, id: nat, handle: nat, address: nat)
    requires NexusAgrees(s) && id in s.areas && s.areas[id].block == 0
    requires handle != 0 && handle !in Live(s) && address != 0 && s.areas[id].size != 0
    ensures NexusAgrees(Map(pinned, s, id, handle, address))
  {
    hide Live, Replay;
    var t := Map(pinned, s, id, handle, address);
    MapLive(s, t, id, handle);
    MapReplays(s.log, handle, !(s.areas[id].movable || !pinned));
    var locks := Replay(s.log).locks;
    forall i | i in t.areas && i != id
      ensures t.areas[i] == s.areas[i] && s.areas[i].block != handle
    {
      if s.areas[i].block == handle { LiveHas(s, i); }
    }
    assert Replay(t.log).locks.Keys == locks.Keys + {handle};
  }

  lemma MapInv(pinned: bool, s: State, id: nat, handle: nat, address: nat)
    requires Inv(pinned, s) && Enabled(s, GetMem(id, handle, address))
    ensures Inv(pinned, Map(pinned, s, id, handle, address))
  {
    hide NexusAgrees;
    var a := s.areas[id];
    assert AreaOk(pinned, s, id);
    if !(a.size == 0 || a.block != 0 || handle == 0) {
      MapNexus(pinned, s, id, handle, address);
      forall i | i in s.areas
        ensures s.areas[i].block != handle
      {
        if s.areas[i].block == handle { LiveHas(s, i); }
      }
    }
  }

  lemma RecountInv(pinned: bool, s: State, id: nat, cnt: Count)
    requires Inv(pinned, s) && id in s.areas && s.areas[id].block != 0
    ensures Inv(pinned, Recount(pinned, s, id, cnt))
  {
    hide NexusAgrees, Live, FreeCalls;
    if !cnt.Other? {
      var t := s.(areas := s.areas[id := Counted(s.areas[id], cnt)]);
      SameBlocks(s, t);
      assert AreaOk(pinned, s, id);
      if t.areas[id].ext == 0 && t.areas[id].deferred {
        assert InvBut(pinned, t, id);
        DropInv(pinned, t, id);
      }
    }
  }

  lemma CloseInv(pinned: bool, s: State, id: nat)
    requires Inv(pinned, s) && Enabled(s, Release(id))
    ensures Inv(pinned, Close(pinned, s, id))
  {
    hide NexusAgrees, Live, FreeCalls, Replay;
    var a := s.areas[id];
    assert AreaOk(pinned, s, id);
    if a.block != 0 && a.ext > 0 {
      SameBlocks(s, Close(pinned, s, id));
    } else {
      var t := s.(files := s.files - {id});
      SameBlocks(s, t);
      assert InvBut(pinned, t, id);
      DropInv(pinned, t, id);
    }
  }

  /** At most one area holds a block, so the request for a handle concerns that area. */
  lemma OwnerIs(pinned: bool, s: State, i: nat, hdl: nat, cnt: Count)
    requires Unshared(s) && Holds(s, i, hdl)
    ensures Next(pinned, s, ExtRefcnt(hdl, cnt)) == Recount(pinned, s, i, cnt)
  {
    hide Recount;
    forall j | Holds(s, j, hdl)
      ensures j == i
    {
    }
  }

  lemma SizeInv(pinned: bool, s: State, step: Step)
    requires Inv(pinned, s) && step.SetSize? && Enabled(s, step)
    ensures Inv(pinned, Next(pinned, s, step))
  {
    hide NexusAgrees, Live, Replay;
    assert AreaOk(pinned, s, step.id);
    SameBlocks(s, Next(pinned, s, step));
  }

  /** Every request keeps the books. */
  lemma StepInv(pinned: bool, s: State, step: Step)
    requires Inv(pinned, s) && Enabled(s, step)
    ensures Inv(pinned, Next(pinned, s, step))
  {
    hide Inv, Recount, Close, Map;
    match step {
      case Open(id) => OpenInv(pinned, s, id);
      case SetSize(_, _, _, _) => SizeInv(pinned, s, step);
      case GetMem(id, handle, address) => MapInv(pinned, s, id, handle, address);
      case ExtRefcnt(hdl, cnt) =>
        if i :| Holds(s, i, hdl) {
          Unique(pinned, s);
          OwnerIs(pinned, s, i, hdl, cnt);
          RecountInv(pinned, s, i, cnt);
        }
      case Release(id) => CloseInv(pinned, s, id);
    }
  }

  lemma Unique(pinned: bool, s: State)
    requires Inv(pinned, s)
    ensures Unshared(s)
  {
  }

  // ------------------------------------------------------------------ whole runs

  ghost predicate Legal(pinned: bool, s: State, steps: seq<Step>)
    decreases |steps|
  {
    steps == [] || (Enabled(s, steps[0]) && Legal(pinned, Next(pinned, s, steps[0]), steps[1..]))
  }

  ghost function Run(pinned: bool, s: State, steps: seq<Step>): State
    requires Legal(pinned, s, steps)
    decreases |steps|
  {
    if steps == [] then s else Run(pinned, Next(pinned, s, steps[0]), steps[1..])
  }

  lemma {:induction false} RunInv(pinned: bool, s: State, steps: seq<Step>)
    requires Inv(pinned, s) && Legal(pinned, s, steps)
    ensures Inv(pinned, Run(pinned, s, steps))
    decreases |steps|
  {
    hide Inv, Enabled, Next;
    if steps != [] {
      StepInv(pinned, s, steps[0]);
      RunInv(pinned, Next(pinned, s, steps[0]), steps[1..]);
    }
  }

  /** For every run: Nexus never sees a bad call (no double free, no free of a locked block, no stray
      unlock); a block is allocated exactly while an area holds it; and an area whose file is closed is
      kept exactly for its outstanding external references. */
  lemma RunIsSound(pinned: bool, steps: seq<Step>)
    requires Legal(pinned, EMPTY, steps)
    ensures var s := Run(pinned, EMPTY, steps);
      && Replay(s.log).Heap? && Replay(s.log).locks.Keys == Live(s)
      && (forall id :: id in s.areas && id !in s.files ==> s.areas[id].block != 0 && s.areas[id].ext > 0)
  {
    assert Live(EMPTY) == {};
    RunInv(pinned, EMPTY, steps);
    var s := Run(pinned, EMPTY, steps);
    forall id | id in s.areas && id !in s.files
      ensures s.areas[id].block != 0 && s.areas[id].ext > 0
    {
      assert AreaOk(pinned, s, id);
    }
  }

  /** An area that keeps its block keeps it allocated; one that goes takes it along. */
  lemma LiveWhile(s: State, t: State, id: nat)
    requires Unshared(s) && id in s.areas && s.areas[id].block != 0
    requires forall j :: j in t.areas ==> j in s.areas && t.areas[j].block == s.areas[j].block
    ensures s.areas[id].block in Live(t) <==> id in t.areas
  {
    if id in t.areas { LiveHas(t, id); }
  }

  /** A block is freed exactly by the step after which its file is closed and its external count is
      zero. */
  lemma FreedExactly(pinned: bool, s: State, step: Step, id: nat)
    requires Inv(pinned, s) && Enabled(s, step) && id in s.areas && s.areas[id].block != 0
    ensures s.areas[id].block !in Live(Next(pinned, s, step)) <==>
        || (step == Release(id) && s.areas[id].ext == 0)
        || (step == ExtRefcnt(s.areas[id].block, Rem) && id !in s.files && s.areas[id].ext == 1)
  {
    hide NexusAgrees, Live, FreeCalls, Replay, Recount, Close, Unshared;
    Unique(pinned, s);
    var t := Next(pinned, s, step);
    assert AreaOk(pinned, s, id) && Holds(s, id, s.areas[id].block);
    match step {
      case ExtRefcnt(hdl, cnt) =>
        if i :| Holds(s, i, hdl) {
          OwnerIs(pinned, s, i, hdl, cnt);
          RecountFrees(pinned, s, i, cnt, id);
        } else {
          LiveHas(s, id);
        }
      case Release(i) => CloseFrees(pinned, s, i, id);
      case _ => LiveHas(t, id);
    }
  }

  lemma RecountFrees(pinned: bool, s: State, i: nat, cnt: Count, id: nat)
    requires Inv(pinned, s) && i in s.areas && s.areas[i].block != 0 && id in s.areas && s.areas[id].block != 0
    ensures s.areas[id].block !in Live(Recount(pinned, s, i, cnt)) <==>
      i == id && cnt.Rem? && id !in s.files && s.areas[id].ext == 1
  {
    hide NexusAgrees, Live, FreeCalls, Replay;
    assert AreaOk(pinned, s, i);
    LiveWhile(s, Recount(pinned, s, i, cnt), id);
  }

  lemma CloseFrees(pinned: bool, s: State, i: nat, id: nat)
    requires Inv(pinned, s) && i in s.areas && i in s.files && id in s.areas && s.areas[id].block != 0
    ensures s.areas[id].block !in Live(Close(pinned, s, i)) <==> i == id && s.areas[id].ext == 0
  {
    hide NexusAgrees, Live, FreeCalls, Replay;
    assert AreaOk(pinned, s, i);
    LiveWhile(s, Close(pinned, s, i), id);
  }

  // ------------------------------------------------------------------ the requests alone

  /** What one request does to the number of external references to a block: an allocation starts the
      count, an addition raises it, and a removal lowers it but not below zero. */
  function CountStep(n: nat, step: Step, hdl: nat): nat {
    if step.GetMem? && step.handle == hdl then 0
    else if step == ExtRefcnt(hdl, Add) then n + 1
    else if step == ExtRefcnt(hdl, Rem) && n > 0 then n - 1
    else n
  }

  /** The references to a block after some requests. */
  function CountAfter(n: nat, steps: seq<Step>, hdl: nat): nat
    decreases |steps|
  {
    if steps == [] then n else CountAfter(CountStep(n, steps[0], hdl), steps[1..], hdl)
  }

  function OpenStep(open: bool, step: Step, id: nat): bool {
    if step == Open(id) then true else if step == Release(id) then false else open
  }

  /** Whether a file is open after some requests. */
  function OpenAfter(open: bool, steps: seq<Step>, id: nat): bool
    decreases |steps|
  {
    if steps == [] then open else OpenAfter(OpenStep(open, steps[0], id), steps[1..], id)
  }

  /** The area that holds the block, if any, counts `n` references. */
  ghost predicate Counts(s: State, hdl: nat, n: nat) {
    forall id :: Holds(s, id, hdl) ==> s.areas[id].ext == n
  }

  lemma MapCounts(pinned: bool, s: State, id: nat, handle: nat, address: nat, hdl: nat, n: nat)
    requires Inv(pinned, s) && Enabled(s, GetMem(id, handle, address)) && Counts(s, hdl, n)
    ensures Counts(Map(pinned, s, id, handle, address), hdl, if handle == hdl then 0 else n)
  {
    hide NexusAgrees, Live, Replay, Unshared;
    assert AreaOk(pinned, s, id);
    forall i | Holds(s, i, handle)
      ensures false
    {
      LiveHas(s, i);
    }
    var t := Map(pinned, s, id, handle, address);
    forall i | Holds(t, i, hdl)
      ensures t.areas[i].ext == if handle == hdl then 0 else n
    {
      if i != id || t == s { assert Holds(s, i, hdl); }
    }
  }

  lemma RecountCounts(pinned: bool, s: State, i: nat, h: nat, cnt: Count, hdl: nat, n: nat)
    requires Inv(pinned, s) && Holds(s, i, h) && Counts(s, hdl, n)
    ensures Counts(Recount(pinned, s, i, cnt), hdl, CountStep(n, ExtRefcnt(h, cnt), hdl))
  {
    hide NexusAgrees, Live, Replay, FreeCalls, Unshared;
    Unique(pinned, s);
    assert AreaOk(pinned, s, i);
    var t := Recount(pinned, s, i, cnt);
    forall j | Holds(t, j, hdl)
      ensures t.areas[j].ext == CountStep(n, ExtRefcnt(h, cnt), hdl)
    {
      assert Holds(s, j, hdl);
      if h == hdl { SameHolder(s, i, j, hdl); }
    }
  }

  lemma SameHolder(s: State, i: nat, j: nat, hdl: nat)
    requires Unshared(s) && Holds(s, i, hdl) && Holds(s, j, hdl)
    ensures i == j
  {
  }

  lemma CloseCounts(pinned: bool, s: State, id: nat, hdl: nat, n: nat)
    requires id in s.areas && Counts(s, hdl, n)
    ensures Counts(Close(pinned, s, id), hdl, n)
  {
    hide FreeCalls;
    var t := Close(pinned, s, id);
    forall j | Holds(t, j, hdl)
      ensures t.areas[j].ext == n
    {
      assert Holds(s, j, hdl);
    }
  }

  lemma StepCounts(pinned: bool, s: State, step: Step, hdl: nat, n: nat)
    requires Inv(pinned, s) && Enabled(s, step) && Counts(s, hdl, n)
    ensures Counts(Next(pinned, s, step), hdl, CountStep(n, step, hdl))
  {
    hide Inv, Map, Recount, Close;
    var t := Next(pinned, s, step);
    match step {
      case Open(id) =>
        forall j | Holds(t, j, hdl)
          ensures t.areas[j].ext == n
        {
          assert Holds(s, j, hdl);
        }
      case SetSize(id, _, _, _) =>
        forall j | Holds(t, j, hdl)
          ensures t.areas[j].ext == n
        {
          assert Holds(s, j, hdl);
        }
      case GetMem(id, handle, address) => MapCounts(pinned, s, id, handle, address, hdl, n);
      case ExtRefcnt(h, cnt) =>
        if i :| Holds(s, i, h) {
          Unique(pinned, s);
          OwnerIs(pinned, s, i, h, cnt);
          RecountCounts(pinned, s, i, h, cnt, hdl, n);
        }
      case Release(id) => CloseCounts(pinned, s, id, hdl, n);
    }
  }

  /** For every run the count of a held block is that of the requests for it since its allocation. */
  lemma {:induction false} RunCounts(pinned: bool, s: State, steps: seq<Step>, hdl: nat, n: nat)
    requires Inv(pinned, s) && Legal(pinned, s, steps) && Counts(s, hdl, n)
    ensures Counts(Run(pinned, s, steps), hdl, CountAfter(n, steps, hdl))
    decreases |steps|
  {
    hide Inv, Enabled, Next, Counts, CountStep;
    if steps != [] {
      StepInv(pinned, s, steps[0]);
      StepCounts(pinned, s, steps[0], hdl, n);
      RunCounts(pinned, Next(pinned, s, steps[0]), steps[1..], hdl, CountStep(n, steps[0], hdl));
    }
  }

  lemma StepOpens(pinned: bool, s: State, step: Step, id: nat)
    requires Enabled(s, step)
    ensures id in Next(pinned, s, step).files <==> OpenStep(id in s.files, step, id)
  {
    hide Live, FreeCalls;
  }

  lemma {:induction false} RunOpens(pinned: bool, s: State, steps: seq<Step>, id: nat)
    requires Legal(pinned, s, steps)
    ensures id in Run(pinned, s, steps).files <==> OpenAfter(id in s.files, steps, id)
    decreases |steps|
  {
    hide Enabled, Next, OpenStep;
    if steps != [] {
      StepOpens(pinned, s, steps[0], id);
      RunOpens(pinned, Next(pinned, s, steps[0]), steps[1..], id);
    }
  }

  /** When a block is freed, in terms of the requests made: by the release of its file if as many external
      references were removed as added since its allocation, or by the removal of the last one after that
      release; and by nothing else. */
  lemma FreedByHistory(pinned: bool, steps: seq<Step>, step: Step, id: nat, hdl: nat)
    requires Legal(pinned, EMPTY, steps) && Enabled(Run(pinned, EMPTY, steps), step)
    requires Holds(Run(pinned, EMPTY, steps), id, hdl)
    ensures hdl !in Live(Next(pinned, Run(pinned, EMPTY, steps), step)) <==>
      || (step == Release(id) && CountAfter(0, steps, hdl) == 0)
      || (step == ExtRefcnt(hdl, Rem) && !OpenAfter(false, steps, id) && CountAfter(0, steps, hdl) == 1)
  {
    hide Run, Legal, Next, Live, Enabled, CountAfter, OpenAfter;
    EmptyInv(pinned);
    RunInv(pinned, EMPTY, steps);
    RunCounts(pinned, EMPTY, steps, hdl, 0);
    RunOpens(pinned, EMPTY, steps, id);
    FreedExactly(pinned, Run(pinned, EMPTY, steps), step, id);
  }

  lemma EmptyInv(pinned: bool)
    ensures Inv(pinned, EMPTY)
  {
    assert Live(EMPTY) == {};
  }

  /** What a size that was set leads to: memory is allocated for a size other than zero, and locked unless
      the area is movable or blocks are not pinned. */
  lemma SizeThenMemory(pinned: bool, s: State, id: nat, size: nat, align: nat, movable: bool, handle: nat, address: nat)
    requires id in s.files && id in s.areas && s.areas[id].addr == 0 && s.areas[id].block == 0
    requires Enabled(s, GetMem(id, handle, address))
    ensures var s1 := Next(pinned, s, SetSize(id, size, align, movable));
      Enabled(s1, GetMem(id, handle, address)) &&
      var t := Next(pinned, s1, GetMem(id, handle, address));
      && t.log == s.log + (if size == 0 || handle == 0 then []
                           else if movable || !pinned then [Alloc(handle)]
                           else [Alloc(handle), Lock(handle)])
      && t.areas[id].block == (if size == 0 then 0 else handle)
  {
    var s1 := Next(pinned, s, SetSize(id, size, align, movable));
    SizeLive(s, s1);
    assert s.log + [] == s.log;
  }

  lemma SizeLive(s: State, t: State)
    requires t.areas.Keys == s.areas.Keys && forall i :: i in s.areas ==> t.areas[i].block == s.areas[i].block
    ensures Live(t) == Live(s)
  {
    assert forall i :: i in t.areas ==> i in s.areas;
  }

  // ------------------------------------------------------------------ the driver's code

  class Device {
    const pinned: bool
    /** The block list, in order, and the areas it links. */
    var list: seq<nat>
    var areas: map<nat, Area>
    ghost var files: set<nat>
    ghost var log: seq<Event>

    ghost function Now(): State
      reads this
    {
      State(areas, files, log)
    }

    ghost predicate Valid()
      reads this
    {
      Inv(pinned, Now()) && Linked(list, areas.Keys)
    }

    constructor (pinned: bool)
      ensures Valid() && this.pinned == pinned && Now() == EMPTY
    {
      this.pinned := pinned;
      list, areas, files, log := [], map[], {}, [];
    }

    method OpenFile(id: nat)
      requires Valid() && Enabled(Now(), Open(id))
      modifies this
      ensures Valid() && Now() == Next(pinned, old(Now()), Open(id))
    {
      hide Inv;
      StepInv(pinned, Now(), Open(id));
      areas := areas[id := Area(0, 0, 0, 0, false, 0, false)];
      files := files + {id};
      list := [id] + list;
    }

    method SetAreaSize(id: nat, size: nat, align: nat, movable: bool) returns (ok: bool)
      requires Valid() && Enabled(Now(), SetSize(id, size, align, movable))
      modifies this
      ensures Valid() && Now() == Next(pinned, old(Now()), SetSize(id, size, align, movable))
      ensures ok == (old(areas)[id].addr == 0)
    {
      hide Inv;
      StepInv(pinned, Now(), SetSize(id, size, align, movable));
      ok := areas[id].addr == 0;
      if ok {
        areas := areas[id := areas[id].(size := size, align := align, movable := movable)];
      }
    }

    method MapArea(id: nat, handle: nat, address: nat)
      requires Valid() && Enabled(Now(), GetMem(id, handle, address))
      modifies this
      ensures Valid() && Now() == Next(pinned, old(Now()), GetMem(id, handle, address))
    {
      hide Inv;
      StepInv(pinned, Now(), GetMem(id, handle, address));
      var a := areas[id];
      if a.size == 0 || a.block != 0 || handle == 0 {
        return;
      }
      log := log + [Alloc(handle)];
      if a.movable {
        a := a.(addr := 0);
      } else if pinned {
        log := log + [Lock(handle)];
        a := a.(addr := address);
      } else {
        a := a.(addr := 0);
      }
      areas := areas[id := a.(block := handle)];
      assert old(log) + [Alloc(handle)] + [Lock(handle)] == old(log) + [Alloc(handle), Lock(handle)];
    }

    /** Free the block of an area, and unlock it first if it was locked. */
    method FreeBlock(id: nat)
      requires id in areas
      modifies this`areas, this`log
      ensures log == old(log) + FreeCalls(pinned, old(areas)[id])
      ensures areas.Keys == old(areas).Keys && forall i :: i in areas && i != id ==> areas[i] == old(areas)[i]
    {
      var a := areas[id];
      if a.block != 0 {
        if !a.movable && pinned && a.addr != 0 {
          log := log + [Unlock(a.block)];
          a := a.(addr := 0);
        }
        log := log + [Free(a.block)];
        areas := areas[id := a.(block := 0)];
      }
    }

    /** Take an area off the list after freeing its block. */
    method DropArea(id: nat)
      requires id in areas && Linked(list, areas.Keys)
      modifies this`areas, this`log, this`list
      ensures Now() == Drop(pinned, old(Now()), id)
      ensures Linked(list, areas.Keys)
    {
      FreeBlock(id);
      ghost var before := list;
      list := Without(list, id);
      WithoutMembers(before, id);
      areas := areas - {id};
      assert areas == old(areas) - {id};
    }

    method ReleaseFile(id: nat)
      requires Valid() && Enabled(Now(), Release(id))
      modifies this
      ensures Valid() && Now() == Next(pinned, old(Now()), Release(id))
    {
      hide Inv;
      StepInv(pinned, Now(), Release(id));
      files := files - {id};
      var a := areas[id];
      if a.block != 0 && a.ext > 0 {
        areas := areas[id := a.(deferred := true)];
      } else {
        DropArea(id);
      }
    }

    /** Scan the list for the block; the area that holds it is recounted, and dropped when its deferred
        free has become due. */
    method ProcessExtRefcnt(hdl: nat, cnt: Count) returns (ok: bool)
      requires Valid()
      modifies this
      ensures Valid() && Now() == Next(pinned, old(Now()), ExtRefcnt(hdl, cnt))
      ensures ok == (!cnt.Other? && exists id :: Holds(old(Now()), id, hdl))
    {
      hide Inv, AreaOk, Live, FreeCalls, Drop;
      ghost var s := Now();
      StepInv(pinned, s, ExtRefcnt(hdl, cnt));
      Unique(pinned, s);
      var marked, due, found := false, false, 0;
      var i := 0;
      while i < |list|
        invariant 0 <= i <= |list| && list == old(list)
        invariant !marked ==> Now() == s && !due && forall j :: 0 <= j < i ==> !Holds(s, list[j], hdl)
        invariant marked ==> Holds(s, found, hdl) && !cnt.Other?
        invariant marked ==> Now() == s.(areas := s.areas[found := Counted(s.areas[found], cnt)])
        invariant marked ==> due == (areas[found].ext == 0 && areas[found].deferred)
        invariant marked ==> exists m :: 0 <= m < i && list[m] == found
        invariant Linked(list, areas.Keys)
      {
        var id := list[i];
        if areas[id].block != 0 && areas[id].block == hdl {
          assert Holds(s, id, hdl);
          if cnt.Other? {
            OwnerIs(pinned, s, id, hdl, cnt);
            return false;
          }
          assert !marked;
          marked, found := true, id;
          var ext := if cnt.Add? then areas[id].ext + 1 else areas[id].ext - 1;
          if ext < 0 {
            ext := 0;
          }
          areas := areas[id := areas[id].(ext := ext)];
          due := ext == 0 && areas[id].deferred;
        }
        i := i + 1;
      }
      if marked {
        OwnerIs(pinned, s, found, hdl, cnt);
        if due {
          DropArea(found);
        }
      }
      ok := marked;
    }
  }

  /** The list links every area once. */
  ghost predicate Linked(list: seq<nat>, ids: set<nat>) {
    && (forall id :: id in list <==> id in ids)
    && (forall i, j :: 0 <= i < j < |list| ==> list[i] != list[j])
  }
}

/** Wake-up interrupts of the power-management driver: requests enable or disable wake-up sources by a
    mask, and every interrupt must be switched on and off in balance. */
module WakeIrqs {
  /** A 32-bit mask, as the set of its bits. */
  type Mask = m: set<nat> | forall b :: b in m ==> b < 32 witness {}

  /** One `irq_set_irq_wake` on the interrupt with this index. */
  datatype Call = Call(irq: nat, on: bool)

  /** Wake-on calls minus wake-off calls of one interrupt. */
  function Balance(calls: seq<Call>, irq: nat): int {
    if calls == [] then 0
    else
      var c := calls[|calls| - 1];
      Balance(calls[..|calls| - 1], irq) + (if c.irq != irq then 0 else if c.on then 1 else -1)
  }

  lemma BalanceSnoc(calls: seq<Call>, c: Call, irq: nat)
    ensures Balance(calls + [c], irq) == Balance(calls, irq) + (if c.irq != irq then 0 else if c.on then 1 else -1)
  {
    assert (calls + [c])[..|calls|] == calls;
  }

  /** Every interrupt's mask is one wake-up bit, or empty where no source matched. */
  predicate MasksOk(masks: seq<Mask>) {
    forall i :: 0 <= i < |masks| ==> |masks[i]| <= 1
  }

  /** The wake-ups this module owns. */
  function Owned(masks: seq<Mask>): set<nat> {
    set i, b | 0 <= i < |masks| && b in masks[i] :: b
  }

  lemma OwnedHas(masks: seq<Mask>, i: nat, b: nat)
    requires i < |masks| && b in masks[i]
    ensures b in Owned(masks)
  {
  }

  lemma SingleBit(m: Mask, b: nat)
    requires |m| <= 1 && b in m
    ensures m == {b}
  {
    assert |m - {b}| == 0;
  }

  /** Each interrupt is switched on once exactly while its bit is enabled. */
  ghost predicate Balanced(masks: seq<Mask>, enabled: set<nat>, calls: seq<Call>) {
    forall i :: 0 <= i < |masks| ==> Balance(calls, i) == if masks[i] * enabled != {} then 1 else 0
  }

  /** The enabled mask after switching some bits. */
  function Switched(enabled: set<nat>, bits: set<nat>, on: bool): set<nat> {
    if on then enabled + bits else enabled - bits
  }

  function Requested(requests: seq<(Mask, bool)>, enabled: set<nat>, owned: set<nat>): set<nat> {
    if requests == [] then enabled
    else
      var last := requests[|requests| - 1];
      Switched(Requested(requests[..|requests| - 1], enabled, owned), last.0 * owned, last.1)
  }

  lemma SwitchedTwice(enabled: set<nat>, a: set<nat>, b: set<nat>, owned: set<nat>, on: bool)
    ensures Switched(Switched(enabled, a * owned, on), b * owned, on) == Switched(enabled, (a + b) * owned, on)
  {
  }

  lemma SwitchedNone(enabled: set<nat>, owned: set<nat>, on: bool)
    ensures Switched(enabled, {} * owned, on) == enabled
  {
    assert {} * owned == {};
  }

  class Driver {
    const masks: seq<Mask>
    const present: set<nat>
    var enabled: set<nat>
    /** The calls made to the interrupt layer. */
    var calls: seq<Call>

    ghost predicate Valid()
      reads this
    {
      && MasksOk(masks) && |masks| <= 32 && present == Owned(masks)
      && enabled <= Owned(masks)
      && Balanced(masks, enabled, calls)
    }

    constructor (masks: seq<Mask>)
      requires MasksOk(masks) && |masks| <= 32
      ensures Valid() && this.masks == masks && enabled == {} && calls == []
    {
      this.masks := masks;
      present := Owned(masks);
      enabled, calls := {}, [];
    }

    /** `droid_pm_wakeup_set_enabled` for one bit. */
    method SetOne(bit: nat, on: bool)
      requires Valid() && bit < 32
      modifies this
      ensures Valid()
      ensures enabled == Switched(old(enabled), {bit} * Owned(masks), on)
    {
      hide Owned, Balance, Balanced, MasksOk, Moved, Switched, Toggled, Found;
      if present == {} {
        SwitchedNothing(enabled, bit, Owned(masks), on);
        return;
      }
      if (on && bit in enabled) || (!on && bit !in enabled) {
        SwitchedAlready(enabled, bit, Owned(masks), on);
        return;
      }
      ghost var before := enabled;
      ghost var first := calls;
      var i := 0;
      MovedNone(masks, before, bit, on, calls);
      while i < |masks|
        invariant 0 <= i <= |masks|
        invariant enabled == Toggled(masks, before, bit, on, i)
        invariant Moved(masks, bit, on, i, first, calls)
      {
        ToggledStep(masks, before, bit, on, i);
        MovedStep(masks, bit, on, i, first, calls);
        if masks[i] == {bit} {
          calls := calls + [Call(i, on)];
          enabled := if on then enabled + {bit} else enabled - {bit};
        }
        i := i + 1;
      }
      Rebalanced(masks, before, bit, on, first, calls);
    }

    /** `droid_pm_wakeups_set_enabled`: the bits of the mask, lowest first. */
    method SetMask(mask: Mask, on: bool)
      requires Valid() && mask != {}
      modifies this
      ensures Valid()
      ensures enabled == Switched(old(enabled), mask * Owned(masks), on)
    {
      hide Driver.Valid, Owned, Switched;
      var rest: Mask := mask;
      ghost var done: set<nat> := {};
      SwitchedNone(enabled, Owned(masks), on);
      var more := true;
      while more
        invariant Valid() && done + rest == mask && done !! rest
        invariant more ==> rest != {}
        invariant !more ==> rest == {}
        invariant enabled == Switched(old(enabled), done * Owned(masks), on)
        decreases |rest|, more
      {
        var bit := LowestBit(rest);
        SwitchedTwice(old(enabled), done, {bit}, Owned(masks), on);
        SetOne(bit, on);
        rest := rest - {bit};
        done := done + {bit};
        more := rest != {};
      }
      assert done == mask;
    }

    /** Any sequence of requests with non-zero masks. */
    method SetAll(requests: seq<(Mask, bool)>)
      requires Valid() && forall r :: r in requests ==> r.0 != {}
      modifies this
      ensures Valid() && enabled == Requested(requests, old(enabled), Owned(masks))
    {
      hide Driver.Valid, Owned, Switched;
      var i := 0;
      assert requests[..0] == [];
      while i < |requests|
        invariant 0 <= i <= |requests| && Valid()
        invariant enabled == Requested(requests[..i], old(enabled), Owned(masks))
      {
        assert requests[i] in requests;
        assert requests[..i + 1][..i] == requests[..i];
        SetMask(requests[i].0, requests[i].1);
        i := i + 1;
      }
      assert requests[..i] == requests;
    }

    /** The wake-up clean-up of `droid_pm_remove`: afterwards every interrupt is switched off again. */
    method Remove()
      requires Valid()
      modifies this`calls
      ensures forall i :: 0 <= i < |masks| ==> Balance(calls, i) == 0
    {
      hide Balance, Owned;
      var i := 0;
      while i < |masks|
        invariant 0 <= i <= |masks|
        invariant forall k :: 0 <= k < |masks| ==>
          Balance(calls, k) == if k < i then 0 else if masks[k] * enabled != {} then 1 else 0
      {
        if masks[i] != {} {
          if masks[i] * enabled != {} {
            forall k | 0 <= k < |masks| { BalanceSnoc(calls, Call(i, false), k); }
            calls := calls + [Call(i, false)];
          }
        }
        i := i + 1;
      }
    }
  }

  /** What the requests come to for one bit: the last request that names it decides, if the module owns the
      bit at all. */
  function LastSays(requests: seq<(Mask, bool)>, bit: nat, before: bool): bool {
    if requests == [] then before
    else
      var r := requests[|requests| - 1];
      if bit in r.0 then r.1 else LastSays(requests[..|requests| - 1], bit, before)
  }

  lemma {:induction false} LastRequestDecides(requests: seq<(Mask, bool)>, enabled: set<nat>, owned: set<nat>, bit: nat)
    ensures bit in Requested(requests, enabled, owned) <==>
      if bit in owned then LastSays(requests, bit, bit in enabled) else bit in enabled
  {
    if requests != [] {
      LastRequestDecides(requests[..|requests| - 1], enabled, owned, bit);
    }
  }

  /** `ffs(mask) - 1`. */
  method LowestBit(mask: Mask) returns (bit: nat)
    requires mask != {}
    ensures bit in mask && forall b :: b in mask ==> bit <= b
  {
    ghost var w :| w in mask;
    bit := 0;
    while bit !in mask
      invariant bit <= w && forall b :: b in mask ==> bit <= b
      decreases w - bit
    {
      bit := bit + 1;
    }
  }

  /** Some interrupt before `n` has exactly this bit. */
  ghost predicate Found(masks: seq<Mask>, bit: nat, n: nat)
    requires n <= |masks|
  {
    exists k :: 0 <= k < n && masks[k] == {bit}
  }

  /** Every interrupt of the bit before `n` was switched once, and no other. */
  ghost predicate Moved(masks: seq<Mask>, bit: nat, on: bool, n: nat, first: seq<Call>, calls: seq<Call>) {
    forall k :: 0 <= k < |masks| ==>
      Balance(calls, k) == Balance(first, k) + (if k < n && masks[k] == {bit} then (if on then 1 else -1) else 0)
  }

  /** The enabled bits after the first `n` interrupts. */
  ghost function Toggled(masks: seq<Mask>, before: set<nat>, bit: nat, on: bool, n: nat): set<nat>
    requires n <= |masks|
  {
    if Found(masks, bit, n) then Switched(before, {bit}, on) else before
  }

  lemma ToggledStep(masks: seq<Mask>, before: set<nat>, bit: nat, on: bool, n: nat)
    requires n < |masks|
    ensures var now := Toggled(masks, before, bit, on, n);
      Toggled(masks, before, bit, on, n + 1)
      == if masks[n] == {bit} then (if on then now + {bit} else now - {bit}) else now
  {
    assert Found(masks, bit, n + 1) <==> Found(masks, bit, n) || masks[n] == {bit};
  }

  lemma SwitchedNothing(enabled: set<nat>, bit: nat, owned: set<nat>, on: bool)
    requires owned == {}
    ensures enabled == Switched(enabled, {bit} * owned, on)
  {
    assert {bit} * owned == {};
  }

  lemma SwitchedAlready(enabled: set<nat>, bit: nat, owned: set<nat>, on: bool)
    requires on == (bit in enabled)
    ensures enabled == Switched(enabled, {bit} * owned, on)
  {
    assert {bit} * owned <= {bit};
  }

  lemma MovedNone(masks: seq<Mask>, before: set<nat>, bit: nat, on: bool, calls: seq<Call>)
    ensures Moved(masks, bit, on, 0, calls, calls) && Toggled(masks, before, bit, on, 0) == before
  {
  }

  lemma MovedStep(masks: seq<Mask>, bit: nat, on: bool, n: nat, first: seq<Call>, calls: seq<Call>)
    requires n < |masks| && Moved(masks, bit, on, n, first, calls)
    ensures Moved(masks, bit, on, n + 1, first, if masks[n] == {bit} then calls + [Call(n, on)] else calls)
  {
    hide Balance;
    forall k | 0 <= k < |masks| { BalanceSnoc(calls, Call(n, on), k); }
  }

  /** Switching every interrupt of one bit keeps the balance. */
  lemma Rebalanced(masks: seq<Mask>, before: set<nat>, bit: nat, on: bool, first: seq<Call>, calls: seq<Call>)
    requires MasksOk(masks) && bit < 32 && before <= Owned(masks) && Balanced(masks, before, first)
    requires on != (bit in before) && Moved(masks, bit, on, |masks|, first, calls)
    ensures var after := Toggled(masks, before, bit, on, |masks|);
      && Balanced(masks, after, calls) && after <= Owned(masks)
      && after == Switched(before, {bit} * Owned(masks), on)
  {
    hide Owned, Balance, Found;
    var after := Toggled(masks, before, bit, on, |masks|);
    OwnedBit(masks, bit);
    if bit in Owned(masks) {
      assert {bit} * Owned(masks) == {bit};
    } else {
      assert {bit} * Owned(masks) == {};
    }
    forall k | 0 <= k < |masks|
      ensures Balance(calls, k) == if masks[k] * after != {} then 1 else 0
    {
      if bit in masks[k] {
        SingleBit(masks[k], bit);
        OwnedHas(masks, k, bit);
        assert {bit} * after != {} <==> bit in after;
        assert {bit} * before != {} <==> bit in before;
      } else {
        assert masks[k] * after == masks[k] * before;
      }
    }
  }

  /** A bit is owned exactly if it is the mask of some interrupt. */
  lemma OwnedBit(masks: seq<Mask>, bit: nat)
    requires MasksOk(masks) && bit < 32
    ensures bit in Owned(masks) <==> Found(masks, bit, |masks|)
  {
    if bit in Owned(masks) {
      var k :| 0 <= k < |masks| && bit in masks[k];
      SingleBit(masks[k], bit);
    }
    if k :| 0 <= k < |masks| && masks[k] == {bit} {
      OwnedHas(masks, k, bit);
    }
  }
}

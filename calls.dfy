/**
 The calls a Greybus module issues to its collaborators, and the exact call
 sequences that module creation, registration, deregistration and release
 issue. Interface calls are identified by the slot of the module's interface
 array they act on. The lemmas state what those sequences guarantee: which
 calls happen, how often, and in what order.
 */
module ModuleCalls {

  /** One call into the interface layer or the device core. */
  datatype Event =
    | InterfaceCreate(slot: nat, id: nat)        // gb_interface_create for a slot, with the id it is given
    | InterfacePut(slot: nat)                    // gb_interface_put
    | InterfaceActivate(slot: nat)               // gb_interface_activate
    | InterfaceAdd(slot: nat)                    // gb_interface_add
    | InterfaceEnable(slot: nat)                 // gb_interface_enable
    | InterfaceDeactivate(slot: nat)             // gb_interface_deactivate
    | InterfaceDisable(slot: nat, disconnected: bool)  // gb_interface_disable, with the flag it sees
    | InterfaceDel(slot: nat)                    // gb_interface_del
    | DeviceAdd                                  // device_add on the module
    | DeviceDel                                  // device_del on the module
    | PutDevice                                  // put_device on the module
  {
    /** True for the calls that act on one interface. */
    predicate OnInterface() {
      !(DeviceAdd? || DeviceDel? || PutDevice?)
    }
  }

  /** What the interface layer answers when one interface is registered. */
  datatype Outcome = Outcome(activateOk: bool, addOk: bool, enableOk: bool)

  // ---------------------------------------------------------------------
  // Creation

  /** The first slot whose interface creation fails, or |ok| when none does. */
  function FirstFailure(ok: seq<bool>): (k: nat)
    ensures k <= |ok|
    ensures forall j :: 0 <= j < k ==> ok[j]
    ensures k < |ok| ==> !ok[k]
  {
    if ok == [] || !ok[0] then 0 else 1 + FirstFailure(ok[1..])
  }

  /** The creation calls for slots 0 .. k-1, each with id moduleId + slot. */
  function CreateCalls(moduleId: nat, k: nat): seq<Event>
  {
    if k == 0 then [] else CreateCalls(moduleId, k - 1) + [InterfaceCreate(k - 1, moduleId + k - 1)]
  }

  /** Interface puts for slots top, top-1, ..., bottom (empty when top < bottom). */
  function PutsDownTo(top: int, bottom: nat): seq<Event>
    decreases top - bottom
  {
    if top < bottom then [] else PutsDownTo(top, bottom + 1) + [InterfacePut(bottom)]
  }

  /**
   The rollback after creation failed at slot `failed`: the loop starts at
   failed - 1 and stops before slot 0, so slot 0 is never put.
   */
  function RollbackCalls(failed: nat): seq<Event>
  {
    PutsDownTo(failed - 1, 1)
  }

  /** Every call gb_module_create issues, for the given allocation and creation results. */
  function CreateLog(moduleId: nat, allocOk: bool, createOk: seq<bool>): seq<Event>
  {
    if !allocOk then []
    else
      var k := FirstFailure(createOk);
      if k == |createOk| then CreateCalls(moduleId, k)
      else FailureLog(moduleId, k)
  }

  /** The calls of a creation that fails at slot k: the attempts up to k, the rollback, the module put. */
  function FailureLog(moduleId: nat, k: nat): seq<Event>
  {
    CreateCalls(moduleId, k + 1) + RollbackCalls(k) + [PutDevice]
  }

  // ---------------------------------------------------------------------
  // Registration

  /** The calls gb_module_register_interface issues for the interface in slot i. */
  function RegisterCalls(i: nat, o: Outcome): seq<Event>
  {
    if !o.activateOk then [InterfaceActivate(i), InterfaceAdd(i)]
    else if !o.addOk then [InterfaceActivate(i), InterfaceAdd(i), InterfaceDeactivate(i)]
    else if !o.enableOk then [InterfaceActivate(i), InterfaceAdd(i), InterfaceEnable(i), InterfaceDeactivate(i)]
    else [InterfaceActivate(i), InterfaceAdd(i), InterfaceEnable(i)]
  }

  /** Registration of slots 0 .. k-1 in slot order, slot i answered by os[i]. */
  function RegisterUpTo(os: seq<Outcome>, k: nat): seq<Event>
    requires k <= |os|
  {
    if k == 0 then [] else RegisterUpTo(os, k - 1) + RegisterCalls(k - 1, os[k - 1])
  }

  /** Every call gb_module_add issues; a nonzero device_add result stops it. */
  function AddCalls(deviceAddResult: int, os: seq<Outcome>): seq<Event>
  {
    [DeviceAdd] + if deviceAddResult != 0 then [] else RegisterUpTo(os, |os|)
  }

  // ---------------------------------------------------------------------
  // Deregistration and release

  /** The calls gb_module_deregister_interface issues for slot i, whose disconnected flag is d. */
  function DeregisterCalls(i: nat, d: bool): seq<Event>
  {
    [InterfaceDisable(i, d), InterfaceDeactivate(i), InterfaceDel(i)]
  }

  /**
   Deregistration of slots 0 .. k-1 in slot order, where flags[i] is the
   disconnected flag of slot i beforehand and d the module's flag, which is
   copied onto every interface before it is disabled.
   */
  function DeregisterUpTo(flags: seq<bool>, d: bool, k: nat): seq<Event>
    requires k <= |flags|
  {
    if k == 0 then [] else DeregisterUpTo(flags, d, k - 1) + DeregisterCalls(k - 1, flags[k - 1] || d)
  }

  /** Every call gb_module_del issues. */
  function DelCalls(flags: seq<bool>, d: bool): seq<Event>
  {
    DeregisterUpTo(flags, d, |flags|) + [DeviceDel]
  }

  /** Interface puts for slots 0 .. k-1 in slot order. */
  function ReleaseCalls(k: nat): seq<Event>
  {
    if k == 0 then [] else ReleaseCalls(k - 1) + [InterfacePut(k - 1)]
  }

  /** Every call gb_module_put issues for a module with n interfaces. */
  function PutCalls(n: nat): seq<Event>
  {
    ReleaseCalls(n) + [PutDevice]
  }

  /** Appending is associative; stated once so that trace proofs need not rediscover it. */
  lemma AppendAssoc<T>(a: seq<T>, b: seq<T>, c: seq<T>)
    ensures (a + b) + c == a + (b + c)
  {
  }

  /** The number of times e occurs in t. */
  function Count(t: seq<Event>, e: Event): nat
  {
    if t == [] then 0 else Count(t[..|t| - 1], e) + if t[|t| - 1] == e then 1 else 0
  }

  /** Counting one more call at the end. */
  lemma CountSnoc(t: seq<Event>, x: Event, e: Event)
    ensures Count(t + [x], e) == Count(t, e) + if x == e then 1 else 0
  {
    assert (t + [x])[..|t + [x]| - 1] == t;
  }

  /** Counts add up over concatenation. */
  lemma {:induction false} CountAppend(a: seq<Event>, b: seq<Event>, e: Event)
    ensures Count(a + b, e) == Count(a, e) + Count(b, e)
  {
    if b == [] {
      assert a + b == a;
    } else {
      var c, x := b[..|b| - 1], b[|b| - 1];
      CountAppend(a, c, e);
      assert b == c + [x] && a + b == (a + c) + [x];
      CountSnoc(a + c, x, e);
      CountSnoc(c, x, e);
    }
  }

  /** A call occurs in t exactly when its count is positive. */
  lemma {:induction false} CountPositive(t: seq<Event>, e: Event)
    ensures Count(t, e) > 0 <==> e in t
  {
    if t != [] {
      var c, x := t[..|t| - 1], t[|t| - 1];
      CountPositive(c, e);
      assert t == c + [x];
    }
  }

  /** The count of a single call. */
  lemma CountOne(x: Event, e: Event)
    ensures Count([x], e) == if x == e then 1 else 0
  {
    CountSnoc([], x, e);
    assert [] + [x] == [x];
  }

  /** Interface calls appear in nondecreasing slot order. */
  predicate InSlotOrder(t: seq<Event>)
  {
    forall p, q :: 0 <= p < q < |t| && t[p].OnInterface() && t[q].OnInterface() ==> t[p].slot <= t[q].slot
  }

  // ---------------------------------------------------------------------
  // Lemmas: creation

  /** Creation visits slots in increasing order, slot s with id moduleId + s, and does nothing else. */
  lemma {:induction false} CreateCallsAt(moduleId: nat, k: nat)
    ensures |CreateCalls(moduleId, k)| == k
    ensures forall s :: 0 <= s < k ==> CreateCalls(moduleId, k)[s] == InterfaceCreate(s, moduleId + s)
    ensures forall e :: e in CreateCalls(moduleId, k) ==> e.InterfaceCreate?
  {
    if k > 0 {
      CreateCallsAt(moduleId, k - 1);
    }
  }

  /** The puts from top down to bottom come in decreasing slot order and are all interface puts. */
  lemma {:induction false} PutsDownToAt(top: int, bottom: nat)
    ensures |PutsDownTo(top, bottom)| == if top < bottom then 0 else top - bottom + 1
    ensures forall p :: 0 <= p < |PutsDownTo(top, bottom)| ==> PutsDownTo(top, bottom)[p] == InterfacePut(top - p)
    ensures forall e :: e in PutsDownTo(top, bottom) ==> e.InterfacePut?
    decreases top - bottom
  {
    if top >= bottom {
      PutsDownToAt(top, bottom + 1);
    }
  }

  /** The puts from top down to bottom put slot j exactly once when bottom <= j <= top, else never. */
  lemma {:induction false} PutsDownToCount(top: int, bottom: nat, j: nat)
    ensures Count(PutsDownTo(top, bottom), InterfacePut(j)) == if bottom <= j <= top then 1 else 0
    decreases top - bottom
  {
    if top < bottom {
      assert PutsDownTo(top, bottom) == [];
    } else {
      PutsDownToCount(top, bottom + 1, j);
      CountSnoc(PutsDownTo(top, bottom + 1), InterfacePut(bottom), InterfacePut(j));
    }
  }

  /**
   Rollback after a failure at slot `failed` puts slots failed-1 down to 1,
   each once, and never slot 0.
   */
  lemma RollbackReleases(failed: nat, j: nat)
    ensures Count(RollbackCalls(failed), InterfacePut(j)) == if 1 <= j < failed then 1 else 0
    ensures InterfacePut(0) !in RollbackCalls(failed)
    ensures forall e :: e in RollbackCalls(failed) ==> e.InterfacePut?
  {
    PutsDownToAt(failed - 1, 1);
    PutsDownToCount(failed - 1, 1, j);
    PutsDownToCount(failed - 1, 1, 0);
    CountPositive(RollbackCalls(failed), InterfacePut(0));
  }

  /** If allocation fails, gb_module_create issues no call at all. */
  lemma AllocFailureCallsNothing(moduleId: nat, createOk: seq<bool>)
    ensures CreateLog(moduleId, false, createOk) == []
  {
  }

  /**
   When every interface is created, creation issued exactly the creations for
   slots 0 .. n-1 in order, with ids moduleId + slot, and no put.
   */
  lemma CreateSuccessLog(moduleId: nat, createOk: seq<bool>)
    requires forall i :: 0 <= i < |createOk| ==> createOk[i]
    ensures |CreateLog(moduleId, true, createOk)| == |createOk|
    ensures forall s :: 0 <= s < |createOk| ==>
      CreateLog(moduleId, true, createOk)[s] == InterfaceCreate(s, moduleId + s)
  {
    CreateCallsAt(moduleId, |createOk|);
  }

  /**
   When creation fails at slot k: slots 0 .. k are attempted in order and no
   slot after k; then slots k-1 down to 1 are put in that order, once each,
   never slot 0; then the module is put exactly once, as the last call.
   */
  lemma CreateFailureLog(moduleId: nat, createOk: seq<bool>, j: nat)
    requires FirstFailure(createOk) < |createOk|
    ensures var k := FirstFailure(createOk);
      var log := CreateLog(moduleId, true, createOk);
      && |log| == (if k == 0 then 2 else 2 * k + 1)
      && (forall s :: 0 <= s <= k ==> log[s] == InterfaceCreate(s, moduleId + s))
      && (forall q :: k + 1 <= q < 2 * k ==> log[q] == InterfacePut(2 * k - q))
      && Count(log, InterfacePut(j)) == (if 1 <= j < k then 1 else 0)
      && Count(log, PutDevice) == 1
      && log[|log| - 1] == PutDevice
  {
    var k := FirstFailure(createOk);
    assert CreateLog(moduleId, true, createOk) == FailureLog(moduleId, k);
    FailureLogFacts(moduleId, k, j);
  }

  /** The failure log at slot k, with k given outright. */
  lemma FailureLogFacts(moduleId: nat, k: nat, j: nat)
    ensures var log := FailureLog(moduleId, k);
      && |log| == (if k == 0 then 2 else 2 * k + 1)
      && (forall s :: 0 <= s <= k ==> log[s] == InterfaceCreate(s, moduleId + s))
      && (forall q :: k + 1 <= q < 2 * k ==> log[q] == InterfacePut(2 * k - q))
      && Count(log, InterfacePut(j)) == (if 1 <= j < k then 1 else 0)
      && Count(log, PutDevice) == 1
      && log[|log| - 1] == PutDevice
  {
    var creates, rollback := CreateCalls(moduleId, k + 1), RollbackCalls(k);
    CreateCallsAt(moduleId, k + 1);
    RollbackReleases(k, j);
    FailureCounts(creates, rollback, j);
    FailureLogShape(moduleId, k);
  }

  /** The failure log at slot k has 2k+1 calls (2 when k is 0), and its rollback part puts slots k-1 down to 1. */
  lemma FailureLogShape(moduleId: nat, k: nat)
    ensures |FailureLog(moduleId, k)| == if k == 0 then 2 else 2 * k + 1
    ensures forall q :: k + 1 <= q < 2 * k ==> FailureLog(moduleId, k)[q] == InterfacePut(2 * k - q)
  {
    var creates, rollback := CreateCalls(moduleId, k + 1), RollbackCalls(k);
    CreateCallsAt(moduleId, k + 1);
    PutsDownToAt(k - 1, 1);
    assert FailureLog(moduleId, k) == creates + rollback + [PutDevice];
    forall q | k + 1 <= q < 2 * k
      ensures FailureLog(moduleId, k)[q] == InterfacePut(2 * k - q)
    {
      assert (creates + rollback + [PutDevice])[q] == rollback[q - (k + 1)];
    }
  }

  /** The counts of slot j's put and of the module put in creations, then a rollback, then the module put. */
  lemma FailureCounts(creates: seq<Event>, rollback: seq<Event>, j: nat)
    requires forall e :: e in creates ==> e.InterfaceCreate?
    requires forall e :: e in rollback ==> e.InterfacePut?
    ensures Count(creates + rollback + [PutDevice], InterfacePut(j)) == Count(rollback, InterfacePut(j))
    ensures Count(creates + rollback + [PutDevice], PutDevice) == 1
  {
    CountAppend(creates + rollback, [PutDevice], InterfacePut(j));
    CountAppend(creates + rollback, [PutDevice], PutDevice);
    CountAppend(creates, rollback, InterfacePut(j));
    CountAppend(creates, rollback, PutDevice);
    CountOne(PutDevice, InterfacePut(j));
    CountOne(PutDevice, PutDevice);
    CountPositive(creates, InterfacePut(j));
    CountPositive(creates, PutDevice);
    CountPositive(rollback, PutDevice);
  }

  /**
   The rollback leak: when creation fails at slot 1 or later, the interface
   created in slot 0 is never put.
   */
  lemma CreateFailureLeaksSlotZero(moduleId: nat, createOk: seq<bool>)
    requires 1 <= FirstFailure(createOk) < |createOk|
    ensures InterfaceCreate(0, moduleId) in CreateLog(moduleId, true, createOk)
    ensures InterfacePut(0) !in CreateLog(moduleId, true, createOk)
  {
    var k := FirstFailure(createOk);
    var log := FailureLog(moduleId, k);
    assert CreateLog(moduleId, true, createOk) == log;
    FailureLogFacts(moduleId, k, 0);
    assert log[0] == InterfaceCreate(0, moduleId);
    CountPositive(log, InterfacePut(0));
  }

  // ---------------------------------------------------------------------
  // Lemmas: registration

  /** A call on slot i during registration of slots below k comes from registering slot i alone. */
  lemma {:induction false} RegisterUpToCount(os: seq<Outcome>, k: nat, e: Event)
    requires k <= |os| && e.OnInterface()
    ensures e.slot < k ==> Count(RegisterUpTo(os, k), e) == Count(RegisterCalls(e.slot, os[e.slot]), e)
    ensures e.slot >= k ==> Count(RegisterUpTo(os, k), e) == 0
  {
    if k == 0 {
      assert RegisterUpTo(os, k) == [];
    } else {
      var earlier, last := RegisterUpTo(os, k - 1), RegisterCalls(k - 1, os[k - 1]);
      assert RegisterUpTo(os, k) == earlier + last;
      RegisterUpToCount(os, k - 1, e);
      RegisterCallsOnSlot(k - 1, os[k - 1]);
      CountAfterSlot(earlier, last, k - 1, e);
    }
  }

  /** Appending calls on one slot leaves the count of a call on another slot unchanged. */
  lemma CountAfterSlot(earlier: seq<Event>, last: seq<Event>, slot: nat, e: Event)
    requires e.OnInterface()
    requires forall x :: x in last ==> x.OnInterface() && x.slot == slot
    ensures Count(earlier + last, e) == Count(earlier, e) + if e.slot == slot then Count(last, e) else 0
  {
    CountAppend(earlier, last, e);
    CountPositive(last, e);
  }

  /**
   Registering slot i activates and adds it once each, enables it exactly when
   activation and add succeeded, deactivates it exactly when activation
   succeeded but add or enable failed, and issues no call on another slot.
   */
  lemma RegisterCallsCount(i: nat, o: Outcome, e: Event)
    ensures e == InterfaceActivate(i) ==> Count(RegisterCalls(i, o), e) == 1
    ensures e == InterfaceAdd(i) ==> Count(RegisterCalls(i, o), e) == 1
    ensures e == InterfaceEnable(i) ==> Count(RegisterCalls(i, o), e) == if o.activateOk && o.addOk then 1 else 0
    ensures e == InterfaceDeactivate(i) ==>
      Count(RegisterCalls(i, o), e) == if o.activateOk && !(o.addOk && o.enableOk) then 1 else 0
    ensures e !in {InterfaceActivate(i), InterfaceAdd(i), InterfaceEnable(i), InterfaceDeactivate(i)} ==>
      Count(RegisterCalls(i, o), e) == 0
  {
    var act, add, en, de := InterfaceActivate(i), InterfaceAdd(i), InterfaceEnable(i), InterfaceDeactivate(i);
    if !o.activateOk {
      assert RegisterCalls(i, o) == [act, add] + [];
      CountFour(act, add, [], e);
    } else if !o.addOk {
      assert RegisterCalls(i, o) == [act, add] + [de];
      CountFour(act, add, [de], e);
    } else if !o.enableOk {
      assert RegisterCalls(i, o) == [act, add] + [en, de];
      CountFour(act, add, [en, de], e);
    } else {
      assert RegisterCalls(i, o) == [act, add] + [en];
      CountFour(act, add, [en], e);
    }
  }

  /** The count in a registration sequence: two calls, then up to two more. */
  lemma CountFour(a: Event, b: Event, rest: seq<Event>, e: Event)
    requires |rest| <= 2
    ensures Count([a, b] + rest, e) ==
      (if a == e then 1 else 0) + (if b == e then 1 else 0)
      + (if |rest| > 0 && rest[0] == e then 1 else 0) + (if |rest| > 1 && rest[1] == e then 1 else 0)
  {
    CountOne(a, e);
    CountSnoc([a], b, e);
    assert [a] + [b] == [a, b];
    CountAppend([a, b], rest, e);
    if |rest| == 1 {
      CountOne(rest[0], e);
    } else if |rest| == 2 {
      CountOne(rest[0], e);
      CountSnoc([rest[0]], rest[1], e);
      assert [rest[0]] + [rest[1]] == rest;
    }
  }

  /** Registering slot i issues calls on slot i only. */
  lemma RegisterCallsOnSlot(i: nat, o: Outcome)
    ensures forall e :: e in RegisterCalls(i, o) ==> e.OnInterface() && e.slot == i
  {
  }

  /** Registration of slots below k touches those slots only, in nondecreasing slot order. */
  lemma {:induction false} RegisterUpToInSlotOrder(os: seq<Outcome>, k: nat)
    requires k <= |os|
    ensures forall e :: e in RegisterUpTo(os, k) ==> e.OnInterface() && e.slot < k
    ensures InSlotOrder(RegisterUpTo(os, k))
  {
    if k > 0 {
      var prefix, last := RegisterUpTo(os, k - 1), RegisterCalls(k - 1, os[k - 1]);
      RegisterUpToInSlotOrder(os, k - 1);
      RegisterCallsOnSlot(k - 1, os[k - 1]);
      var t := prefix + last;
      forall p, q | 0 <= p < q < |t| && t[p].OnInterface() && t[q].OnInterface()
        ensures t[p].slot <= t[q].slot
      {
        if q < |prefix| {
        } else if p < |prefix| {
          assert t[p] in prefix && t[q] in last;
        } else {
          assert t[p] in last && t[q] in last;
        }
      }
    }
  }

  /** A nonzero device_add result stops gb_module_add before any interface call. */
  lemma AddFailureTouchesNoInterface(deviceAddResult: int, os: seq<Outcome>)
    requires deviceAddResult != 0
    ensures forall e :: e in AddCalls(deviceAddResult, os) ==> !e.OnInterface()
  {
  }

  /**
   Once device_add succeeds, every slot is activated and added exactly once;
   it is enabled exactly when activation and add succeeded, and deactivated
   exactly when activation succeeded but add or enable then failed.
   */
  lemma AddCallsPerSlot(os: seq<Outcome>, i: nat)
    requires i < |os|
    ensures var t := AddCalls(0, os);
      && Count(t, InterfaceActivate(i)) == 1
      && Count(t, InterfaceAdd(i)) == 1
      && Count(t, InterfaceEnable(i)) == (if os[i].activateOk && os[i].addOk then 1 else 0)
      && Count(t, InterfaceDeactivate(i)) == (if os[i].activateOk && !(os[i].addOk && os[i].enableOk) then 1 else 0)
  {
    forall e | e in {InterfaceActivate(i), InterfaceAdd(i), InterfaceEnable(i), InterfaceDeactivate(i)}
      ensures Count(AddCalls(0, os), e) == Count(RegisterCalls(i, os[i]), e)
    {
      RegisterUpToCount(os, |os|, e);
      CountAppend([DeviceAdd], RegisterUpTo(os, |os|), e);
      CountOne(DeviceAdd, e);
    }
    RegisterCallsCount(i, os[i], InterfaceActivate(i));
    RegisterCallsCount(i, os[i], InterfaceAdd(i));
    RegisterCallsCount(i, os[i], InterfaceEnable(i));
    RegisterCallsCount(i, os[i], InterfaceDeactivate(i));
  }

  /** Once device_add succeeds, device_add comes first and the slots follow in order. */
  lemma AddCallsInSlotOrder(os: seq<Outcome>)
    ensures AddCalls(0, os)[0] == DeviceAdd
    ensures InSlotOrder(AddCalls(0, os))
    ensures forall e :: e in AddCalls(0, os)[1..] ==> e.OnInterface() && e.slot < |os|
  {
    RegisterUpToInSlotOrder(os, |os|);
    assert AddCalls(0, os)[1..] == RegisterUpTo(os, |os|);
  }

  // ---------------------------------------------------------------------
  // Lemmas: deregistration and release

  /**
   Deregistration of slot i is calls 3i, 3i+1, 3i+2: disable (seeing the
   interface's flag or the module's), then deactivate, then del.
   */
  lemma {:induction false} DeregisterUpToAt(flags: seq<bool>, d: bool, k: nat, i: nat)
    requires i < k <= |flags|
    ensures |DeregisterUpTo(flags, d, k)| == 3 * k
    ensures DeregisterUpTo(flags, d, k)[3 * i] == InterfaceDisable(i, flags[i] || d)
    ensures DeregisterUpTo(flags, d, k)[3 * i + 1] == InterfaceDeactivate(i)
    ensures DeregisterUpTo(flags, d, k)[3 * i + 2] == InterfaceDel(i)
  {
    if i < k - 1 {
      DeregisterUpToAt(flags, d, k - 1, i);
    } else if k > 1 {
      DeregisterUpToAt(flags, d, k - 1, 0);
    }
  }

  /** Deregistration issues interface calls only. */
  lemma {:induction false} DeregisterUpToOnInterfaces(flags: seq<bool>, d: bool, k: nat)
    requires k <= |flags|
    ensures forall e :: e in DeregisterUpTo(flags, d, k) ==> e.OnInterface()
  {
    if k > 0 {
      DeregisterUpToOnInterfaces(flags, d, k - 1);
    }
  }

  /**
   gb_module_del ends with exactly one device_del, after every slot's
   disable, deactivate and del; when the module is disconnected every disable
   sees the interface already marked disconnected.
   */
  lemma DelCallsAt(flags: seq<bool>, d: bool, i: nat)
    requires i < |flags|
    ensures var t := DelCalls(flags, d);
      && |t| == 3 * |flags| + 1
      && t[3 * i] == InterfaceDisable(i, flags[i] || d)
      && (d ==> t[3 * i].disconnected)
      && t[3 * i + 1] == InterfaceDeactivate(i)
      && t[3 * i + 2] == InterfaceDel(i)
      && t[|t| - 1] == DeviceDel
      && Count(t, DeviceDel) == 1
  {
    var deregs := DeregisterUpTo(flags, d, |flags|);
    DeregisterUpToAt(flags, d, |flags|, i);
    DeregisterUpToOnInterfaces(flags, d, |flags|);
    CountPositive(deregs, DeviceDel);
    CountAppend(deregs, [DeviceDel], DeviceDel);
    CountOne(DeviceDel, DeviceDel);
  }

  /** gb_module_put puts slot s as its s-th call, and puts the module last. */
  lemma {:induction false} PutCallsAt(n: nat)
    ensures |PutCalls(n)| == n + 1
    ensures forall s :: 0 <= s < n ==> PutCalls(n)[s] == InterfacePut(s)
    ensures PutCalls(n)[n] == PutDevice
  {
    if n > 0 {
      PutCallsAt(n - 1);
      assert PutCalls(n) == ReleaseCalls(n - 1) + [InterfacePut(n - 1)] + [PutDevice];
    }
  }

  /** gb_module_put puts each slot below n exactly once, and no other slot. */
  lemma {:induction false} ReleaseCallsCount(n: nat, j: nat)
    ensures Count(ReleaseCalls(n), InterfacePut(j)) == if j < n then 1 else 0
    ensures Count(ReleaseCalls(n), PutDevice) == 0
  {
    if n == 0 {
      assert ReleaseCalls(n) == [];
    } else {
      ReleaseCallsCount(n - 1, j);
      CountSnoc(ReleaseCalls(n - 1), InterfacePut(n - 1), InterfacePut(j));
      CountSnoc(ReleaseCalls(n - 1), InterfacePut(n - 1), PutDevice);
    }
  }

  /**
   Reference balance of a successful creation followed by gb_module_put:
   every slot is created once and put once, and the module is put once.
   */
  lemma CreateThenPutBalanced(moduleId: nat, n: nat, j: nat)
    requires j < n
    ensures Count(CreateCalls(moduleId, n), InterfaceCreate(j, moduleId + j)) == 1
    ensures Count(PutCalls(n), InterfacePut(j)) == 1
    ensures Count(PutCalls(n), PutDevice) == 1
  {
    CreateCallsCount(moduleId, n, j);
    ReleaseCallsCount(n, j);
    CountSnoc(ReleaseCalls(n), PutDevice, InterfacePut(j));
    CountSnoc(ReleaseCalls(n), PutDevice, PutDevice);
  }

  /** Slot j's creation appears once in the creation calls for slots 0 .. k-1 when j < k. */
  lemma {:induction false} CreateCallsCount(moduleId: nat, k: nat, j: nat)
    ensures Count(CreateCalls(moduleId, k), InterfaceCreate(j, moduleId + j)) == if j < k then 1 else 0
  {
    if k == 0 {
      assert CreateCalls(moduleId, k) == [];
    } else {
      CreateCallsCount(moduleId, k - 1, j);
      CountSnoc(CreateCalls(moduleId, k - 1), InterfaceCreate(k - 1, moduleId + k - 1), InterfaceCreate(j, moduleId + j));
    }
  }
}

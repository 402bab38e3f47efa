/**
 A Greybus module: a device that owns a fixed-size array of interfaces, and
 its lifecycle — creation with rollback, registration of the module and its
 interfaces, deregistration, and release. The interface layer and the device
 core are collaborators whose answers are parameters; every call made to them
 is appended to the ghost Trace, whose exact contents each method states
 through the functions of ModuleCalls.
 */
module GreybusModule {
  import opened ModuleCalls

  /** An interface of a module; the only state the module code touches is `disconnected`. */
  class Interface {
    const owner: Module
    const interfaceId: nat
    var disconnected: bool

    /**
     A successful gb_interface_create. Its code is not part of this model; the
     new interface is taken to start connected.
     */
    constructor (owner: Module, interfaceId: nat)
      ensures this.owner == owner && this.interfaceId == interfaceId
      ensures !disconnected
    {
      this.owner := owner;
      this.interfaceId := interfaceId;
      disconnected := false;
    }
  }

  class Module {
    var moduleId: nat
    var numInterfaces: nat
    var interfaces: array<Interface?>
    var disconnected: bool

    // public view: the interfaces held in the slots, and every call made so far
    ghost var Slots: seq<Interface>
    ghost var Trace: seq<Event>

    /** Slots 0 .. k-1 are filled: slot i holds an interface of this module with id moduleId + i. */
    ghost predicate Filled(k: nat)
      reads this`moduleId, this`numInterfaces, this`interfaces, this`Slots, interfaces
    {
      && k == |Slots| <= interfaces.Length
      && interfaces.Length == numInterfaces
      && (forall i :: 0 <= i < k ==> interfaces[i] == Slots[i])
      && (forall i :: 0 <= i < k ==> Slots[i].owner == this && Slots[i].interfaceId == moduleId + i)
    }

    /** The invariant of a created module: every slot is filled. */
    ghost predicate Valid()
      reads this`moduleId, this`numInterfaces, this`interfaces, this`Slots, interfaces
    {
      Filled(numInterfaces)
    }

    /** The interfaces held in the slots, as a set. */
    ghost function SlotSet(): set<Interface>
      reads this
    {
      set i | 0 <= i < |Slots| :: Slots[i]
    }

    /** The disconnected flags of the interfaces, in slot order. */
    ghost function Flags(): (f: seq<bool>)
      reads this, Slots
      ensures |f| == |Slots|
      ensures forall i :: 0 <= i < |f| ==> f[i] == Slots[i].disconnected
    {
      seq(|Slots|, i reads this, Slots requires 0 <= i < |Slots| => Slots[i].disconnected)
    }

    /** The zeroed allocation with its identity fields set; no slot is filled yet. */
    constructor (moduleId: nat, numInterfaces: nat)
      ensures this.moduleId == moduleId && this.numInterfaces == numInterfaces
      ensures fresh(interfaces) && Filled(0)
      ensures !disconnected && Trace == []
    {
      this.moduleId := moduleId;
      this.numInterfaces := numInterfaces;
      interfaces := new Interface?[numInterfaces];
      disconnected := false;
      Slots := [];
      Trace := [];
    }

    /**
     gb_module_register_interface for the interface intf of slot i: activate,
     then add, then enable, deactivating when add or enable fails after a
     successful activation. The interface layer's answers are o.
     */
    method RegisterInterface(intf: Interface, i: nat, o: Outcome)
      requires i < |Slots| && intf == Slots[i]
      modifies this`Trace
      ensures Trace == old(Trace) + RegisterCalls(i, o)
    {
      Trace := Trace + [InterfaceActivate(i)];
      if !o.activateOk {
        // the interface is still added, and the add result is ignored
        Trace := Trace + [InterfaceAdd(i)];
        return;
      }
      Trace := Trace + [InterfaceAdd(i)];
      if o.addOk {
        Trace := Trace + [InterfaceEnable(i)];
        if o.enableOk {
          return;
        }
      }
      Trace := Trace + [InterfaceDeactivate(i)];
    }

    /**
     gb_module_deregister_interface for the interface intf of slot i: copy
     the owner's disconnected flag onto it, then disable, deactivate and del it.
     */
    method DeregisterInterface(intf: Interface, i: nat)
      requires i < |Slots| && intf == Slots[i] && intf.owner == this
      modifies this`Trace, intf
      ensures intf.disconnected == (old(intf.disconnected) || disconnected)
      ensures Trace == old(Trace) + DeregisterCalls(i, old(intf.disconnected) || disconnected)
    {
      if intf.owner.disconnected {
        intf.disconnected := true;
      }
      Trace := Trace + [InterfaceDisable(i, intf.disconnected)];
      Trace := Trace + [InterfaceDeactivate(i)];
      Trace := Trace + [InterfaceDel(i)];
    }

    /**
     gb_module_add: register the module; if that fails return its error and
     touch no interface, otherwise register every interface in slot order and
     return 0 whatever the interfaces answered.
     */
    method Add(deviceAddResult: int, outcomes: seq<Outcome>) returns (ret: int)
      requires Valid() && |outcomes| == numInterfaces
      modifies this`Trace
      ensures ret == (if deviceAddResult != 0 then deviceAddResult else 0)
      ensures Trace == old(Trace) + AddCalls(deviceAddResult, outcomes)
    {
      Trace := Trace + [DeviceAdd];
      if deviceAddResult != 0 {
        return deviceAddResult;
      }
      var i := 0;
      while i < numInterfaces
        invariant 0 <= i <= numInterfaces
        invariant Trace == old(Trace) + [DeviceAdd] + RegisterUpTo(outcomes, i)
      {
        RegisterInterface(interfaces[i], i, outcomes[i]);
        AppendAssoc(old(Trace) + [DeviceAdd], RegisterUpTo(outcomes, i), RegisterCalls(i, outcomes[i]));
        i := i + 1;
      }
      AppendAssoc(old(Trace), [DeviceAdd], RegisterUpTo(outcomes, i));
      return 0;
    }

    /**
     gb_module_del: deregister every interface in slot order, then delete the
     module device. Each interface ends up disconnected if it was, or if the
     module is.
     */
    method Del()
      requires Valid()
      modifies this`Trace, SlotSet()
      ensures forall i :: 0 <= i < |Slots| ==> Slots[i].disconnected == (old(Slots[i].disconnected) || disconnected)
      ensures Trace == old(Trace) + DelCalls(old(Flags()), disconnected)
    {
      ghost var slots, before := Slots, Flags();
      var i := 0;
      while i < numInterfaces
        invariant 0 <= i <= numInterfaces
        invariant |slots| == numInterfaces
        invariant forall j :: 0 <= j < |slots| ==> slots[j].disconnected == if j < i then before[j] || disconnected else before[j]
        invariant Trace == old(Trace) + DeregisterUpTo(before, disconnected, i)
      {
        DeregisterInterface(interfaces[i], i);
        AppendAssoc(old(Trace), DeregisterUpTo(before, disconnected, i), DeregisterCalls(i, before[i] || disconnected));
        i := i + 1;
      }
      Trace := Trace + [DeviceDel];
      AppendAssoc(old(Trace), DeregisterUpTo(before, disconnected, i), [DeviceDel]);
    }

    /** No two slots hold the same interface, as their interface ids differ. */
    lemma SlotsDistinct()
      requires Valid()
      ensures forall j, k :: 0 <= j < k < |Slots| ==> Slots[j] != Slots[k]
    {
      forall j, k | 0 <= j < k < |Slots|
        ensures Slots[j] != Slots[k]
      {
        assert Slots[j].interfaceId != Slots[k].interfaceId;
      }
    }

    /** gb_module_put: put every interface in slot order, then the module itself. */
    method Put()
      requires Valid()
      modifies this`Trace
      ensures Valid() && Slots == old(Slots)
      ensures Trace == old(Trace) + PutCalls(numInterfaces)
    {
      var i := 0;
      while i < numInterfaces
        invariant 0 <= i <= numInterfaces
        invariant Trace == old(Trace) + ReleaseCalls(i)
      {
        Trace := Trace + [InterfacePut(i)];
        AppendAssoc(old(Trace), ReleaseCalls(i), [InterfacePut(i)]);
        i := i + 1;
      }
      Trace := Trace + [PutDevice];
      AppendAssoc(old(Trace), ReleaseCalls(i), [PutDevice]);
    }
  }

  /**
   gb_module_create. Allocation succeeds when allocOk; the interface of slot i
   is created when createOk[i]. Returns the module with every slot filled, or
   null after rolling back. `log` is every call made, also on failure.
   */
  method Create(moduleId: nat, numInterfaces: nat, allocOk: bool, createOk: seq<bool>)
    returns (m: Module?, ghost log: seq<Event>)
    requires |createOk| == numInterfaces
    ensures log == CreateLog(moduleId, allocOk, createOk)
    ensures (m != null) == (allocOk && forall i :: 0 <= i < numInterfaces ==> createOk[i])
    ensures m != null ==>
      && fresh(m) && fresh(m.interfaces) && m.Valid()
      && m.moduleId == moduleId && m.numInterfaces == numInterfaces
      && !m.disconnected && m.Trace == log
      && (forall i :: 0 <= i < numInterfaces ==> fresh(m.Slots[i]) && !m.Slots[i].disconnected)
  {
    if !allocOk {
      return null, [];
    }
    var mod := new Module(moduleId, numInterfaces);
    var i := 0;
    while i < numInterfaces
      invariant 0 <= i <= numInterfaces
      invariant fresh(mod) && fresh(mod.interfaces)
      invariant mod.moduleId == moduleId && mod.numInterfaces == numInterfaces
      invariant !mod.disconnected && mod.Filled(i)
      invariant forall j :: 0 <= j < i ==> createOk[j]
      invariant forall j :: 0 <= j < i ==> fresh(mod.Slots[j]) && !mod.Slots[j].disconnected
      invariant mod.Trace == CreateCalls(moduleId, i)
    {
      // interface creation for slot i with id moduleId + i (module.c:75), answered by createOk[i]
      mod.Trace := mod.Trace + [InterfaceCreate(i, moduleId + i)];
      var intf: Interface? := null;
      if createOk[i] {
        intf := new Interface(mod, moduleId + i);
      }
      if intf == null {
        break;
      }
      mod.interfaces[i] := intf;
      mod.Slots := mod.Slots + [intf];
      i := i + 1;
    }
    if i == numInterfaces {
      return mod, mod.Trace;
    }
    assert !createOk[i] && mod.Trace == CreateCalls(moduleId, i + 1);
    assert FirstFailure(createOk) == i;
    // rollback: put slots i-1 down to 1, skipping slot 0 (module.c:87-88)
    var j: int := i - 1;
    while j > 0
      invariant -1 <= j < i
      invariant 0 <= j || i == 0
      invariant mod.Trace == CreateCalls(moduleId, i + 1) + PutsDownTo(i - 1, j + 1)
    {
      mod.Trace := mod.Trace + [InterfacePut(j)];
      AppendAssoc(CreateCalls(moduleId, i + 1), PutsDownTo(i - 1, j + 1), [InterfacePut(j)]);
      j := j - 1;
    }
    assert PutsDownTo(i - 1, j + 1) == RollbackCalls(i);
    mod.Trace := mod.Trace + [PutDevice];
    return null, mod.Trace;
  }

  /**
   The lifecycle walk-through: a module with id 5 and three interfaces whose
   slot 1 fails to activate is created and added.
   */
  method Lifecycle() {
    var outcomes := [Outcome(true, true, true), Outcome(false, true, true), Outcome(true, true, true)];
    var m, log := Create(5, 3, true, [true, true, true]);
    assert [true, true, true][0] && [true, true, true][1] && [true, true, true][2];
    assert m.Slots[0].interfaceId == 5 && m.Slots[1].interfaceId == 6 && m.Slots[2].interfaceId == 7;
    var ret := m.Add(0, outcomes);
    assert ret == 0;
    AddCallsPerSlot(outcomes, 1);
    assert Count(AddCalls(0, outcomes), InterfaceEnable(1)) == 0;
    AddCallsPerSlot(outcomes, 2);
    assert Count(AddCalls(0, outcomes), InterfaceEnable(2)) == 1;
  }

  /** Tearing down a module marked disconnected: every interface ends up disconnected, then all are put. */
  method Teardown(m: Module)
    requires m.Valid()
    modifies m, m.SlotSet()
  {
    m.disconnected := true;
    m.Del();
    assert forall i :: 0 <= i < |m.Slots| ==> m.Slots[i].disconnected;
    m.Put();
  }
}

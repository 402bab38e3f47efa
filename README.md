# Greybus module lifecycle in Dafny

A Greybus *module* is a physical unit on a Greybus bus. It owns a fixed-size
array of *interfaces*, one per interface slot, whose ids are
`module_id + slot`. `module.c` creates a module and its interfaces. On
failure it rolls the creation back. It registers the module device and then
every interface, deregisters them again, and drops the module's references.

This project models that lifecycle. The interface layer
(`gb_interface_create`, `_activate`, `_add`, `_enable`, `_deactivate`,
`_disable`, `_del`, `_put`) and the device core (`device_add`, `device_del`,
`put_device`) are collaborators whose code is not part of this model. Their
answers are parameters of the modelled operations:

- `allocOk` is whether the allocation of the module succeeds.
- `createOk[i]` is whether the interface of slot `i` is created.
- `deviceAddResult` is the result of `device_add`.
- `Outcome(activateOk, addOk, enableOk)` gives one interface's registration
  results.

Every call the module code makes to a collaborator is recorded as an `Event`
in a ghost trace.

- `calls.dfy`, module `ModuleCalls`:
  - the `Event` datatype;
  - specification functions giving the exact call sequence of each operation
    (`CreateLog`, `RegisterCalls`, `AddCalls`, `DeregisterCalls`, `DelCalls`,
    `PutCalls`);
  - lemmas about those sequences: which calls happen, how often (`Count`), in
    which order, and what never happens.
- `module.dfy`, module `GreybusModule`:
  - the imperative model. Class `Interface` holds the interface's
    `disconnected` flag, the one field the module code writes.
  - Class `Module` holds `moduleId`, `numInterfaces`, `disconnected` and the
    array `interfaces`. Its methods `Add`, `Del`, `Put`, `RegisterInterface`
    and `DeregisterInterface` update the trace and the interfaces in place.
  - Method `Create` allocates the module, fills the slots and rolls back on
    failure.
  - Each method's `ensures` ties the new trace to the specification
    function. `Create` also promises that the returned module is valid: slot
    `i` holds a fresh, connected interface of this module with id
    `moduleId + i`.
  - `Lifecycle` and `Teardown` walk one module through creation,
    registration, deletion and release.

The rollback in `gb_module_create` is modelled as written:

- After creation fails at slot `i`, the rollback loop (module.c:87-88) puts
  slots `i-1` down to `1`.
- A complete rollback would put every interface created before the failing
  slot. The loop stops before slot 0, so slot 0's interface is never put when
  creation fails at slot 1 or later.
- `CreateFailureLeaksSlotZero` states this outright.

## Model

| member | source | states |
|---|---|---|
| ModuleCalls.FirstFailure | module.c:74-80 | the slot where the creation loop stops: every earlier slot was created and that one was not, or the slot count when all were created |
| ModuleCalls.CreateCallsAt | module.c:74-75 | the creation loop calls gb_interface_create for slots 0, 1, … in order, slot s with id module_id + s, and makes no other call |
| ModuleCalls.CreateCallsCount | module.c:74-75 | each slot below k is created exactly once by the loop, and no slot at or above k |
| ModuleCalls.PutsDownToAt | module.c:87-88 | the rollback loop puts slots in decreasing order, one per step, and makes only interface puts |
| ModuleCalls.PutsDownToCount | module.c:87-88 | between its bounds the rollback loop puts each slot exactly once and no slot outside them |
| ModuleCalls.RollbackReleases | module.c:86-88 | after a failure at slot k, slots k-1 down to 1 are put once each; slot 0 and every slot from k up are never put |
| ModuleCalls.AllocFailureCallsNothing | module.c:57-60 | a failed allocation returns before any call to the interface layer or the device core |
| ModuleCalls.CreateSuccessLog | module.c:74-84 | when every interface is created, the calls are exactly the creations of slots 0 .. n-1 in order, with no put |
| ModuleCalls.CreateFailureLog | module.c:74-92 | when creation fails at slot k the log has 2k+1 calls (2 when k is 0): slots 0 .. k are attempted in order as the first k+1 calls, so no slot after k is attempted; then slots k-1 down to 1 are put in that order; slot j is put once exactly when 1 <= j < k; the module is put exactly once, as the last call |
| ModuleCalls.FailureLogFacts | module.c:86-92 | the same facts about the calls of a creation failing at a given slot k |
| ModuleCalls.FailureLogShape | module.c:86-90 | the calls of a creation failing at slot k number 2k+1 (2 when k is 0), and calls k+1 .. 2k-1 put slots k-1 down to 1 in decreasing order |
| ModuleCalls.CreateFailureLeaksSlotZero | module.c:86-88 | when creation fails at slot 1 or later, slot 0's interface was created but is never put |
| ModuleCalls.RegisterCallsCount | module.c:98-127 | registering slot i activates and adds it once each. It enables it exactly when activate and add succeeded. It deactivates it exactly when activate succeeded and add or enable then failed. It makes no other call |
| ModuleCalls.RegisterCallsOnSlot | module.c:98-127 | registering slot i calls the interface layer for slot i only |
| ModuleCalls.RegisterUpToCount | module.c:153-154 | in the registration loop, the calls on slot i are exactly those of registering slot i alone; slots not yet reached get none |
| ModuleCalls.RegisterUpToInSlotOrder | module.c:153-154 | the registration loop touches only the slots it has passed, in nondecreasing slot order |
| ModuleCalls.AddFailureTouchesNoInterface | module.c:147-151 | when device_add fails, gb_module_add makes no call on any interface |
| ModuleCalls.AddCallsPerSlot | module.c:142-157 | once device_add succeeds, every slot is activated and added exactly once; it is enabled exactly when activate and add succeeded and deactivated exactly when a later step failed after activation |
| ModuleCalls.AddCallsInSlotOrder | module.c:147-154 | once device_add succeeds, device_add comes first and the interface calls follow slot by slot, on valid slots only |
| ModuleCalls.DeregisterUpToAt | module.c:164-165 | the deregistration loop issues disable, deactivate, del for slot i as calls 3i, 3i+1, 3i+2. The disable sees the interface's flag or'ed with the module's |
| ModuleCalls.DeregisterUpToOnInterfaces | module.c:164-165 | the deregistration loop makes interface calls only |
| ModuleCalls.DelCallsAt | module.c:160-168 | gb_module_del deregisters every slot in order, disable first, and a disconnected module makes every disable see a disconnected interface. device_del is issued exactly once, as the last call |
| ModuleCalls.PutCallsAt | module.c:170-178 | gb_module_put puts slot s as its s-th call and then puts the module device, as call n |
| ModuleCalls.ReleaseCallsCount | module.c:174-175 | the put loop puts each slot below n exactly once and never the module device |
| ModuleCalls.CreateThenPutBalanced | module.c:170-178 | after a successful creation of n slots, gb_module_put puts each created interface exactly as often as it was created, once, and the module once |
| GreybusModule.Interface.constructor | module.c:75 | a created interface belongs to its module, carries the requested id and starts connected (an assumption about gb_interface_create, see Left out) |
| GreybusModule.Module.constructor | module.c:57-64 | the zeroed allocation records module_id and num_interfaces, has an array of num_interfaces slots, is connected and has made no call |
| GreybusModule.Module.SlotsDistinct | module.c:74-81 | distinct slots of a created module hold distinct interfaces |
| GreybusModule.Module.RegisterInterface | module.c:98-127 | for the interface held in slot i, appends exactly the calls of registering it under the given outcome to the trace |
| GreybusModule.Module.DeregisterInterface | module.c:129-139 | for the interface held in slot i, the interface's flag becomes its old flag or the module's flag, before the disable; then disable, deactivate and del are appended |
| GreybusModule.Module.Add | module.c:142-157 | returns device_add's error when it fails, else 0 whatever the interfaces answered; appends exactly the calls of gb_module_add; changes nothing else |
| GreybusModule.Module.Del | module.c:160-168 | every slot's interface ends up disconnected if it was or the module is; appends exactly the calls of gb_module_del, computed from the flags beforehand; changes nothing else |
| GreybusModule.Module.Put | module.c:170-178 | appends exactly the calls of gb_module_put; the module stays valid and its slots unchanged |
| GreybusModule.Create | module.c:50-93 | issues exactly the calls of CreateLog. It returns a module exactly when allocation and every interface creation succeeded. Such a module is fresh and valid, with the given id and count; slot i holds a fresh, connected interface with id module_id + i |

## Left out

- Sysfs attribute functions (`module_id_show`, `num_interfaces_show`) and the attribute group: user-space plumbing around the lifecycle.
- `gb_module_release`, `kfree` and `greybus_module_type`. Freeing is done by the device core once the last reference is dropped; `put_device` is recorded as an event only.
- Device initialisation fields (`hd`, `dev.parent`, `bus`, `type`, `groups`, `dma_mask`), `device_initialize` and `dev_set_name`: they set up state that module.c itself never reads again; only the device core uses it, from `device_add` on.
- `dev_err` logging: it has no effect on the modelled state.
- Interface internals and reference counts: the interface layer is not part of this model. Its calls are events and its results are parameters. `disconnected` is the only interface field the module code writes.
- GreybusModule.Interface.constructor: a newly created interface is assumed to start connected. `gb_interface_create` is not modelled, so this initial flag is an assumption rather than a parameter; `GreybusModule.Create`'s promise that each slot starts connected rests on it.
- GreybusModule.Create: `moduleId` is a natural number, widened from the source's `u8`, so it admits values the field cannot hold. The id passed for slot `i` is `moduleId + i` over the naturals. In the source this sum is computed in `int`, and any truncation would happen in `gb_interface_create`'s parameter, which is not part of this model.
- GreybusModule.Create: `num_interfaces` is a `size_t`. The allocation size `sizeof(*module) + num_interfaces * sizeof(intf)` (module.c:57) is an unchecked product, and the slot loop compares it with an `int` counter (module.c:55, 74). The model does not capture overflow of either. A successful allocation always yields exactly `numInterfaces` slots, and the counter is unbounded.
- GreybusModule.Create: the slots from the failing one upward are left empty in the array; since null is returned, the model states nothing about the array on that path.
- A complete rollback on creation failure is not proved, because the code does not perform it for slot 0; see `CreateFailureLeaksSlotZero`.
- Concurrency: the source takes no locks here and the model is sequential.

/** AddDeviceEndpoint and RemoveDeviceEndpoint of main/main.cpp, on the heap. */
module Endpoints {
  import opened Common
  import opened EndpointIds
  import opened EndpointTable

  class Device {
    var endpointId: EndpointId

    constructor ()
      ensures endpointId == 0
    {
      endpointId := 0;
    }

    method SetEndpointId(id: EndpointId)
      modifies this
      ensures endpointId == id
    {
      endpointId := id;
    }
  }

  datatype Status = Success | DuplicateExists | OtherError

  /** The SDK's endpoint storage, as far as the bridge relies on it. */
  class Registry {
    const fixed: set<EndpointId>
    var ids: map<nat, EndpointId>

    constructor (fixed: set<EndpointId>)
      ensures this.fixed == fixed && ids == map[]
    {
      this.fixed := fixed;
      ids := map[];
    }

    /** emberAfSetDynamicEndpoint: duplicates are told apart, other errors are up to the SDK. */
    method SetDynamicEndpoint(index: nat, id: EndpointId, refusals: set<EndpointId>) returns (ret: Status)
      modifies this
      ensures ret == DuplicateExists <==> id in fixed + old(ids).Values
      ensures ret == Success ==> id !in refusals && ids == old(ids)[index := id]
      ensures ret == OtherError ==> id in refusals
      ensures ret != Success ==> ids == old(ids)
    {
      if id in fixed + ids.Values {
        ret := DuplicateExists;
      } else if id in refusals {
        ret := OtherError;
      } else {
        ids := ids[index := id];
        ret := Success;
      }
    }

    /** emberAfClearDynamicEndpoint: forgets the id registered at an index. */
    method ClearDynamicEndpoint(index: nat)
      modifies this
      ensures ids == old(ids) - {index}
    {
      ids := ids - {index};
    }
  }

  class BridgeEndpoints {
    const devices: array<Device?>
    var currentEndpointId: EndpointId
    const firstDynamicEndpointId: EndpointId
    const registry: Registry

    /** The state of the table, of which the fields above are the representation. */
    ghost var table: Table<Device>

    ghost predicate Valid()
      reads this, devices, registry, devices[..]
    {
      && Inv(table)
      && devices.Length == SLOTS == |table.slots|
      && (forall i :: 0 <= i < SLOTS ==> table.slots[i] == Slot(devices[i]))
      && table.registry == registry.ids && table.fixed == registry.fixed
      && table.counter == currentEndpointId && table.first == firstDynamicEndpointId
      && (forall i :: 0 <= i < SLOTS && devices[i] != null ==>
            devices[i] in table.reported && table.reported[devices[i]] == devices[i].endpointId)
    }

    static function Slot(d: Device?): Option<Device> {
      if d == null then None else Some(d)
    }

    /** The start-up state set by app_main and InitServer. */
    constructor (firstDynamicEndpointId: EndpointId, fixed: set<EndpointId>)
      ensures Valid() && fresh(devices) && fresh(registry) && devices.Length == 16
      ensures table == Start(firstDynamicEndpointId, fixed)
    {
      devices := new Device?[SLOTS](_ => null);
      this.firstDynamicEndpointId := firstDynamicEndpointId;
      currentEndpointId := firstDynamicEndpointId;
      registry := new Registry(fixed);
      table := Start(firstDynamicEndpointId, fixed);
    }

    /**
     refusals are the ids the SDK would answer with an error other than "duplicate" during this call.
     When a slot is free and every dynamic id is in use, the inner loop has no end.
     */
    method AddDeviceEndpoint(dev: Device, refusals: set<EndpointId>) returns (r: int)
      requires Valid()
      requires !OutcomeOf(table, Add(dev, refusals)).Hangs?
      modifies this, devices, registry, dev
      ensures Valid()
      ensures table == Step(old(table), Add(dev, refusals))
      ensures r == match old(OutcomeOf(table, Add(dev, refusals))) case Added(i) => i case _ => -1
      ensures r >= 0 ==> r < 16 && devices[r] == dev && r in registry.ids && registry.ids[r] == dev.endpointId
      ensures r < 0 ==> registry.ids == old(registry.ids)
    {
      var index := 0;
      while index < devices.Length
        invariant 0 <= index <= devices.Length
        invariant forall i :: 0 <= i < index ==> table.slots[i].Some?
      {
        if devices[index] == null {
          SlotOfIs(table.slots, None, index);
          r := Place(index, dev, refusals);
          return;
        }
        index := index + 1;
      }
      r := -1;
    }

    /** The part of AddDeviceEndpoint that follows when a free slot has been found. */
    method Place(index: nat, dev: Device, refusals: set<EndpointId>) returns (r: int)
      requires Valid() && SlotOf(table.slots, None) == Some(index) && index < SLOTS
      requires !OutcomeOf(table, Add(dev, refusals)).Hangs?
      modifies this, devices, registry, dev
      ensures Valid()
      ensures table == Step(old(table), Add(dev, refusals))
      ensures r == if old(OutcomeOf(table, Add(dev, refusals))).Added? then index else -1
      ensures r >= 0 ==> r < 16 && devices[r] == dev && r in registry.ids && registry.ids[r] == dev.endpointId
      ensures r < 0 ==> registry.ids == old(registry.ids)
    {
      StepKeepsInv(table, Add(dev, refusals));
      r := Register(index, dev, refusals);
      table := Step(table, Add(dev, refusals));
    }

    /** The inner loop of AddDeviceEndpoint. */
    method Register(index: nat, dev: Device, refusals: set<EndpointId>) returns (r: int)
      requires index < devices.Length && firstDynamicEndpointId <= currentEndpointId
      requires FirstFree(firstDynamicEndpointId, currentEndpointId, registry.fixed + registry.ids.Values, 0).Some?
      modifies this`currentEndpointId, devices, registry, dev
      ensures devices[..] == old(devices[..])[index := dev]
      ensures dev.endpointId == currentEndpointId
      ensures var first, cur := firstDynamicEndpointId, old(currentEndpointId);
              var used := registry.fixed + old(registry.ids).Values;
              var attempts := FirstFree(first, cur, used, 0);
              attempts.Some? && attempts.value <= Size(first) && currentEndpointId == At(first, cur, attempts.value)
      ensures r >= 0 ==> devices[index] == dev && index in registry.ids && registry.ids[index] == dev.endpointId
      ensures if currentEndpointId in refusals then r == -1 && registry.ids == old(registry.ids)
              else r == index && registry.ids == old(registry.ids)[index := currentEndpointId]
    {
      ghost var first, cur, used := firstDynamicEndpointId, currentEndpointId, registry.fixed + registry.ids.Values;
      ghost var last := FirstFree(first, cur, used, 0).value;
      FirstFreeFinds(first, cur, used, 0);
      devices[index] := dev;
      ghost var k := 0;
      while true
        invariant k <= last && currentEndpointId == At(first, cur, k)
        invariant registry.ids == old(registry.ids) && devices[..] == old(devices[..])[index := dev]
        decreases last - k
      {
        dev.SetEndpointId(currentEndpointId);
        var ret := registry.SetDynamicEndpoint(index, currentEndpointId, refusals);
        if ret == Success {
          return index;
        } else if ret != DuplicateExists {
          return -1;
        }
        NextIsNextAt(first, cur, k);
        currentEndpointId := if currentEndpointId == 0xFFFF then 0 else currentEndpointId + 1;
        if currentEndpointId < firstDynamicEndpointId {
          currentEndpointId := firstDynamicEndpointId;
        }
        k := k + 1;
      }
    }

    /** CHIP_NO_ERROR or CHIP_ERROR_INTERNAL. */
    method RemoveDeviceEndpoint(dev: Device) returns (ok: bool)
      requires Valid()
      modifies this, devices, registry
      ensures Valid()
      ensures table == Step(old(table), Remove(dev)) && currentEndpointId == old(currentEndpointId)
      ensures ok <==> old(OutcomeOf(table, Remove(dev))).Removed?
    {
      for index := 0 to devices.Length
        invariant table == old(table) && Valid()
        invariant forall i :: 0 <= i < index ==> table.slots[i] != Some(dev)
      {
        if devices[index] == dev {
          SlotOfIs(table.slots, Some(dev), index);
          Release(index, dev);
          return true;
        }
      }
      return false;
    }

    method Release(index: nat, dev: Device)
      requires Valid() && index < SLOTS && SlotOf(table.slots, Some(dev)) == Some(index)
      modifies this, devices, registry
      ensures Valid()
      ensures table == Step(old(table), Remove(dev))
    {
      StepKeepsInv(table, Remove(dev));
      registry.ClearDynamicEndpoint(index);
      devices[index] := null;
      table := Step(table, Remove(dev));
    }
  }
}

/** store_t of the kernel module: the operations of the three store files, each as one atomic step. */
module Store {
  import opened Bytes
  import opened Options
  import opened Tables

  class Store {
    var devices: map<nat, Device>
    var toots: map<nat, Toot>
    var elements: map<nat, Element>
    const minorMin: nat
    const minorMax: nat

    ghost function View(): Tables
      reads this
    {
      Tables(devices, toots, elements)
    }

    ghost predicate Valid()
      reads this
    {
      IdsInRange(View()) && minorMax <= U32_MAX
    }

    /** create_store. */
    constructor (minorMin: nat, minorMax: nat)
      requires minorMax <= U32_MAX
      ensures Valid() && View() == EMPTY && this.minorMin == minorMin && this.minorMax == minorMax
    {
      devices, toots, elements := map[], map[], map[];
      this.minorMin, this.minorMax := minorMin, minorMax;
    }

    // ----- Devices -----

    /** add_device. There may be no memory for the device or for its name. */
    method AddDevice(pid: int, uid: int, memory: bool) returns (id: Option<nat>)
      requires Valid()
      modifies this`devices
      ensures Valid() && (View(), id) == AddedDevice(old(View()), minorMin, minorMax, pid, uid, memory)
    {
      id := LowestFree(devices.Keys, minorMin, minorMax);
      if id.Some? {
        if !memory {
          return None;
        }
        devices := devices[id.value := Device(pid, uid, false, false)];
      }
    }

    /** remove_device. */
    method RemoveDevice(deviceId: nat)
      requires Valid()
      modifies this
      ensures Valid() && View() == WithoutDevice(old(View()), deviceId)
    {
      if deviceId !in devices {
        return;
      }
      devices := devices[deviceId := devices[deviceId].(isReady := false)];
      WithoutAnyDevice(old(View()), deviceId, devices[deviceId]);
      hide WithoutDevice;
      RemoveTootsOf(deviceId);
      devices := devices - {deviceId};
    }

    /** The loop of remove_device over the toots, in ascending order of their ids. */
    method RemoveTootsOf(deviceId: nat)
      requires Valid() && deviceId in devices
      modifies this`toots, this`elements
      ensures Valid() && View().(devices := devices - {deviceId}) == WithoutDevice(old(View()), deviceId)
    {
      ghost var start := View();
      TootsFromStart(start, deviceId);
      hide TootsFrom, WithoutDevice, WithoutToot, NextEntry;
      var next := NextEntry(toots.Keys, 0);
      ghost var low := 0;
      while next.Some?
        invariant Valid() && View() == TootsFrom(start, deviceId, low)
        invariant low <= U32_MAX + 1 && next == NextEntry(toots.Keys, low)
        decreases U32_MAX + 1 - low
      {
        TootsLoop(start, deviceId, low);
        var tootId := next.value;
        if toots[tootId].deviceId == deviceId {
          RemoveToot(tootId);
        }
        next := NextEntry(toots.Keys, tootId + 1);
        low := tootId + 1;
      }
      TootsLoop(start, deviceId, low);
    }

    /** attach_device_class, when it succeeds, and detach_device_class. */
    method SetAttached(deviceId: nat, attached: bool)
      requires Valid()
      modifies this`devices
      ensures Valid() && View() == WithAttached(old(View()), deviceId, attached)
    {
      if deviceId in devices {
        devices := devices[deviceId := devices[deviceId].(attached := attached)];
      }
    }

    /** set_device_ready. */
    method SetDeviceReady(deviceId: nat)
      requires Valid()
      modifies this`devices
      ensures Valid() && View() == WithDeviceReady(old(View()), deviceId)
    {
      if deviceId in devices {
        devices := devices[deviceId := devices[deviceId].(isReady := true)];
      }
    }

    /** check_device_ready. */
    method CheckDeviceReady(deviceId: nat) returns (ok: bool)
      ensures ok <==> DeviceReady(View(), deviceId)
    {
      if deviceId !in devices {
        return false;
      }
      ok := devices[deviceId].isReady;
    }

    // ----- Toots -----

    /** get_toot_when_ready. */
    method GetTootWhenReady(tootId: nat) returns (ok: bool)
      ensures ok <==> TootReady(View(), tootId)
    {
      if tootId !in toots || !Live(toots[tootId].state) {
        return false;
      }
      ok := CheckDeviceReady(toots[tootId].deviceId);
    }

    /** get_device_id_from_toot and get_device_pid_from_toot. */
    method GetOwner(tootId: nat) returns (owner: Option<(nat, int)>)
      ensures owner.Some? <==> TootReady(View(), tootId)
      ensures owner.Some? ==> owner.value.0 == toots[tootId].deviceId && owner.value.1 == devices[owner.value.0].pid
    {
      var ok := GetTootWhenReady(tootId);
      if !ok {
        return None;
      }
      var deviceId := toots[tootId].deviceId;
      owner := Some((deviceId, devices[deviceId].pid));
    }

    /** add_toot. Its element count starts at whatever the allocation leaves there. */
    method AddToot(deviceId: nat, leftover: nat, memory: bool) returns (id: Option<nat>)
      requires Valid() && leftover <= U32_MAX
      modifies this`toots
      ensures Valid() && (View(), id) == AddedToot(old(View()), deviceId, leftover, memory)
    {
      var ok := CheckDeviceReady(deviceId);
      if !ok {
        return None;
      }
      id := LowestFree(toots.Keys, 0, INT_MAX);
      if id.Some? {
        if !memory {
          return None;
        }
        toots := toots[id.value := Toot(deviceId, OpenResultWait, leftover)];
      }
    }

    /** remove_toot. */
    method RemoveToot(tootId: nat)
      requires Valid()
      modifies this`toots, this`elements
      ensures Valid() && View() == WithoutToot(old(View()), tootId)
    {
      if tootId !in toots {
        return;
      }
      toots := toots[tootId := toots[tootId].(state := Destroyed)];
      RemoveElementsOf(tootId);
      toots := toots - {tootId};
    }

    /** The loop of remove_toot over the elements. */
    method RemoveElementsOf(tootId: nat)
      requires Valid()
      modifies this`elements
      ensures Valid()
      ensures elements == map e | e in old(elements) && old(elements)[e].tootId != tootId :: old(elements)[e]
    {
      ghost var start := elements;
      assert start == ElementsFrom(start, tootId, 0);
      hide ElementsFrom, NextEntry;
      var next := NextEntry(elements.Keys, 0);
      ghost var low := 0;
      while next.Some?
        invariant Valid() && elements == ElementsFrom(start, tootId, low)
        invariant low <= U32_MAX + 1 && next == NextEntry(elements.Keys, low)
        decreases U32_MAX + 1 - low
      {
        ElementsLoop(start, tootId, low);
        var elementId := next.value;
        if elements[elementId].tootId == tootId {
          RemoveElement(elementId);
        }
        next := NextEntry(elements.Keys, elementId + 1);
        low := elementId + 1;
      }
      ElementsLoop(start, tootId, low);
    }

    /** set_toot_ready, set_toot_failer and set_toot_sent. */
    method SetTootState(tootId: nat, state: TootState)
      requires Valid()
      modifies this`toots
      ensures Valid() && View() == WithTootState(old(View()), tootId, state)
    {
      var ok := GetTootWhenReady(tootId);
      if ok {
        toots := toots[tootId := toots[tootId].(state := state)];
      }
    }

    // ----- Elements -----

    /** check_toot_ready. */
    method CheckTootReady(tootId: nat) returns (ok: bool)
      ensures ok <==> TootOpen(View(), tootId)
    {
      if tootId !in toots || toots[tootId].state != Opend {
        return false;
      }
      ok := CheckDeviceReady(toots[tootId].deviceId);
    }

    /** add_element. */
    method AddElement(tootId: nat, memory: bool) returns (added: Option<(nat, nat)>)
      requires Valid()
      modifies this`toots, this`elements
      ensures Valid() && (View(), added) == AddedElement(old(View()), tootId, memory)
    {
      var ok := CheckTootReady(tootId);
      if !ok {
        return None;
      }
      var id := LowestFree(elements.Keys, 0, INT_MAX);
      if id.None? || !memory {
        return None;
      }
      var index := NextIndex(toots[tootId].elementCount);
      toots := toots[tootId := toots[tootId].(elementCount := index)];
      elements := elements[id.value := Element(tootId, ElementReady, index)];
      added := Some((id.value, index));
    }

    /** remove_element. */
    method RemoveElement(elementId: nat)
      requires Valid()
      modifies this`elements
      ensures Valid() && View() == WithoutElement(old(View()), elementId)
    {
      elements := elements - {elementId};
    }

    /** set_element_sent and set_element_failer, through get_element_when_ready. */
    method SetElementState(elementId: nat, state: ElementState)
      requires Valid()
      modifies this`elements
      ensures Valid() && View() == WithElementState(old(View()), elementId, state)
    {
      if elementId !in elements {
        return;
      }
      var element := elements[elementId];
      if element.state != ElementReady && element.state != ElementSendWait {
        return;
      }
      var ok := CheckTootReady(element.tootId);
      if ok {
        elements := elements[elementId := element.(state := state)];
      }
    }

    // ----- Teardown -----

    /** destroy_store: its loop visits devices alone, and yet all three tables end up empty. */
    method Destroy()
      requires Valid() && Consistent(View())
      modifies this
      ensures View() == EMPTY
    {
      hide Consistent, NextEntry;
      var next := NextEntry(devices.Keys, 0);
      ghost var low := 0;
      while next.Some?
        invariant Valid() && Consistent(View())
        invariant low <= U32_MAX + 1 && next == NextEntry(devices.Keys, low)
        invariant forall d :: d in devices ==> low <= d
        decreases U32_MAX + 1 - low
      {
        var deviceId := next.value;
        UpdatesKeepConsistency(View(), deviceId, Opend, ElementSent, false);
        SetAttached(deviceId, false);
        RemovalsKeepConsistency(View(), deviceId);
        RemoveDevice(deviceId);
        next := NextEntry(devices.Keys, deviceId + 1);
        low := deviceId + 1;
      }
      assert devices == map[];
      NoDevicesNothing(View());
    }
  }
}

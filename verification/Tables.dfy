/**
  The three tables of the driver's store as values: what each store operation makes of them. An idr
  is a finite map that hands out its lowest free id and is walked in ascending order.
 */
module Tables {
  import opened Bytes
  import opened Options

  const INT_MAX: nat := 0x7fff_ffff

  datatype TootState = OpenResultWait | Opend | CloseResultWait | Destroyed | TootError

  datatype ElementState = ElementReady | ElementSendWait | ElementSent | ElementError

  datatype Device = Device(pid: int, uid: int, isReady: bool, attached: bool)

  datatype Toot = Toot(deviceId: nat, state: TootState, elementCount: nat)

  datatype Element = Element(tootId: nat, state: ElementState, index: nat)

  datatype Tables = Tables(devices: map<nat, Device>, toots: map<nat, Toot>, elements: map<nat, Element>)

  const EMPTY := Tables(map[], map[], map[])

  // ----- idr -----

  /** idr_alloc_u32: the lowest free id from low to high. */
  function LowestFree(keys: set<nat>, low: nat, high: nat): (r: Option<nat>)
    ensures r.Some? ==> low <= r.value <= high && r.value !in keys && forall k :: low <= k < r.value ==> k in keys
    ensures r.None? ==> forall k :: low <= k <= high ==> k in keys
    decreases high + 1 - low
  {
    if low > high then None
    else if low !in keys then Some(low)
    else LowestFree(keys, low + 1, high)
  }

  /** idr_get_next: the lowest id in use from low on. */
  function NextEntry(keys: set<nat>, low: nat): (r: Option<nat>)
    requires forall k :: k in keys ==> k <= U32_MAX
    ensures r.Some? ==> r.value in keys && low <= r.value && forall k :: k in keys && low <= k ==> r.value <= k
    ensures r.None? ==> forall k :: k in keys ==> k < low
    decreases U32_MAX + 1 - low
  {
    if low > U32_MAX then None
    else if low in keys then Some(low)
    else NextEntry(keys, low + 1)
  }

  // ----- What holds of the tables at all times -----

  ghost predicate IdsInRange(t: Tables) {
    && (forall d :: d in t.devices ==> d <= U32_MAX)
    && (forall i :: i in t.toots ==> i <= U32_MAX && t.toots[i].elementCount <= U32_MAX)
    && (forall e :: e in t.elements ==> e <= U32_MAX)
  }

  /** Every element's toot and every toot's device is in the store. */
  ghost predicate Consistent(t: Tables) {
    && IdsInRange(t)
    && (forall i :: i in t.toots ==> t.toots[i].deviceId in t.devices)
    && (forall e :: e in t.elements ==> t.elements[e].tootId in t.toots)
  }

  // ----- Lookups -----

  /** check_device_ready. */
  predicate DeviceReady(t: Tables, deviceId: nat) {
    deviceId in t.devices && t.devices[deviceId].isReady
  }

  /** The states get_toot_when_ready lets through. */
  predicate Live(state: TootState) {
    state == OpenResultWait || state == Opend || state == CloseResultWait
  }

  /** get_toot_when_ready finds the toot. */
  predicate TootReady(t: Tables, tootId: nat) {
    tootId in t.toots && Live(t.toots[tootId].state) && DeviceReady(t, t.toots[tootId].deviceId)
  }

  /** check_toot_ready. */
  predicate TootOpen(t: Tables, tootId: nat) {
    tootId in t.toots && t.toots[tootId].state == Opend && DeviceReady(t, t.toots[tootId].deviceId)
  }

  /** get_element_when_ready finds the element. */
  predicate ElementLive(t: Tables, elementId: nat) {
    && elementId in t.elements
    && (t.elements[elementId].state == ElementReady || t.elements[elementId].state == ElementSendWait)
    && TootOpen(t, t.elements[elementId].tootId)
  }

  // ----- Operations -----

  function WithoutElement(t: Tables, elementId: nat): Tables {
    t.(elements := t.elements - {elementId})
  }

  /** remove_toot: the toot and its elements go, nothing else changes. */
  function WithoutToot(t: Tables, tootId: nat): Tables {
    if tootId !in t.toots then t
    else t.(toots := t.toots - {tootId},
            elements := map e | e in t.elements && t.elements[e].tootId != tootId :: t.elements[e])
  }

  predicate OfDevice(t: Tables, tootId: nat, deviceId: nat) {
    tootId in t.toots && t.toots[tootId].deviceId == deviceId
  }

  /** remove_device: the device, its toots and their elements go, nothing else changes. */
  function WithoutDevice(t: Tables, deviceId: nat): Tables {
    if deviceId !in t.devices then t
    else Tables(t.devices - {deviceId},
                map i | i in t.toots && t.toots[i].deviceId != deviceId :: t.toots[i],
                map e | e in t.elements && !OfDevice(t, t.elements[e].tootId, deviceId) :: t.elements[e])
  }

  /** set_device_ready. */
  function WithDeviceReady(t: Tables, deviceId: nat): Tables {
    if deviceId !in t.devices then t
    else t.(devices := t.devices[deviceId := t.devices[deviceId].(isReady := true)])
  }

  function WithAttached(t: Tables, deviceId: nat, attached: bool): Tables {
    if deviceId !in t.devices then t
    else t.(devices := t.devices[deviceId := t.devices[deviceId].(attached := attached)])
  }

  /** set_toot_ready, set_toot_failer and set_toot_sent: only a live toot of a ready device changes. */
  function WithTootState(t: Tables, tootId: nat, state: TootState): Tables {
    if !TootReady(t, tootId) then t
    else t.(toots := t.toots[tootId := t.toots[tootId].(state := state)])
  }

  /** set_element_sent and set_element_failer. */
  function WithElementState(t: Tables, elementId: nat, state: ElementState): Tables {
    if !ElementLive(t, elementId) then t
    else t.(elements := t.elements[elementId := t.elements[elementId].(state := state)])
  }

  /** add_device: a device that is not ready, at the lowest free minor number. */
  function AddedDevice(t: Tables, minorMin: nat, minorMax: nat, pid: int, uid: int, memory: bool)
    : (r: (Tables, Option<nat>))
  {
    match LowestFree(t.devices.Keys, minorMin, minorMax)
    case None => (t, None)
    case Some(id) =>
      if !memory then (t, None) else (t.(devices := t.devices[id := Device(pid, uid, false, false)]), Some(id))
  }

  /** add_toot: the toot's id, if there is one. The element count of a toot is whatever kmalloc left there. */
  function AddedToot(t: Tables, deviceId: nat, leftover: nat, memory: bool): (r: (Tables, Option<nat>)) {
    if !DeviceReady(t, deviceId) then (t, None)
    else match LowestFree(t.toots.Keys, 0, INT_MAX)
      case None => (t, None)
      case Some(id) =>
        if !memory then (t, None) else (t.(toots := t.toots[id := Toot(deviceId, OpenResultWait, leftover)]), Some(id))
  }

  /** The uint32_t after the given one. */
  function NextIndex(count: nat): nat {
    (count + 1) % 0x1_0000_0000
  }

  /** add_element: the element's id and its index, if there is one. */
  function AddedElement(t: Tables, tootId: nat, memory: bool): (r: (Tables, Option<(nat, nat)>)) {
    if !TootOpen(t, tootId) then (t, None)
    else match LowestFree(t.elements.Keys, 0, INT_MAX)
      case None => (t, None)
      case Some(id) =>
        if !memory then (t, None)
        else
          var index := NextIndex(t.toots[tootId].elementCount);
          (t.(toots := t.toots[tootId := t.toots[tootId].(elementCount := index)],
              elements := t.elements[id := Element(tootId, ElementReady, index)]),
           Some((id, index)))
  }

  // ----- The deletion loops -----

  /** The elements once the loop of remove_toot has come past the ids below low. */
  function ElementsFrom(start: map<nat, Element>, tootId: nat, low: nat): map<nat, Element> {
    map e | e in start && !(start[e].tootId == tootId && e < low) :: start[e]
  }

  lemma ElementsLoop(start: map<nat, Element>, tootId: nat, low: nat)
    requires forall e :: e in start ==> e <= U32_MAX
    ensures match NextEntry(ElementsFrom(start, tootId, low).Keys, low)
            case Some(e) =>
              var now := ElementsFrom(start, tootId, low);
              && e in now
              && ElementsFrom(start, tootId, e + 1) == if now[e].tootId == tootId then now - {e} else now
            case None => ElementsFrom(start, tootId, low) == map e | e in start && start[e].tootId != tootId :: start[e]
  {
  }

  /** The entry of a device plays no part in removing it. */
  lemma WithoutAnyDevice(t: Tables, deviceId: nat, device: Device)
    requires deviceId in t.devices
    ensures WithoutDevice(t.(devices := t.devices[deviceId := device]), deviceId) == WithoutDevice(t, deviceId)
  {
  }

  /** The tables once the loop of remove_device has come past the toot ids below low. */
  function TootsFrom(start: Tables, deviceId: nat, low: nat): Tables {
    start.(toots := map i | i in start.toots && !(start.toots[i].deviceId == deviceId && i < low) :: start.toots[i],
           elements := map e | e in start.elements && !(OfDevice(start, start.elements[e].tootId, deviceId)
                                                        && start.elements[e].tootId < low) :: start.elements[e])
  }

  lemma TootsFromStart(start: Tables, deviceId: nat)
    ensures TootsFrom(start, deviceId, 0) == start
  {
    var before := TootsFrom(start, deviceId, 0);
    assert before.toots == start.toots && before.elements == start.elements;
  }

  lemma TootsLoop(start: Tables, deviceId: nat, low: nat)
    requires IdsInRange(start) && deviceId in start.devices
    ensures match NextEntry(TootsFrom(start, deviceId, low).toots.Keys, low)
            case Some(i) =>
              var now := TootsFrom(start, deviceId, low);
              && i in now.toots
              && TootsFrom(start, deviceId, i + 1)
                 == if now.toots[i].deviceId == deviceId then WithoutToot(now, i) else now
            case None =>
              var now := TootsFrom(start, deviceId, low);
              now.(devices := now.devices - {deviceId}) == WithoutDevice(start, deviceId)
  {
    var now := TootsFrom(start, deviceId, low);
    var next := NextEntry(now.toots.Keys, low);
    if next.Some? {
      var i := next.value;
      TootsLoopToots(start, deviceId, low, i);
      TootsLoopElements(start, deviceId, low, i);
    } else {
      forall e | e in start.elements && OfDevice(start, start.elements[e].tootId, deviceId)
        ensures start.elements[e].tootId < low
      {
        var k := start.elements[e].tootId;
        assert k < low || k in now.toots;
      }
    }
  }

  lemma TootsLoopToots(start: Tables, deviceId: nat, low: nat, i: nat)
    requires i in start.toots && low <= i
    requires forall k :: k in TootsFrom(start, deviceId, low).toots && low <= k ==> i <= k
    ensures var now := TootsFrom(start, deviceId, low).toots;
            TootsFrom(start, deviceId, i + 1).toots == if start.toots[i].deviceId == deviceId then now - {i} else now
  {
  }

  lemma TootsLoopElements(start: Tables, deviceId: nat, low: nat, i: nat)
    requires i in start.toots && low <= i
    requires forall k :: k in TootsFrom(start, deviceId, low).toots && low <= k ==> i <= k
    ensures var now := TootsFrom(start, deviceId, low).elements;
            TootsFrom(start, deviceId, i + 1).elements ==
              (if start.toots[i].deviceId == deviceId then map e | e in now && now[e].tootId != i :: now[e] else now)
  {
    forall e | e in start.elements && OfDevice(start, start.elements[e].tootId, deviceId)
      ensures start.elements[e].tootId < low || i <= start.elements[e].tootId
    {
      var k := start.elements[e].tootId;
      if low <= k {
        assert k in TootsFrom(start, deviceId, low).toots;
      }
    }
  }

  // ----- Every operation keeps the tables consistent -----

  lemma RemovalsKeepConsistency(t: Tables, id: nat)
    requires Consistent(t)
    ensures Consistent(WithoutElement(t, id)) && Consistent(WithoutToot(t, id)) && Consistent(WithoutDevice(t, id))
  {
  }

  lemma UpdatesKeepConsistency(t: Tables, id: nat, tootState: TootState, elementState: ElementState, attached: bool)
    requires Consistent(t)
    ensures Consistent(WithDeviceReady(t, id)) && Consistent(WithAttached(t, id, attached))
    ensures Consistent(WithTootState(t, id, tootState)) && Consistent(WithElementState(t, id, elementState))
  {
  }

  lemma AdditionsKeepConsistency(t: Tables, id: nat, leftover: nat, memory: bool)
    requires Consistent(t) && leftover <= U32_MAX
    ensures Consistent(AddedToot(t, id, leftover, memory).0) && Consistent(AddedElement(t, id, memory).0)
  {
  }

  /** Once a device is removed nothing refers to it, and what did not belong to it is as it was. */
  lemma DeviceLeavesNoTrace(t: Tables, deviceId: nat)
    requires Consistent(t)
    ensures var after := WithoutDevice(t, deviceId);
            && (forall i :: i in after.toots ==> after.toots[i].deviceId != deviceId)
            && (forall e :: e in after.elements ==> !OfDevice(t, after.elements[e].tootId, deviceId))
            && (forall i :: i in t.toots && t.toots[i].deviceId != deviceId ==>
                  i in after.toots && after.toots[i] == t.toots[i])
            && (forall e :: e in t.elements && t.elements[e].tootId in after.toots ==>
                  e in after.elements && after.elements[e] == t.elements[e])
  {
  }

  /** With no devices left, nothing is left. */
  lemma NoDevicesNothing(t: Tables)
    requires Consistent(t) && t.devices == map[]
    ensures t == EMPTY
  {
    assert t.toots.Keys == {};
    assert t.elements.Keys == {};
  }
}

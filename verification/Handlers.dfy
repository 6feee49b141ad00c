/**
  The handlers of toot.c and device.c over the store. Each makes one step of a run up to the point
  where it waits, and hands its message to the communicator, which says whether it could be sent.
 */
module Handlers {
  import opened Bytes
  import opened Options
  import opened Tables
  import opened Store
  import opened Decoder
  import opened Memory
  import Deserialize
  import Runs
  import Serialize
  import Tree

  /** What the communicator is given: the process a message is for, and its bytes. */
  datatype Message = Message(pid: int, bytes: seq<byte>)

  ghost function ConfigOf(store: Store): Runs.Config {
    Runs.Config(store.minorMin, store.minorMax)
  }

  /** The message is the encoding of what is to be said, if anything is. */
  ghost predicate Carries(message: Option<Message>, says: Option<(int, Value)>) {
    match says
    case None => message.None?
    case Some((pid, v)) => Storable(v) && message == Some(Message(pid, Encode(v)))
  }

  /** The store has made the step of the event, and the handler has returned and said what goes with it. */
  ghost predicate Handled(store: Store, before: Tables, e: Runs.Event, ok: bool, message: Option<Message>)
    reads store
  {
    && store.Valid() && store.View() == Runs.Step(before, ConfigOf(store), e)
    && ok == Runs.Succeeds(before, ConfigOf(store), e)
    && Carries(message, Runs.Says(before, ConfigOf(store), e))
  }

  /** Whatever follows it, a message is read as exactly the fields of what is said, by the process it is for. */
  lemma MessagesRead(t: Tables, config: Runs.Config, e: Runs.Event, message: Option<Message>)
    requires message.Some? && Carries(message, Runs.Says(t, config, e))
    ensures var (pid, v) := Runs.Says(t, config, e).value;
            v.ArrayV? && message.value.pid == pid && Serialize.Reads(message.value.bytes, v.items)
  {
    SaysPlain(t, config, e);
    hide Encode, Storable, Runs.Says, Serialize.Reads, Serialize.Plain;
    Serialize.EncodedReads(Runs.Says(t, config, e).value.1);
  }

  lemma SaysPlain(t: Tables, config: Runs.Config, e: Runs.Event)
    requires Runs.Says(t, config, e).Some?
    ensures var v := Runs.Says(t, config, e).value.1;
            v.ArrayV? && forall k :: 0 <= k < |v.items| ==> Serialize.Plain(v.items[k])
  {
  }

  // ----- Devices -----

  /** get_health: the process is told whether the device is its own and ready. */
  method GetHealth(store: Store, pid: int, deviceId: nat, sent: bool) returns (ok: bool, message: Option<Message>)
    requires store.Valid() && deviceId <= U32_MAX
    ensures Handled(store, store.View(), Runs.GetHealth(pid, deviceId, sent), ok, message)
  {
    hide Encode, Storable, CStr;
    var status := false;
    if deviceId in store.devices && store.devices[deviceId].pid == pid {
      status := store.CheckDeviceReady(deviceId);
    }
    Serialize.HealthMessageFits(deviceId, status);
    var buffer := new byte[Serialize.SMALL_BUFFER];
    var _, used := Serialize.GetHealthResult(deviceId, status, buffer);
    message := Some(Message(pid, buffer[..used]));
    ok := sent;
  }

  lemma IdMessageFits(id: nat)
    requires id <= U32_MAX
    ensures Storable(Serialize.IdMessage(id)) && |Encode(Serialize.IdMessage(id))| <= Serialize.SMALL_BUFFER
  {
    Deserialize.SingleItem(UintV(id));
  }

  /** create_device, when the device can be attached. */
  method CreateDevice(store: Store, pid: int, uid: int, memory: bool, sent: bool)
    returns (ok: bool, message: Option<Message>)
    requires store.Valid()
    modifies store
    ensures Handled(store, old(store.View()), Runs.CreateDevice(pid, uid, memory, sent), ok, message)
  {
    hide WithoutDevice;
    var id := store.AddDevice(pid, uid, memory);
    if id.None? {
      return false, None;
    }
    IdMessageFits(id.value);
    store.SetAttached(id.value, true);
    var buffer := new byte[Serialize.SMALL_BUFFER];
    var fits, used := Serialize.CreateDeviceResult(id.value, buffer);
    message := Some(Message(pid, buffer[..used]));
    if !sent {
      Detached(AddedDevice(old(store.View()), store.minorMin, store.minorMax, pid, uid, memory).0, id.value);
      store.SetAttached(id.value, false);
      store.RemoveDevice(id.value);
      return false, message;
    }
    store.SetDeviceReady(id.value);
    ok := true;
  }

  /** Attaching a device and detaching it makes no difference to removing it. */
  lemma Detached(t: Tables, deviceId: nat)
    ensures WithoutDevice(WithAttached(WithAttached(t, deviceId, true), deviceId, false), deviceId)
         == WithoutDevice(t, deviceId)
    ensures WithoutDevice(WithAttached(t, deviceId, false), deviceId) == WithoutDevice(t, deviceId)
  {
    if deviceId in t.devices {
      var attached := t.devices[deviceId].(attached := true);
      WithoutAnyDevice(t, deviceId, attached);
      WithoutAnyDevice(WithAttached(t, deviceId, true), deviceId, attached.(attached := false));
      WithoutAnyDevice(t, deviceId, t.devices[deviceId].(attached := false));
    }
  }

  /** destroy_device: with the answer sent the device stays, whoever asked. */
  method DestroyDevice(store: Store, pid: int, deviceId: nat, sent: bool) returns (ok: bool, message: Option<Message>)
    requires store.Valid() && deviceId <= U32_MAX
    modifies store
    ensures Handled(store, old(store.View()), Runs.DestroyDevice(pid, deviceId, sent), ok, message)
  {
    hide WithoutDevice;
    IdMessageFits(deviceId);
    var buffer := new byte[Serialize.SMALL_BUFFER];
    var _, used := Serialize.DestroyDeviceResult(deviceId, buffer, 0);
    message := Some(Message(pid, buffer[..used]));
    if !sent {
      Detached(old(store.View()), deviceId);
      store.SetAttached(deviceId, false);
      store.RemoveDevice(deviceId);
      return false, message;
    }
    store.SetDeviceReady(deviceId);
    ok := true;
  }

  // ----- Toots -----

  /** create_toot, up to its wait. The announcement goes to the process that owns the device. */
  method CreateToot(store: Store, deviceId: nat, leftover: nat, memory: bool, sent: bool)
    returns (waits: bool, message: Option<Message>)
    requires store.Valid() && deviceId <= U32_MAX && leftover <= U32_MAX
    modifies store
    ensures Handled(store, old(store.View()), Runs.CreateToot(deviceId, leftover, memory, sent), waits, message)
  {
    hide WithoutToot, Encode, CStr, LowestFree, Storable;
    var id := store.AddToot(deviceId, leftover, memory);
    if id.None? {
      return false, None;
    }
    Serialize.TootMessageFits(id.value, deviceId);
    var buffer := new byte[Serialize.SMALL_BUFFER];
    var fits, used := Serialize.NewToot(id.value, deviceId, buffer);
    if !fits {
      store.RemoveToot(id.value);
      return false, None;
    }
    var owner := store.GetOwner(id.value);
    if owner.None? {
      assert false;
    }
    message := Some(Message(owner.value.1, buffer[..used]));
    if !sent {
      store.RemoveToot(id.value);
      return false, message;
    }
    waits := true;
  }

  /** create_toot_result. */
  method CreateTootResult(store: Store, pid: int, deviceId: nat, tootId: nat, result: int) returns (ok: bool)
    requires store.Valid()
    modifies store
    ensures Handled(store, old(store.View()), Runs.CreateTootResult(pid, deviceId, tootId, result), ok, None)
  {
    var owner := store.GetOwner(tootId);
    if owner.None? || owner.value.1 != pid || owner.value.0 != deviceId {
      return false;
    }
    if result != 0 {
      store.SetTootState(tootId, TootError);
      return false;
    }
    store.SetTootState(tootId, Opend);
    ok := true;
  }

  /**
    create_action_from_create_toot_result_message and then create_toot_result: from the bytes of an
    answer. Nothing is promised of the store for bytes to which deserializing has no answer.
   */
  method ReceiveCreateTootResult(store: Store, pid: int, data: seq<byte>) returns (found: Deserialize.Answer, ok: bool)
    requires store.Valid()
    modifies store
    ensures store.Valid()
    ensures found.Unreachable? <==> Deserialize.NoAnswer(data)
    ensures found.Yes? <==> Deserialize.HasU32(data, 0) && Deserialize.HasU32(data, 1) && Deserialize.HasI32(data, 2)
    ensures found.Yes? ==>
              var tootId := Tree.NumberOf(Deserialize.Field(data, 0));
              var deviceId := Tree.NumberOf(Deserialize.Field(data, 1));
              var e := Runs.CreateTootResult(pid, deviceId, tootId, Tree.NumberOf(Deserialize.Field(data, 2)));
              Handled(store, old(store.View()), e, ok, None)
    ensures found.No? ==> !ok && store.View() == old(store.View())
  {
    var tootId, deviceId, result;
    found, tootId, deviceId, result := Deserialize.TootResult(data);
    if found.Yes? {
      ok := CreateTootResult(store, pid, deviceId, tootId, result);
    } else {
      ok := false;
    }
  }

  /** add_toot_element, up to its wait. */
  method AddTootElement(store: Store, tootId: nat, text: seq<byte>, memory: bool, sent: bool)
    returns (waits: bool, message: Option<Message>)
    requires store.Valid() && Runs.Possible(Runs.AddTootElement(tootId, text, memory, sent))
    modifies store
    ensures Handled(store, old(store.View()), Runs.AddTootElement(tootId, text, memory, sent), waits, message)
  {
    var added := store.AddElement(tootId, memory);
    if added.None? {
      return false, None;
    }
    var (elementId, index) := added.value;
    var owner := store.GetOwner(tootId);
    if owner.None? {
      assert false;
    }
    var buffer := new byte[Serialize.ELEMENT_BUFFER];
    CStrShorter(text);
    Serialize.ElementMessageFits(tootId, owner.value.0, elementId, index, Some(text));
    var ok, used := Serialize.AddTootElement(tootId, owner.value.0, elementId, index, Some(text), buffer);
    if !ok {
      store.RemoveElement(elementId);
      return false, None;
    }
    message := Some(Message(owner.value.1, buffer[..used]));
    if !sent {
      store.RemoveElement(elementId);
      return false, message;
    }
    waits := true;
  }

  /** add_toot_element_result. The action's element id was never set. */
  method AddTootElementResult(store: Store, pid: int, deviceId: nat, tootId: nat, stray: nat, result: int)
    returns (ok: bool)
    requires store.Valid()
    modifies store
    ensures Handled(store, old(store.View()), Runs.AddTootElementResult(pid, deviceId, tootId, stray, result), ok, None)
  {
    var owner := store.GetOwner(tootId);
    if owner.None? || (owner.value.1 == pid && owner.value.0 != deviceId) {
      return false;
    }
    store.SetElementState(stray, if result < 0 then ElementError else ElementSent);
    ok := true;
  }

  /** send_toot, up to its wait. The device is the one of a stray toot id. */
  method SendToot(store: Store, tootId: nat, stray: nat, sent: bool) returns (waits: bool, message: Option<Message>)
    requires store.Valid() && Consistent(store.View()) && tootId <= U32_MAX
    modifies store
    ensures Handled(store, old(store.View()), Runs.SendToot(tootId, stray, sent), waits, message)
  {
    hide WithoutToot;
    var strayOwner := store.GetOwner(stray);
    if strayOwner.None? {
      return false, None;
    }
    Serialize.TootMessageFits(tootId, strayOwner.value.0);
    var buffer := new byte[Serialize.SMALL_BUFFER];
    var fits, used := Serialize.NewToot(tootId, strayOwner.value.0, buffer);
    if !fits {
      store.RemoveToot(tootId);
      return false, None;
    }
    var owner := store.GetOwner(tootId);
    if owner.None? {
      store.RemoveToot(tootId);
      return false, None;
    }
    message := Some(Message(owner.value.1, buffer[..used]));
    if !sent {
      store.RemoveToot(tootId);
      return false, message;
    }
    waits := true;
  }

  /** send_toot_result. */
  method SendTootResult(store: Store, pid: int, deviceId: nat, tootId: nat, result: int) returns (ok: bool)
    requires store.Valid()
    modifies store
    ensures Handled(store, old(store.View()), Runs.SendTootResult(pid, deviceId, tootId, result), ok, None)
  {
    var owner := store.GetOwner(tootId);
    if owner.None? || (owner.value.1 == pid && owner.value.0 != deviceId) {
      return false;
    }
    store.SetTootState(tootId, if result != 0 then TootError else Destroyed);
    ok := true;
  }

  // ----- Runs -----

  /** dispatch, and the ends of the handlers that waited. */
  method Dispatch(store: Store, e: Runs.Event) returns (ok: bool, message: Option<Message>)
    requires store.Valid() && Consistent(store.View()) && Runs.Possible(e)
    modifies store
    ensures Handled(store, old(store.View()), e, ok, message)
  {
    hide Consistent;
    message := None;
    match e {
      case CreateDevice(pid, uid, memory, sent) => ok, message := CreateDevice(store, pid, uid, memory, sent);
      case DestroyDevice(pid, deviceId, sent) => ok, message := DestroyDevice(store, pid, deviceId, sent);
      case CreateToot(deviceId, leftover, memory, sent) =>
        ok, message := CreateToot(store, deviceId, leftover, memory, sent);
      case CreateTootResume(tootId, success) =>
        if !success {
          store.RemoveToot(tootId);
        }
        ok := success;
      case CreateTootResult(pid, deviceId, tootId, result) =>
        ok := CreateTootResult(store, pid, deviceId, tootId, result);
      case AddTootElement(tootId, text, memory, sent) =>
        ok, message := AddTootElement(store, tootId, text, memory, sent);
      case AddTootElementResume(elementId, success) =>
        if !success {
          store.RemoveElement(elementId);
        }
        ok := success;
      case AddTootElementResult(pid, deviceId, tootId, stray, result) =>
        ok := AddTootElementResult(store, pid, deviceId, tootId, stray, result);
      case SendToot(tootId, stray, sent) => ok, message := SendToot(store, tootId, stray, sent);
      case SendTootResume(tootId, success) =>
        store.RemoveToot(tootId);
        ok := success;
      case SendTootResult(pid, deviceId, tootId, result) =>
        ok := SendTootResult(store, pid, deviceId, tootId, result);
      case GetHealth(pid, deviceId, sent) => ok, message := GetHealth(store, pid, deviceId, sent);
    }
  }

  /** The messages made in a run, event by event. */
  ghost predicate Made(config: Runs.Config, events: seq<Runs.Event>, n: nat, messages: seq<Option<Message>>)
    requires n <= |events|
  {
    && |messages| == n
    && forall k :: 0 <= k < n ==> Carries(messages[k], Runs.Says(Runs.After(config, events, k), config, events[k]))
  }

  lemma MadeNext(config: Runs.Config, events: seq<Runs.Event>, n: nat, messages: seq<Option<Message>>,
                 message: Option<Message>)
    requires n < |events| && Made(config, events, n, messages)
    requires Carries(message, Runs.Says(Runs.After(config, events, n), config, events[n]))
    ensures Made(config, events, n + 1, messages + [message])
  {
    hide Carries, Runs.Says, Runs.After;
  }

  lemma AllPossibleAt(events: seq<Runs.Event>, k: nat)
    requires k < |events| && Runs.AllPossible(events)
    ensures Runs.Possible(events[k])
  {
  }

  /**
    Any run of the driver on a fresh store ends in the tables the run is said to end in, which are
    consistent, and makes the messages it is said to make.
   */
  method Replay(minorMin: nat, minorMax: nat, events: seq<Runs.Event>)
    returns (store: Store, messages: seq<Option<Message>>)
    requires minorMax <= U32_MAX && Runs.AllPossible(events)
    ensures fresh(store) && store.Valid() && Consistent(store.View())
    ensures store.View() == Runs.After(Runs.Config(minorMin, minorMax), events, |events|)
    ensures Made(Runs.Config(minorMin, minorMax), events, |events|, messages)
  {
    store := new Store(minorMin, minorMax);
    messages := [];
    ghost var config := Runs.Config(minorMin, minorMax);
    for k := 0 to |events|
      invariant fresh(store) && store.Valid() && ConfigOf(store) == config
      invariant store.View() == Runs.After(config, events, k)
      invariant Made(config, events, k, messages)
    {
      hide Consistent, Carries, Made, Runs.Step, Runs.Says, Runs.Succeeds, Runs.AllPossible;
      Runs.RunIsConsistent(config, events, k);
      AllPossibleAt(events, k);
      var _, message := Dispatch(store, events[k]);
      MadeNext(config, events, k, messages, message);
      messages := messages + [message];
    }
    Runs.RunIsConsistent(config, events, |events|);
  }

  /** Unloading the driver after any run leaves nothing behind. */
  method RunAndDestroy(minorMin: nat, minorMax: nat, events: seq<Runs.Event>) returns (store: Store)
    requires minorMax <= U32_MAX && Runs.AllPossible(events)
    ensures store.View() == EMPTY
  {
    var made;
    store, made := Replay(minorMin, minorMax, events);
    store.Destroy();
  }
}

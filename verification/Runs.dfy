/**
  Runs of the driver: the handlers of toot.c and device.c as steps of the tables. A handler that
  waits ends its step there, and resumes in a step of its own. What the driver cannot foresee is part
  of the event: whether memory is found, whether a message is sent, the memory it reads unset, and what
  a handler finds when it wakes up, which may be an entry that has been removed meanwhile.
 */
module Runs {
  import opened Bytes
  import opened Options
  import opened Decoder
  import opened Tables
  import opened Memory
  import opened Utf8
  import Serialize

  datatype Event =
    | CreateDevice(pid: int, uid: int, memory: bool, sent: bool)
    | DestroyDevice(pid: int, deviceId: nat, sent: bool)
    | CreateToot(deviceId: nat, leftover: nat, memory: bool, sent: bool)
    | CreateTootResume(tootId: nat, ok: bool)
    | CreateTootResult(pid: int, deviceId: nat, tootId: nat, result: int)
    | AddTootElement(tootId: nat, text: seq<byte>, memory: bool, sent: bool)
    | AddTootElementResume(elementId: nat, ok: bool)
    | AddTootElementResult(pid: int, deviceId: nat, tootId: nat, strayElementId: nat, result: int)
    | SendToot(tootId: nat, strayTootId: nat, sent: bool)
    | SendTootResume(tootId: nat, ok: bool)
    | SendTootResult(pid: int, deviceId: nat, tootId: nat, result: int)
    | GetHealth(pid: int, deviceId: nat, sent: bool)

  /** The minor numbers of the devices. */
  datatype Config = Config(minorMin: nat, minorMax: nat)

  /** The size of the buffer toot_write clears, and fills up to its last byte. */
  const CHUNK: nat := 100

  /**
    Ids are 32-bit numbers, and so is the count a toot starts with; a text is a terminated string in
    the buffer of toot_write.
   */
  predicate Possible(e: Event) {
    match e
    case DestroyDevice(_, deviceId, _) => deviceId <= U32_MAX
    case CreateToot(deviceId, leftover, _, _) => deviceId <= U32_MAX && leftover <= U32_MAX
    case AddTootElement(tootId, text, _, _) => tootId <= U32_MAX && 0 in text && |text| <= CHUNK
    case SendToot(tootId, _, _) => tootId <= U32_MAX
    case GetHealth(_, deviceId, _) => deviceId <= U32_MAX
    case _ => true
  }

  /** Both ids need five bytes, and the announcement outgrows its buffer of ten. */
  predicate TooLong(tootId: nat, deviceId: nat) {
    tootId > U16_MAX && deviceId > U16_MAX
  }

  function Owner(t: Tables, tootId: nat): nat
    requires TootReady(t, tootId)
  {
    t.toots[tootId].deviceId
  }

  function OwnerPid(t: Tables, tootId: nat): int
    requires TootReady(t, tootId)
  {
    t.devices[Owner(t, tootId)].pid
  }

  function AfterCreateDevice(t: Tables, config: Config, pid: int, uid: int, memory: bool, sent: bool): Tables {
    var (added, id) := AddedDevice(t, config.minorMin, config.minorMax, pid, uid, memory);
    if id.None? then t
    else if sent then WithDeviceReady(WithAttached(added, id.value, true), id.value)
    else WithoutDevice(added, id.value)
  }

  /** A device is destroyed only when the answer cannot be sent; otherwise it stays, and is marked ready. */
  function AfterDestroyDevice(t: Tables, deviceId: nat, sent: bool): Tables {
    if sent then WithDeviceReady(t, deviceId) else WithoutDevice(t, deviceId)
  }

  function AfterCreateToot(t: Tables, deviceId: nat, leftover: nat, memory: bool, sent: bool): Tables {
    var (added, id) := AddedToot(t, deviceId, leftover, memory);
    if id.None? then t
    else if TooLong(id.value, deviceId) || !sent then WithoutToot(added, id.value)
    else added
  }

  /** The answer counts only if it comes from the process and names the device that own the toot. */
  function AfterCreateTootResult(t: Tables, pid: int, deviceId: nat, tootId: nat, result: int): Tables {
    if !TootReady(t, tootId) || OwnerPid(t, tootId) != pid || Owner(t, tootId) != deviceId then t
    else WithTootState(t, tootId, if result == 0 then Opend else TootError)
  }

  ghost function AfterAddTootElement(t: Tables, tootId: nat, text: seq<byte>, memory: bool, sent: bool): Tables {
    var (added, element) := AddedElement(t, tootId, memory);
    if element.None? then t
    else if !IsUtf8(CStr(text)) || !sent then WithoutElement(added, element.value.0)
    else added
  }

  /** The owner check of the other two answers lets a foreign process pass. */
  predicate PassesWeakCheck(t: Tables, pid: int, deviceId: nat, tootId: nat) {
    TootReady(t, tootId) && !(OwnerPid(t, tootId) == pid && Owner(t, tootId) != deviceId)
  }

  /** The element named in the answer is not copied into the action, so some other id is used. */
  function AfterAddTootElementResult(t: Tables, pid: int, deviceId: nat, tootId: nat, stray: nat, result: int): Tables {
    if !PassesWeakCheck(t, pid, deviceId, tootId) then t
    else WithElementState(t, stray, if result < 0 then ElementError else ElementSent)
  }

  /** The device is looked up through the wrong member of the union, that is through some other toot id. */
  function AfterSendToot(t: Tables, tootId: nat, stray: nat, sent: bool): Tables {
    if !TootReady(t, stray) then t
    else if TooLong(tootId, Owner(t, stray)) || !TootReady(t, tootId) || !sent then WithoutToot(t, tootId)
    else t
  }

  function AfterSendTootResult(t: Tables, pid: int, deviceId: nat, tootId: nat, result: int): Tables {
    if !PassesWeakCheck(t, pid, deviceId, tootId) then t
    else WithTootState(t, tootId, if result != 0 then TootError else Destroyed)
  }

  ghost function Step(t: Tables, config: Config, e: Event): Tables {
    match e
    case CreateDevice(pid, uid, memory, sent) => AfterCreateDevice(t, config, pid, uid, memory, sent)
    case DestroyDevice(_, deviceId, sent) => AfterDestroyDevice(t, deviceId, sent)
    case CreateToot(deviceId, leftover, memory, sent) => AfterCreateToot(t, deviceId, leftover, memory, sent)
    case CreateTootResume(tootId, ok) => if ok then t else WithoutToot(t, tootId)
    case CreateTootResult(pid, deviceId, tootId, result) => AfterCreateTootResult(t, pid, deviceId, tootId, result)
    case AddTootElement(tootId, text, memory, sent) => AfterAddTootElement(t, tootId, text, memory, sent)
    case AddTootElementResume(elementId, ok) => if ok then t else WithoutElement(t, elementId)
    case AddTootElementResult(pid, deviceId, tootId, stray, result) =>
      AfterAddTootElementResult(t, pid, deviceId, tootId, stray, result)
    case SendToot(tootId, stray, sent) => AfterSendToot(t, tootId, stray, sent)
    case SendTootResume(tootId, _) => WithoutToot(t, tootId)
    case SendTootResult(pid, deviceId, tootId, result) => AfterSendTootResult(t, pid, deviceId, tootId, result)
    case GetHealth(_, _, _) => t
  }

  // ----- What a handler says and returns -----

  /** The message a handler makes, and the process it is for. */
  ghost function Says(t: Tables, config: Config, e: Event): Option<(int, Value)> {
    match e
    case CreateDevice(pid, uid, memory, _) =>
      var id := AddedDevice(t, config.minorMin, config.minorMax, pid, uid, memory).1;
      if id.None? then None else Some((pid, Serialize.IdMessage(id.value)))
    case DestroyDevice(pid, deviceId, _) => Some((pid, Serialize.IdMessage(deviceId)))
    case CreateToot(deviceId, leftover, memory, _) =>
      var id := AddedToot(t, deviceId, leftover, memory).1;
      if id.None? || TooLong(id.value, deviceId) then None
      else Some((t.devices[deviceId].pid, Serialize.TootMessage(id.value, deviceId)))
    case AddTootElement(tootId, text, memory, _) =>
      var added := AddedElement(t, tootId, memory).1;
      if added.None? || !IsUtf8(CStr(text)) then None
      else Some((OwnerPid(t, tootId), Serialize.ElementMessage(tootId, Owner(t, tootId), added.value.0, added.value.1,
                                                               Some(text))))
    case SendToot(tootId, stray, _) =>
      if !TootReady(t, stray) || TooLong(tootId, Owner(t, stray)) || !TootReady(t, tootId) then None
      else Some((OwnerPid(t, tootId), Serialize.TootMessage(tootId, Owner(t, stray))))
    case GetHealth(pid, deviceId, _) =>
      var status := DeviceReady(t, deviceId) && t.devices[deviceId].pid == pid;
      Some((pid, Serialize.HealthMessage(deviceId, status)))
    case _ => None
  }

  /** The handler returns true, or goes on to wait. */
  ghost predicate Succeeds(t: Tables, config: Config, e: Event) {
    match e
    case CreateTootResume(_, ok) => ok
    case CreateTootResult(pid, deviceId, tootId, result) =>
      TootReady(t, tootId) && OwnerPid(t, tootId) == pid && Owner(t, tootId) == deviceId && result == 0
    case AddTootElementResume(_, ok) => ok
    case AddTootElementResult(pid, deviceId, tootId, _, _) => PassesWeakCheck(t, pid, deviceId, tootId)
    case SendTootResume(_, ok) => ok
    case SendTootResult(pid, deviceId, tootId, _) => PassesWeakCheck(t, pid, deviceId, tootId)
    case _ => Says(t, config, e).Some? && e.sent
  }

  ghost predicate AllPossible(events: seq<Event>) {
    forall k :: 0 <= k < |events| ==> Possible(events[k])
  }

  /** The tables after the first n events of a run that starts with an empty store. */
  ghost function After(config: Config, events: seq<Event>, n: nat): Tables
    requires n <= |events|
  {
    if n == 0 then EMPTY else Step(After(config, events, n - 1), config, events[n - 1])
  }

  // ----- Referential integrity -----

  lemma StepKeepsConsistency(t: Tables, config: Config, e: Event)
    requires Consistent(t) && config.minorMax <= U32_MAX && Possible(e)
    ensures Consistent(Step(t, config, e))
  {
    hide Consistent, WithoutDevice, WithoutToot, WithoutElement;
    hide WithTootState, WithElementState, AddedToot, AddedElement;
    match e {
      case CreateDevice(pid, uid, memory, sent) => DeviceKeepsConsistency(t, config, pid, uid, memory, sent);
      case DestroyDevice(_, d, _) =>
        RemovalsKeepConsistency(t, d);
        UpdatesKeepConsistency(t, d, Opend, ElementSent, true);
      case CreateToot(d, leftover, memory, _) =>
        AdditionsKeepConsistency(t, d, leftover, memory);
        var (added, id) := AddedToot(t, d, leftover, memory);
        if id.Some? { RemovalsKeepConsistency(added, id.value); }
      case CreateTootResume(i, _) => RemovalsKeepConsistency(t, i);
      case CreateTootResult(_, _, i, result) =>
        UpdatesKeepConsistency(t, i, if result == 0 then Opend else TootError, ElementSent, true);
      case AddTootElement(i, _, memory, _) =>
        AdditionsKeepConsistency(t, i, 0, memory);
        var (added, element) := AddedElement(t, i, memory);
        if element.Some? { RemovalsKeepConsistency(added, element.value.0); }
      case AddTootElementResume(i, _) => RemovalsKeepConsistency(t, i);
      case AddTootElementResult(_, _, _, stray, result) =>
        UpdatesKeepConsistency(t, stray, Opend, if result < 0 then ElementError else ElementSent, true);
      case SendToot(i, _, _) => RemovalsKeepConsistency(t, i);
      case SendTootResume(i, _) => RemovalsKeepConsistency(t, i);
      case SendTootResult(_, _, i, result) =>
        UpdatesKeepConsistency(t, i, if result != 0 then TootError else Destroyed, ElementSent, true);
      case GetHealth(_, _, _) =>
    }
  }

  lemma DeviceKeepsConsistency(t: Tables, config: Config, pid: int, uid: int, memory: bool, sent: bool)
    requires Consistent(t) && config.minorMax <= U32_MAX
    ensures Consistent(AfterCreateDevice(t, config, pid, uid, memory, sent))
  {
    var (added, id) := AddedDevice(t, config.minorMin, config.minorMax, pid, uid, memory);
    assert Consistent(added);
    if id.Some? {
      RemovalsKeepConsistency(added, id.value);
    }
  }

  /** In every run, every element's toot and every toot's device is in the store. */
  lemma {:induction false} RunIsConsistent(config: Config, events: seq<Event>, n: nat)
    requires n <= |events| && AllPossible(events) && config.minorMax <= U32_MAX
    ensures Consistent(After(config, events, n))
  {
    if n > 0 {
      RunIsConsistent(config, events, n - 1);
      StepKeepsConsistency(After(config, events, n - 1), config, events[n - 1]);
    }
  }

  // ----- Who may open a toot -----

  /** A toot that is open after a step and was not before was announced by its owner, with result 0. */
  lemma OnlyOwnerOpens(t: Tables, config: Config, e: Event, tootId: nat)
    requires tootId in Step(t, config, e).toots && Step(t, config, e).toots[tootId].state == Opend
    requires !(tootId in t.toots && t.toots[tootId].state == Opend)
    ensures TootReady(t, tootId)
    ensures e == CreateTootResult(OwnerPid(t, tootId), Owner(t, tootId), tootId, 0)
  {
  }

  /** A toot that is in the store before and after a step keeps its device, and that device its process. */
  lemma OwnerStays(t: Tables, config: Config, e: Event, tootId: nat)
    requires Consistent(t) && tootId in t.toots && tootId in Step(t, config, e).toots
    ensures var after := Step(t, config, e);
            var d := t.toots[tootId].deviceId;
            && after.toots[tootId].deviceId == d && d in after.devices && after.devices[d].pid == t.devices[d].pid
  {
  }

  /** A toot that is done or has failed stays so for as long as it is in the store. */
  lemma FinalStatesStay(t: Tables, config: Config, e: Event, tootId: nat)
    requires tootId in t.toots && tootId in Step(t, config, e).toots
    requires t.toots[tootId].state == Destroyed || t.toots[tootId].state == TootError
    ensures Step(t, config, e).toots[tootId].state == t.toots[tootId].state
  {
  }

  // ----- Who may end a toot, or an element -----

  /** The answer to a new toot opens it, or fails it, if it comes from the owner and names its device. */
  lemma CreateAnswerEnds(t: Tables, config: Config, pid: int, deviceId: nat, tootId: nat, result: int)
    ensures var after := Step(t, config, CreateTootResult(pid, deviceId, tootId, result));
            if TootReady(t, tootId) && OwnerPid(t, tootId) == pid && Owner(t, tootId) == deviceId then
              && after == t.(toots := t.toots[tootId := after.toots[tootId]])
              && after.toots[tootId] == t.toots[tootId].(state := if result == 0 then Opend else TootError)
            else after == t
  {
  }

  /**
    The answer to a sent toot ends the toot, whatever the result, exactly if the toot is live and its
    device ready and the answer is not from the owner for another device; any other process will do.
   */
  lemma SendAnswerEnds(t: Tables, config: Config, pid: int, deviceId: nat, tootId: nat, result: int)
    ensures var after := Step(t, config, SendTootResult(pid, deviceId, tootId, result));
            && (after != t <==> TootReady(t, tootId) && (OwnerPid(t, tootId) != pid || Owner(t, tootId) == deviceId))
            && (after != t ==> after == t.(toots := t.toots[tootId := after.toots[tootId]])
                               && after.toots[tootId].state == if result == 0 then Destroyed else TootError)
  {
    if TootReady(t, tootId) {
      var after := WithTootState(t, tootId, if result != 0 then TootError else Destroyed);
      assert after.toots[tootId] != t.toots[tootId];
    }
  }

  /** The answer to an element changes one exactly under the same condition, if the stray id is a live element's. */
  lemma ElementAnswerEnds(t: Tables, config: Config, pid: int, deviceId: nat, tootId: nat, stray: nat, result: int)
    ensures var after := Step(t, config, AddTootElementResult(pid, deviceId, tootId, stray, result));
            && (after != t <==> TootReady(t, tootId) && (OwnerPid(t, tootId) != pid || Owner(t, tootId) == deviceId)
                                && ElementLive(t, stray))
            && (after != t ==> after == t.(elements := t.elements[stray := after.elements[stray]])
                               && after.elements[stray].state == if result < 0 then ElementError else ElementSent)
  {
    if ElementLive(t, stray) {
      var after := WithElementState(t, stray, if result < 0 then ElementError else ElementSent);
      assert after.elements[stray] != t.elements[stray];
    }
  }

  /** The tables when process 1 has made device 0 and opened toot 0 on it. */
  function OneOpenToot(leftover: nat): Tables {
    Tables(map[0 := Device(1, 1, true, true)], map[0 := Toot(0, Opend, leftover)], map[])
  }

  function OpeningRun(leftover: nat): seq<Event> {
    [CreateDevice(1, 1, true, true), CreateToot(0, leftover, true, true), CreateTootResult(1, 0, 0, 0)]
  }

  lemma OpeningRunOpens(leftover: nat, others: seq<Event>)
    ensures var config, events := Config(0, 0), OpeningRun(leftover) + others;
            After(config, events, 3) == OneOpenToot(leftover)
            && After(config, events, 2) == OneOpenToot(leftover).(toots := map[0 := Toot(0, OpenResultWait, leftover)])
  {
    var config, events := Config(0, 0), OpeningRun(leftover) + others;
    var device := OneOpenToot(leftover).devices;
    assert After(config, events, 0) == EMPTY;
    assert Step(EMPTY, config, events[0]) == Tables(device, map[], map[]);
    assert After(config, events, 1) == Tables(device, map[], map[]);
    assert After(config, events, 2) == Tables(device, map[0 := Toot(0, OpenResultWait, leftover)], map[]);
  }

  /** Process 2, which owns nothing, ends the toot of process 1, naming a device that does not exist. */
  lemma ForeignerEndsToot()
    ensures var config, events := Config(0, 0), OpeningRun(0) + [SendTootResult(2, 7, 0, 0)];
            && 0 in After(config, events, 3).toots && After(config, events, 3).toots[0].state == Opend
            && TootReady(After(config, events, 3), 0) && OwnerPid(After(config, events, 3), 0) == 1
            && 0 in After(config, events, 4).toots && After(config, events, 4).toots[0].state == Destroyed
  {
    var config, events := Config(0, 0), OpeningRun(0) + [SendTootResult(2, 7, 0, 0)];
    OpeningRunOpens(0, [SendTootResult(2, 7, 0, 0)]);
    assert After(config, events, 4) == Step(OneOpenToot(0), config, SendTootResult(2, 7, 0, 0));
  }

  /** And it answers for an element that process 1 alone was sent. */
  lemma ForeignerAnswersElement()
    ensures var others := [AddTootElement(0, [0], true, true), AddTootElementResult(2, 7, 0, 0, 0)];
            var config, events := Config(0, 0), OpeningRun(0) + others;
            && 0 in After(config, events, 4).elements && After(config, events, 4).elements[0].state == ElementReady
            && Says(After(config, events, 3), config, events[3]).Some?
            && Says(After(config, events, 3), config, events[3]).value.0 == 1
            && 0 in After(config, events, 5).elements && After(config, events, 5).elements[0].state == ElementSent
  {
    hide Step, Says;
    var others := [AddTootElement(0, [0], true, true), AddTootElementResult(2, 7, 0, 0, 0)];
    var config, events := Config(0, 0), OpeningRun(0) + others;
    OpeningRunOpens(0, others);
    OneElement(config);
    assert events[3] == others[0] && events[4] == others[1];
    var t3, t4, t5 := After(config, events, 3), After(config, events, 4), After(config, events, 5);
    assert t4 == Step(t3, config, others[0]);
    assert t5 == Step(t4, config, others[1]);
  }

  /** The tables when an empty text has been added to toot 0. */
  function WithElement(state: ElementState): Tables {
    OneOpenToot(1).(elements := map[0 := Element(0, state, 1)])
  }

  lemma OneElement(config: Config)
    ensures var e := AddTootElement(0, [0], true, true);
            && Step(OneOpenToot(0), config, e) == WithElement(ElementReady)
            && Says(OneOpenToot(0), config, e).Some? && Says(OneOpenToot(0), config, e).value.0 == 1
    ensures Step(WithElement(ElementReady), config, AddTootElementResult(2, 7, 0, 0, 0)) == WithElement(ElementSent)
  {
    EmptyIsUtf8();
    assert CStr([0]) == [];
    var open := OneOpenToot(0);
    assert LowestFree(open.elements.Keys, 0, INT_MAX) == Some(0);
    assert open.toots[0 := open.toots[0].(elementCount := 1)] == OneOpenToot(1).toots;
    assert AddedElement(open, 0, true) == (WithElement(ElementReady), Some((0, 1)));
  }

  lemma EmptyIsUtf8()
    ensures IsUtf8([])
  {
    assert Octets([], 0);
    OctetsAreUtf8([]);
  }

  // ----- When a device goes -----

  /** The only event after which a device is gone is its destruction with an answer that could not be sent. */
  lemma DeviceGoes(t: Tables, config: Config, e: Event, d: nat)
    requires d in t.devices
    ensures d !in Step(t, config, e).devices <==> e.DestroyDevice? && e.deviceId == d && !e.sent
  {
  }

  /** Process 2 destroys the device of process 1, and is told so; the device stays, ready, and so does its open toot. */
  lemma DestroyedStays()
    ensures var e := DestroyDevice(2, 0, true);
            var config, events := Config(0, 0), OpeningRun(0) + [e];
            && Succeeds(After(config, events, 3), config, e)
            && Says(After(config, events, 3), config, e) == Some((2, Serialize.IdMessage(0)))
            && After(config, events, 4) == OneOpenToot(0)
  {
    var e := DestroyDevice(2, 0, true);
    var config, events := Config(0, 0), OpeningRun(0) + [e];
    OpeningRunOpens(0, [e]);
    assert After(config, events, 4) == Step(OneOpenToot(0), config, e);
  }

  // ----- What send_toot says -----

  /** The message names the toot's own device exactly if the stray toot id has the same owner. */
  lemma SendTootNames(t: Tables, config: Config, tootId: nat, stray: nat, sent: bool)
    requires Says(t, config, SendToot(tootId, stray, sent)).Some?
    ensures TootReady(t, tootId) && TootReady(t, stray)
    ensures Says(t, config, SendToot(tootId, stray, sent)).value
              == (OwnerPid(t, tootId), Serialize.TootMessage(tootId, Owner(t, tootId)))
            <==> Owner(t, stray) == Owner(t, tootId)
  {
    var said, own := Serialize.TootMessage(tootId, Owner(t, stray)), Serialize.TootMessage(tootId, Owner(t, tootId));
    assert said.items[1] == UintV(Owner(t, stray)) && own.items[1] == UintV(Owner(t, tootId));
  }

  /** In a run with minor numbers of 16 bits, a ready toot is sent exactly if the stray toot id is ready, too. */
  lemma SendTootNeedsStray(config: Config, events: seq<Event>, n: nat, tootId: nat, stray: nat)
    requires n <= |events| && AllPossible(events) && config.minorMax <= U16_MAX
    requires TootReady(After(config, events, n), tootId)
    ensures Succeeds(After(config, events, n), config, SendToot(tootId, stray, true))
       <==> TootReady(After(config, events, n), stray)
  {
    NoneTooLong(config, events, n, SendToot(tootId, stray, true));
  }

  /** Process 1 opens toot 0 on device 0, and process 2 toot 1 on device 1. */
  function TwoProcesses(): seq<Event> {
    [CreateDevice(1, 1, true, true), CreateDevice(2, 2, true, true),
     CreateToot(0, 0, true, true), CreateToot(1, 0, true, true),
     CreateTootResult(1, 0, 0, 0), CreateTootResult(2, 1, 1, 0)]
  }

  /** The tables of that run with the two toots, or the first of them, in the given states. */
  function TwoOwners(states: seq<TootState>): Tables
    requires |states| <= 2
  {
    Tables(map[0 := Device(1, 1, true, true), 1 := Device(2, 2, true, true)],
           map i: nat | i < |states| :: Toot(i, states[i], 0), map[])
  }

  lemma TwoDevicesMade(config: Config)
    requires config == Config(0, 1)
    ensures var one := Tables(map[0 := Device(1, 1, true, true)], map[], map[]);
            && Step(EMPTY, config, TwoProcesses()[0]) == one
            && Step(one, config, TwoProcesses()[1]) == TwoOwners([])
  {
    var one := Tables(map[0 := Device(1, 1, true, true)], map[], map[]);
    assert Step(EMPTY, config, TwoProcesses()[0]) == one;
    assert one.devices.Keys == {0} && LowestFree({0}, 0, 1) == Some(1);
    assert Step(one, config, TwoProcesses()[1]).toots == TwoOwners([]).toots;
  }

  lemma TwoTootsMade(config: Config)
    ensures Step(TwoOwners([]), config, TwoProcesses()[2]) == TwoOwners([OpenResultWait])
    ensures Step(TwoOwners([OpenResultWait]), config, TwoProcesses()[3])
         == TwoOwners([OpenResultWait, OpenResultWait])
  {
    assert TwoOwners([]).toots == map[];
    assert TwoOwners([OpenResultWait]).toots == map[0 := Toot(0, OpenResultWait, 0)];
    assert TwoOwners([OpenResultWait]).toots.Keys == {0} && LowestFree({0}, 0, INT_MAX) == Some(1);
  }

  lemma TwoTootsOpened(config: Config)
    ensures Step(TwoOwners([OpenResultWait, OpenResultWait]), config, TwoProcesses()[4])
         == TwoOwners([Opend, OpenResultWait])
    ensures Step(TwoOwners([Opend, OpenResultWait]), config, TwoProcesses()[5]) == TwoOwners([Opend, Opend])
  {
  }

  lemma TwoProcessesRun()
    ensures After(Config(0, 1), TwoProcesses(), 6) == TwoOwners([Opend, Opend])
  {
    hide Step;
    var config, events := Config(0, 1), TwoProcesses();
    TwoDevicesMade(config);
    TwoTootsMade(config);
    TwoTootsOpened(config);
    assert After(config, events, 0) == EMPTY;
    assert After(config, events, 2) == TwoOwners([]);
    assert After(config, events, 4) == TwoOwners([OpenResultWait, OpenResultWait]);
  }

  /** Sending toot 1 with the stray id 0, process 2 is told that the toot is one of device 0. */
  lemma SendTootMisnames()
    ensures var e := SendToot(1, 0, true);
            var config, t := Config(0, 1), After(Config(0, 1), TwoProcesses(), 6);
            && TootReady(t, 1) && Owner(t, 1) == 1
            && Succeeds(t, config, e) && Says(t, config, e) == Some((2, Serialize.TootMessage(1, 0)))
  {
    TwoProcessesRun();
    hide After;
  }

  // ----- Whether an announcement can be too long -----

  /** With minor numbers of 16 bits, as the driver's own are, so are the device ids of every run. */
  lemma {:induction false} DeviceIdsAreMinors(config: Config, events: seq<Event>, n: nat)
    requires n <= |events|
    ensures forall d :: d in After(config, events, n).devices ==> config.minorMin <= d <= config.minorMax
  {
    if n > 0 {
      DeviceIdsAreMinors(config, events, n - 1);
      StepKeepsMinors(After(config, events, n - 1), config, events[n - 1]);
    }
  }

  lemma StepKeepsMinors(t: Tables, config: Config, e: Event)
    requires forall d :: d in t.devices ==> config.minorMin <= d <= config.minorMax
    ensures forall d :: d in Step(t, config, e).devices ==> config.minorMin <= d <= config.minorMax
  {
  }

  /** Then no announcement is ever too long: a toot is announced if there is one, and sent if its device is known. */
  lemma NoneTooLong(config: Config, events: seq<Event>, n: nat, e: Event)
    requires n <= |events| && AllPossible(events) && config.minorMax <= U16_MAX
    ensures var t := After(config, events, n);
            match e
            case CreateToot(deviceId, leftover, memory, _) =>
              Says(t, config, e).Some? <==> AddedToot(t, deviceId, leftover, memory).1.Some?
            case SendToot(tootId, stray, _) => Says(t, config, e).Some? <==> TootReady(t, stray) && TootReady(t, tootId)
            case _ => true
  {
    DeviceIdsAreMinors(config, events, n);
    RunIsConsistent(config, events, n);
  }

  /** At step k of the run the toot was opened by its owner, and has been in the store since, with that owner. */
  ghost predicate OpenedAt(config: Config, events: seq<Event>, n: nat, tootId: nat, k: nat)
    requires n <= |events|
  {
    && k < n
    && var t := After(config, events, k);
       && TootReady(t, tootId)
       && events[k] == CreateTootResult(OwnerPid(t, tootId), Owner(t, tootId), tootId, 0)
       && forall j :: k <= j <= n ==> OwnedBy(After(config, events, j), tootId, Owner(t, tootId), OwnerPid(t, tootId))
  }

  ghost predicate OwnedBy(t: Tables, tootId: nat, deviceId: nat, pid: int) {
    OfDevice(t, tootId, deviceId) && deviceId in t.devices && t.devices[deviceId].pid == pid
  }

  /** In every run, a toot is open only after its owner, who has not changed since, announced it with result 0. */
  lemma {:induction false} OpenToot(config: Config, events: seq<Event>, n: nat, tootId: nat) returns (k: nat)
    requires n <= |events| && AllPossible(events) && config.minorMax <= U32_MAX
    requires tootId in After(config, events, n).toots && After(config, events, n).toots[tootId].state == Opend
    ensures OpenedAt(config, events, n, tootId, k)
  {
    hide Step;
    var before := After(config, events, n - 1);
    RunIsConsistent(config, events, n - 1);
    if tootId in before.toots && before.toots[tootId].state == Opend {
      k := OpenToot(config, events, n - 1, tootId);
    } else {
      OnlyOwnerOpens(before, config, events[n - 1], tootId);
      k := n - 1;
    }
    OwnerStays(before, config, events[n - 1], tootId);
  }

  /** In every run, a toot that is done or has failed stays so until it is removed. */
  lemma {:induction false} FinalOverRun(config: Config, events: seq<Event>, m: nat, n: nat, tootId: nat)
    requires m <= n <= |events|
    requires forall j :: m <= j <= n ==> tootId in After(config, events, j).toots
    requires After(config, events, m).toots[tootId].state in {Destroyed, TootError}
    ensures After(config, events, n).toots[tootId].state == After(config, events, m).toots[tootId].state
    decreases n
  {
    hide Step;
    if m < n {
      var before := After(config, events, n - 1);
      FinalOverRun(config, events, m, n - 1, tootId);
      assert tootId in before.toots && tootId in After(config, events, n).toots;
      FinalStatesStay(before, config, events[n - 1], tootId);
    }
  }

  /** In every run, a toot that stays in the store from one point to another keeps its owner between them. */
  lemma {:induction false} OwnerOverRun(config: Config, events: seq<Event>, m: nat, n: nat, tootId: nat)
    requires m <= n <= |events| && AllPossible(events) && config.minorMax <= U32_MAX
    requires forall j :: m <= j <= n ==> tootId in After(config, events, j).toots
    ensures var d := After(config, events, m).toots[tootId].deviceId;
            && d in After(config, events, m).devices
            && OwnedBy(After(config, events, n), tootId, d, After(config, events, m).devices[d].pid)
    decreases n
  {
    hide Step;
    RunIsConsistent(config, events, m);
    if m < n {
      var before := After(config, events, n - 1);
      OwnerOverRun(config, events, m, n - 1, tootId);
      RunIsConsistent(config, events, n - 1);
      assert tootId in before.toots && tootId in After(config, events, n).toots;
      OwnerStays(before, config, events[n - 1], tootId);
    }
  }
}

/**
  What a step of the driver does to each entry of the tables, and what it says, told entry by entry: what
  makes an entry come, go and change, and nothing else does. None of the functions that make up a step is used.
 */
module Laws {
  import opened Bytes
  import opened Options
  import opened Decoder
  import opened Memory
  import opened Numbering
  import opened Runs
  import opened Tables
  import opened Utf8

  // ----- Words -----

  /** The toot has not ended, and its device is ready. */
  predicate Alive(t: Tables, i: nat) {
    && i in t.toots && t.toots[i].state in {OpenResultWait, Opend, CloseResultWait}
    && t.toots[i].deviceId in t.devices && t.devices[t.toots[i].deviceId].isReady
  }

  /** The process of a toot's device is the given one. */
  predicate Of(t: Tables, i: nat, pid: int) {
    i in t.toots && t.toots[i].deviceId in t.devices && t.devices[t.toots[i].deviceId].pid == pid
  }

  /** The id is the lowest from low to high that is not among the keys. */
  ghost predicate Lowest(keys: set<nat>, low: nat, high: nat, id: nat) {
    low <= id <= high && id !in keys && forall k :: low <= k < id ==> k in keys
  }

  ghost predicate SomeFree(keys: set<nat>, low: nat, high: nat) {
    exists k :: low <= k <= high && k !in keys
  }

  lemma LowestIsFound(keys: set<nat>, low: nat, high: nat)
    ensures LowestFree(keys, low, high).Some? <==> SomeFree(keys, low, high)
    ensures forall id: nat :: Lowest(keys, low, high, id) <==> LowestFree(keys, low, high) == Some(id)
  {
    var r := LowestFree(keys, low, high);
    if r.Some? {
      assert low <= r.value <= high && r.value !in keys;
    }
  }

  lemma AliveMeans(t: Tables, i: nat)
    ensures Alive(t, i) <==> TootReady(t, i)
    ensures Alive(t, i) ==> Of(t, i, OwnerPid(t, i)) && Owner(t, i) == t.toots[i].deviceId
  {
  }

  // ----- Devices -----

  /** A device comes from a process that asks for it, with memory and an answer that is sent, and belongs to it. */
  lemma DeviceComes(t: Tables, config: Config, e: Event, d: nat)
    requires d !in t.devices && d in Step(t, config, e).devices
    ensures e.CreateDevice? && e.memory && e.sent
    ensures Step(t, config, e).devices[d] == Device(e.pid, e.uid, true, true)
    ensures Lowest(t.devices.Keys, config.minorMin, config.minorMax, d)
  {
  }

  /** A device that stays is as it was, unless its destruction was answered, which marks it ready. */
  lemma DeviceStays(t: Tables, config: Config, e: Event, d: nat)
    requires d in t.devices && d in Step(t, config, e).devices
    ensures var after, before := Step(t, config, e).devices[d], t.devices[d];
            after == if e.DestroyDevice? && e.deviceId == d then before.(isReady := true) else before
  {
  }

  // ----- Toots -----

  /** A toot comes from a request for a ready device that is announced in time, and waits for its answer. */
  lemma TootComes(t: Tables, config: Config, e: Event, i: nat)
    requires i !in t.toots && i in Step(t, config, e).toots
    ensures e.CreateToot? && e.memory && e.sent
    ensures e.deviceId in t.devices && t.devices[e.deviceId].isReady && (i <= 0xffff || e.deviceId <= 0xffff)
    ensures Step(t, config, e).toots[i] == Toot(e.deviceId, OpenResultWait, e.leftover)
    ensures Lowest(t.toots.Keys, 0, 0x7fff_ffff, i)
  {
  }

  /** What makes a toot leave: its wait has failed, it has been sent or could not be, or its device goes. */
  predicate TootLeaves(t: Tables, e: Event, i: nat)
    requires i in t.toots
  {
    match e
    case CreateTootResume(id, ok) => id == i && !ok
    case SendTootResume(id, _) => id == i
    case SendToot(id, stray, sent) =>
      id == i && Alive(t, stray) && ((i > 0xffff && t.toots[stray].deviceId > 0xffff) || !Alive(t, i) || !sent)
    case DestroyDevice(_, deviceId, sent) => deviceId == t.toots[i].deviceId && !sent
    case _ => false
  }

  lemma TootGoes(t: Tables, config: Config, e: Event, i: nat)
    requires Consistent(t) && i in t.toots
    ensures i !in Step(t, config, e).toots <==> TootLeaves(t, e, i)
  {
  }

  /** What becomes of a toot that stays. */
  ghost function TootNext(t: Tables, e: Event, i: nat): Toot
    requires i in t.toots
  {
    var toot := t.toots[i];
    match e
    case CreateTootResult(pid, deviceId, id, result) =>
      if id == i && Alive(t, i) && Of(t, i, pid) && toot.deviceId == deviceId then
        toot.(state := if result == 0 then Opend else TootError)
      else toot
    case SendTootResult(pid, deviceId, id, result) =>
      if id == i && Alive(t, i) && (Of(t, i, pid) ==> toot.deviceId == deviceId) then
        toot.(state := if result == 0 then Destroyed else TootError)
      else toot
    case AddTootElement(id, _, memory, _) =>
      if id == i && Alive(t, i) && toot.state == Opend && memory && SomeFree(t.elements.Keys, 0, 0x7fff_ffff) then
        toot.(elementCount := if toot.elementCount == 0xffff_ffff then 0 else toot.elementCount + 1)
      else toot
    case _ => toot
  }

  lemma TootStays(t: Tables, config: Config, e: Event, i: nat)
    requires Consistent(t) && i in t.toots && i in Step(t, config, e).toots
    ensures Step(t, config, e).toots[i] == TootNext(t, e, i)
  {
    LowestIsFound(t.elements.Keys, 0, 0x7fff_ffff);
    hide SomeFree, LowestFree, Consistent;
    assert t.toots[i].elementCount <= 0xffff_ffff by { CountIsSmall(t, i); }
  }

  lemma CountIsSmall(t: Tables, i: nat)
    requires Consistent(t) && i in t.toots
    ensures t.toots[i].elementCount <= 0xffff_ffff
  {
  }

  // ----- Elements -----

  /** An element comes from a UTF-8 text for an open toot that is sent, with the index behind the last one. */
  lemma ElementComes(t: Tables, config: Config, e: Event, x: nat)
    requires x !in t.elements && x in Step(t, config, e).elements
    ensures e.AddTootElement? && e.memory && e.sent && IsUtf8(CStr(e.text))
    ensures Alive(t, e.tootId) && t.toots[e.tootId].state == Opend
    ensures e.tootId in Step(t, config, e).toots
    ensures Step(t, config, e).elements[x]
         == Element(e.tootId, ElementReady, Step(t, config, e).toots[e.tootId].elementCount)
    ensures Lowest(t.elements.Keys, 0, 0x7fff_ffff, x)
  {
    hide IsUtf8, CStr;
  }

  /** What makes an element leave: its own wait has failed, or its toot leaves. */
  predicate ElementLeaves(t: Tables, e: Event, x: nat)
    requires x in t.elements
  {
    || e == AddTootElementResume(x, false)
    || (t.elements[x].tootId in t.toots && TootLeaves(t, e, t.elements[x].tootId))
  }

  lemma ElementGoes(t: Tables, config: Config, e: Event, x: nat)
    requires Consistent(t) && x in t.elements
    ensures x !in Step(t, config, e).elements <==> ElementLeaves(t, e, x)
  {
    hide IsUtf8, CStr;
  }

  /** An element that stays is as it was, unless an answer for some toot of its own process takes effect on it. */
  lemma ElementStays(t: Tables, config: Config, e: Event, x: nat)
    requires Consistent(t) && x in t.elements && x in Step(t, config, e).elements
    ensures var after, before := Step(t, config, e).elements[x], t.elements[x];
            after ==
              if && e.AddTootElementResult? && e.strayElementId == x
                 && Alive(t, e.tootId) && (Of(t, e.tootId, e.pid) ==> t.toots[e.tootId].deviceId == e.deviceId)
                 && before.state in {ElementReady, ElementSendWait}
                 && Alive(t, before.tootId) && t.toots[before.tootId].state == Opend
              then before.(state := if e.result < 0 then ElementError else ElementSent)
              else before
  {
    hide IsUtf8, CStr;
  }

  // ----- What is said, and with what result -----

  /** The message of an event and the process it is for; an event that finds no id or no memory makes none. */
  ghost predicate Spoken(t: Tables, config: Config, e: Event, said: Option<(int, Value)>) {
    match e
    case CreateDevice(pid, _, memory, _) =>
      && (!SomeFree(t.devices.Keys, config.minorMin, config.minorMax) ==> said.None?)
      && forall d: nat :: Lowest(t.devices.Keys, config.minorMin, config.minorMax, d) ==>
           said == if memory then Some((pid, ArrayV([UintV(d)]))) else None
    case DestroyDevice(pid, d, _) => said == Some((pid, ArrayV([UintV(d)])))
    case CreateToot(d, _, memory, _) =>
      && (!SomeFree(t.toots.Keys, 0, 0x7fff_ffff) ==> said.None?)
      && forall i: nat :: Lowest(t.toots.Keys, 0, 0x7fff_ffff, i) ==>
           said == if memory && d in t.devices && t.devices[d].isReady && (i <= 0xffff || d <= 0xffff) then
                     Some((t.devices[d].pid, ArrayV([UintV(i), UintV(d)])))
                   else None
    case AddTootElement(i, text, memory, _) =>
      && (!SomeFree(t.elements.Keys, 0, 0x7fff_ffff) ==> said.None?)
      && forall x: nat :: Lowest(t.elements.Keys, 0, 0x7fff_ffff, x) ==>
           said == if memory && Alive(t, i) && t.toots[i].state == Opend && IsUtf8(CStr(text)) then
                     var d, c := t.toots[i].deviceId, t.toots[i].elementCount;
                     var index := if c == 0xffff_ffff then 0 else c + 1;
                     Some((t.devices[d].pid, ArrayV([UintV(i), UintV(d), UintV(x), UintV(index), StrV(CStr(text))])))
                   else None
    case SendToot(i, stray, _) =>
      said == if Alive(t, stray) && Alive(t, i) && (i <= 0xffff || t.toots[stray].deviceId <= 0xffff) then
                Some((t.devices[t.toots[i].deviceId].pid, ArrayV([UintV(i), UintV(t.toots[stray].deviceId)])))
              else None
    case GetHealth(pid, d, _) =>
      said == Some((pid, ArrayV([UintV(d), BoolV(d in t.devices && t.devices[d].isReady && t.devices[d].pid == pid)])))
    case _ => said.None?
  }

  lemma SaysIsSpoken(t: Tables, config: Config, e: Event)
    requires Consistent(t)
    ensures Spoken(t, config, e, Says(t, config, e))
  {
    match e {
      case CreateDevice(_, _, _, _) =>
        LowestIsFound(t.devices.Keys, config.minorMin, config.minorMax);
        hide LowestFree, Lowest, SomeFree;
      case CreateToot(_, _, _, _) => TootIsSpoken(t, config, e);
      case AddTootElement(_, _, _, _) => ElementIsSpoken(t, config, e);
      case _ =>
    }
  }

  lemma TootIsSpoken(t: Tables, config: Config, e: Event)
    requires e.CreateToot?
    ensures Spoken(t, config, e, Says(t, config, e))
  {
    LowestIsFound(t.toots.Keys, 0, 0x7fff_ffff);
    hide LowestFree, Lowest, SomeFree;
  }

  lemma ElementIsSpoken(t: Tables, config: Config, e: Event)
    requires Consistent(t) && e.AddTootElement?
    ensures Spoken(t, config, e, Says(t, config, e))
  {
    LowestIsFound(t.elements.Keys, 0, 0x7fff_ffff);
    if e.tootId in t.toots {
      CountIsSmall(t, e.tootId);
    }
    hide LowestFree, Lowest, SomeFree, Consistent, IsUtf8, CStr;
  }

  /** An event returns true, or goes on to wait, exactly if it is let pass, and said what it has to say. */
  lemma SucceedsMeans(t: Tables, config: Config, e: Event)
    ensures Succeeds(t, config, e) <==>
      match e
      case CreateTootResume(_, ok) => ok
      case AddTootElementResume(_, ok) => ok
      case SendTootResume(_, ok) => ok
      case CreateTootResult(pid, d, i, result) =>
        Alive(t, i) && Of(t, i, pid) && t.toots[i].deviceId == d && result == 0
      case AddTootElementResult(pid, d, i, _, _) => Alive(t, i) && (Of(t, i, pid) ==> t.toots[i].deviceId == d)
      case SendTootResult(pid, d, i, _) => Alive(t, i) && (Of(t, i, pid) ==> t.toots[i].deviceId == d)
      case _ => Says(t, config, e).Some? && e.sent
  {
    hide Says;
  }

  /** A step adds an entry exactly if the event that asks for one succeeds. */
  lemma AddsIffSucceeds(t: Tables, config: Config, e: Event)
    ensures Step(t, config, e).devices.Keys <= t.devices.Keys <==> !(e.CreateDevice? && Succeeds(t, config, e))
    ensures Step(t, config, e).toots.Keys <= t.toots.Keys <==> !(e.CreateToot? && Succeeds(t, config, e))
    ensures Step(t, config, e).elements.Keys <= t.elements.Keys <==> !(e.AddTootElement? && Succeeds(t, config, e))
  {
    hide IsUtf8, CStr;
  }

  /** What an event needs besides the tables: 32-bit ids and counts, and a terminated text of at most 100 bytes. */
  lemma PossibleMeans(e: Event)
    ensures Possible(e) <==>
      && (e.DestroyDevice? || e.CreateToot? || e.GetHealth? ==> e.deviceId <= 0xffff_ffff)
      && (e.CreateToot? ==> e.leftover <= 0xffff_ffff)
      && (e.AddTootElement? || e.SendToot? ==> e.tootId <= 0xffff_ffff)
      && (e.AddTootElement? ==> 0 in e.text && |e.text| <= 100)
  {
  }

  // ----- Over runs -----

  /** Since step k, at which its process asked for it, the device has been in the store, ready, with that process. */
  ghost predicate MadeAt(config: Config, events: seq<Event>, n: nat, d: nat, k: nat)
    requires n <= |events|
  {
    && k < n && events[k].CreateDevice? && events[k].memory && events[k].sent
    && d !in After(config, events, k).devices
    && forall j :: k < j <= n ==>
         d in After(config, events, j).devices && IsOf(After(config, events, j).devices[d], events[k])
  }

  predicate IsOf(device: Device, e: Event)
    requires e.CreateDevice?
  {
    device == Device(e.pid, e.uid, true, true)
  }

  /** In every run, every device was made for the process and the user it has, which it has had ever since. */
  lemma {:induction false} DeviceMade(config: Config, events: seq<Event>, n: nat, d: nat) returns (k: nat)
    requires n <= |events| && d in After(config, events, n).devices
    ensures MadeAt(config, events, n, d, k)
  {
    hide Step;
    var before, e := After(config, events, n - 1), events[n - 1];
    if d in before.devices {
      k := DeviceMade(config, events, n - 1, d);
      DeviceStays(before, config, e, d);
      assert IsOf(before.devices[d], events[k]);
    } else {
      DeviceComes(before, config, e, d);
      k := n - 1;
    }
  }

  /** In every run, an open toot was opened by the very process its device was made for. */
  lemma OpenedByMaker(config: Config, events: seq<Event>, n: nat, i: nat) returns (made: nat, k: nat)
    requires n <= |events| && AllPossible(events) && config.minorMax <= U32_MAX
    requires i in After(config, events, n).toots && After(config, events, n).toots[i].state == Opend
    ensures var d := After(config, events, n).toots[i].deviceId;
            && made < k < n && MadeAt(config, events, n, d, made)
            && events[k] == CreateTootResult(events[made].pid, d, i, 0)
  {
    hide Step;
    k := OpenToot(config, events, n, i);
    var d := After(config, events, n).toots[i].deviceId;
    assert OwnedBy(After(config, events, n), i, d, OwnerPid(After(config, events, k), i));
    made := DeviceMade(config, events, n, d);
    assert d in After(config, events, k).devices;
    assert IsOf(After(config, events, n).devices[d], events[made]);
  }

  /** The step at which a toot came into the store, and what the toot was made of. */
  lemma {:induction false} TootCame(config: Config, events: seq<Event>, n: nat, i: nat) returns (k: nat)
    requires n <= |events| && AllPossible(events) && config.minorMax <= U32_MAX
    requires i in After(config, events, n).toots
    ensures k < n && events[k].CreateToot? && Succeeds(After(config, events, k), config, events[k])
    ensures i !in After(config, events, k).toots
    ensures forall j :: k < j <= n ==>
              OfDevice(After(config, events, j), i, events[k].deviceId)
    ensures var made := After(config, events, k + 1).toots;
            i in made && made[i] == Toot(events[k].deviceId, OpenResultWait, events[k].leftover)
  {
    hide Step, Succeeds;
    var before, e := After(config, events, n - 1), events[n - 1];
    if i in before.toots {
      k := TootCame(config, events, n - 1, i);
      RunIsConsistent(config, events, n - 1);
      OwnerStays(before, config, e, i);
      assert OfDevice(before, i, events[k].deviceId);
    } else {
      TootComes(before, config, e, i);
      AddsIffSucceeds(before, config, e);
      k := n - 1;
    }
  }

  /** None of the steps from m to n makes the toot leave. */
  ghost predicate NeverLeaves(config: Config, events: seq<Event>, m: nat, n: nat, i: nat)
    requires n <= |events|
  {
    forall k :: m <= k < n && i in After(config, events, k).toots ==>
      !TootLeaves(After(config, events, k), events[k], i)
  }

  /** In every run, a toot lives from one point to another exactly if no step between them makes it leave. */
  lemma {:induction false} LivesIffNeverLeaves(config: Config, events: seq<Event>, m: nat, n: nat, i: nat)
    requires m <= n <= |events| && AllPossible(events) && config.minorMax <= U32_MAX
    requires i in After(config, events, m).toots
    ensures Lives(config, events, m, n, i) <==> NeverLeaves(config, events, m, n, i)
    decreases n
  {
    hide Step, TootLeaves;
    if m < n {
      LivesIffNeverLeaves(config, events, m, n - 1, i);
      assert Lives(config, events, m, n, i) ==> Lives(config, events, m, n - 1, i);
      if Lives(config, events, m, n - 1, i) {
        assert i in After(config, events, n - 1).toots;
        RunIsConsistent(config, events, n - 1);
        TootGoes(After(config, events, n - 1), config, events[n - 1], i);
        var t, after := After(config, events, n - 1), After(config, events, n);
        assert Lives(config, events, m, n, i) <==> i in after.toots;
        assert NeverLeaves(config, events, m, n, i) <==> !TootLeaves(t, events[n - 1], i);
      }
    }
  }

  ghost predicate ElementLives(config: Config, events: seq<Event>, m: nat, n: nat, x: nat)
    requires n <= |events|
  {
    forall j :: m <= j <= n ==> x in After(config, events, j).elements
  }

  ghost predicate ElementNeverLeaves(config: Config, events: seq<Event>, m: nat, n: nat, x: nat)
    requires n <= |events|
  {
    forall k :: m <= k < n && x in After(config, events, k).elements ==>
      !ElementLeaves(After(config, events, k), events[k], x)
  }

  /** And so does an element. */
  lemma {:induction false} ElementLivesIffNeverLeaves(config: Config, events: seq<Event>, m: nat, n: nat, x: nat)
    requires m <= n <= |events| && AllPossible(events) && config.minorMax <= U32_MAX
    requires x in After(config, events, m).elements
    ensures ElementLives(config, events, m, n, x) <==> ElementNeverLeaves(config, events, m, n, x)
    decreases n
  {
    hide Step, ElementLeaves;
    if m < n {
      ElementLivesIffNeverLeaves(config, events, m, n - 1, x);
      assert ElementLives(config, events, m, n, x) ==> ElementLives(config, events, m, n - 1, x);
      if ElementLives(config, events, m, n - 1, x) {
        assert x in After(config, events, n - 1).elements;
        RunIsConsistent(config, events, n - 1);
        ElementGoes(After(config, events, n - 1), config, events[n - 1], x);
        var t, after := After(config, events, n - 1), After(config, events, n);
        assert ElementLives(config, events, m, n, x) <==> x in after.elements;
        assert ElementNeverLeaves(config, events, m, n, x) <==> !ElementLeaves(t, events[n - 1], x);
      }
    }
  }

  /** In every run, every element came with a UTF-8 text written to its toot, which it has been part of since. */
  lemma {:induction false} ElementCame(config: Config, events: seq<Event>, n: nat, x: nat) returns (k: nat)
    requires n <= |events| && AllPossible(events) && config.minorMax <= U32_MAX
    requires x in After(config, events, n).elements
    ensures k < n && events[k].AddTootElement? && Succeeds(After(config, events, k), config, events[k])
    ensures IsUtf8(CStr(events[k].text)) && x !in After(config, events, k).elements
    ensures forall j :: k < j <= n ==> PartOf(After(config, events, j), x, events[k].tootId)
  {
    hide Step, Succeeds, IsUtf8, CStr;
    var before, e := After(config, events, n - 1), events[n - 1];
    if x in before.elements {
      k := ElementCame(config, events, n - 1, x);
      RunIsConsistent(config, events, n - 1);
      ElementStays(before, config, e, x);
      assert PartOf(before, x, events[k].tootId);
    } else {
      ElementComes(before, config, e, x);
      AddsIffSucceeds(before, config, e);
      k := n - 1;
    }
  }

  predicate PartOf(t: Tables, x: nat, i: nat) {
    x in t.elements && t.elements[x].tootId == i
  }
}

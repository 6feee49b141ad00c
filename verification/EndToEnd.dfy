/** From the writes to a toot in the driver to the text the daemon sends. */
module EndToEnd {
  import opened Bytes
  import opened Decoder
  import opened Memory
  import opened Numbering
  import opened Options
  import opened Utf8
  import Assembly
  import Deserialize
  import Handlers
  import Runs
  import Serialize
  import Tables
  import Writing

  type Element = Assembly.Element

  // ----- One message -----

  /** What the daemon reads from a message that adds an element: the toot it names, and the element. */
  ghost predicate Delivers(data: seq<byte>, tootId: nat, e: Element) {
    var r := Decode(data, 0);
    && r.Got? && r.v.ArrayV? && |r.v.items| == 5
    && r.v.items[0] == UintV(tootId) && r.v.items[3] == UintV(e.index) && r.v.items[4] == StrV(e.text)
  }

  /** The message of a write delivers that write, whatever follows it in its buffer. */
  lemma MessageDelivers(tootId: nat, deviceId: nat, elementId: nat, index: nat, memory: seq<byte>, trailing: seq<byte>)
    requires Storable(Serialize.ElementMessage(tootId, deviceId, elementId, index, Some(memory)))
    ensures Delivers(Encode(Serialize.ElementMessage(tootId, deviceId, elementId, index, Some(memory))) + trailing,
                     tootId, Assembly.Element(index, CStr(memory)))
    ensures Serialize.Reads(Encode(Serialize.ElementMessage(tootId, deviceId, elementId, index, Some(memory))),
                            [UintV(tootId), UintV(deviceId), UintV(elementId), UintV(index), StrV(CStr(memory))])
  {
    var m := Serialize.ElementMessage(tootId, deviceId, elementId, index, Some(memory));
    Serialize.EncodedReads(m);
    Deserialize.FirstMessage(m, trailing, Deserialize.POOL_COUNT, Deserialize.STACK_CAPACITY);
    hide Decode, Encode, Serialize.Reads;
    assert forall k :: 0 <= k < 5 ==> Normal(m).items[k] == Normal(m.items[k]);
  }

  // ----- The messages of a run -----

  /** The element messages of a toot that were sent between m and n, in order. */
  ghost function Handed(events: seq<Runs.Event>, messages: seq<Option<Handlers.Message>>, m: nat, n: nat, id: nat)
    : seq<seq<byte>>
    requires n <= |events| && n <= |messages|
  {
    if n <= m then []
    else
      var e, message := events[n - 1], messages[n - 1];
      Handed(events, messages, m, n - 1, id)
      + if e.AddTootElement? && e.tootId == id && e.sent && message.Some? then [message.value.bytes] else []
  }

  /** The messages deliver the elements, one by one. */
  ghost predicate AllDeliver(handed: seq<seq<byte>>, id: nat, es: seq<Element>) {
    |handed| == |es| && forall k :: 0 <= k < |es| ==> Delivers(handed[k], id, es[k])
  }

  lemma NextDelivers(handed: seq<seq<byte>>, id: nat, ws: seq<Write>, data: seq<byte>, w: Write)
    requires AllDeliver(handed, id, ElementsOf(ws)) && Delivers(data, id, Assembly.Element(w.index, w.text))
    ensures AllDeliver(handed + [data], id, ElementsOf(ws + [w]))
  {
    hide Delivers;
    assert ElementsOf(ws + [w]) == ElementsOf(ws) + [Assembly.Element(w.index, w.text)];
  }

  /** They deliver, one by one, the texts of the toot that were sent. */
  lemma {:induction false} MessagesDeliver(config: Runs.Config, events: seq<Runs.Event>, total: nat,
                                           messages: seq<Option<Handlers.Message>>, m: nat, n: nat, id: nat)
    requires n <= total <= |events| && Handlers.Made(config, events, total, messages)
    ensures AllDeliver(Handed(events, messages, m, n, id), id, ElementsOf(Sent(Writes(config, events, m, n, id))))
    decreases n
  {
    hide Delivers, AllDeliver, Written, Sent, Runs.Says, Runs.After, Handlers.Carries;
    if n <= m {
      SentNext([], []);
      NothingDelivers(id);
    } else {
      var t, e, message := Runs.After(config, events, n - 1), events[n - 1], messages[n - 1];
      var before, w := Writes(config, events, m, n - 1, id), Written(t, e, id);
      MessagesDeliver(config, events, total, messages, m, n - 1, id);
      OneDelivers(config, t, e, message, id);
      SentNext(before, w);
      var handed := Handed(events, messages, m, n - 1, id);
      assert handed + [] == handed && Sent(before) + [] == Sent(before);
      if w != [] && w[0].sent {
        assert w == [w[0]];
        NextDelivers(handed, id, Sent(before), message.value.bytes, w[0]);
      }
    }
  }

  lemma NothingDelivers(id: nat)
    ensures AllDeliver([], id, ElementsOf([]))
  {
  }

  lemma SentNext(before: seq<Write>, w: seq<Write>)
    requires |w| <= 1
    ensures Sent([]) == []
    ensures Sent(before + w) == Sent(before) + if w != [] && w[0].sent then w else []
  {
    if w == [] {
      assert before + w == before;
    } else {
      assert w == [w[0]];
      assert (before + w)[..|before|] == before;
    }
  }

  lemma OneDelivers(config: Runs.Config, t: Tables.Tables, e: Runs.Event, message: Option<Handlers.Message>, id: nat)
    requires Handlers.Carries(message, Runs.Says(t, config, e))
    ensures var ws := Written(t, e, id);
            && ((ws != [] && ws[0].sent) <==> (e.AddTootElement? && e.tootId == id && e.sent && message.Some?))
            && (ws != [] && ws[0].sent ==> Delivers(message.value.bytes, id, Assembly.Element(ws[0].index, ws[0].text)))
  {
    hide Decode, Encode, CStr;
    var ws := Written(t, e, id);
    if ws != [] && ws[0].sent {
      var (elementId, index) := Tables.AddedElement(t, id, e.memory).1.value;
      MessageDelivers(id, Runs.Owner(t, id), elementId, index, e.text, []);
      assert message.value.bytes + [] == message.value.bytes;
    }
  }

  // ----- All of them, in any order -----

  /** The calls the messages of all toots make. */
  datatype Call = NewToot(id: nat) | AddTootElement(id: nat, element: Element) | SendToot(id: nat, accepted: bool)

  /** The elements of one toot among the calls, in the order they arrive. */
  function Arrived(calls: seq<Call>, id: nat): seq<Element> {
    if calls == [] then []
    else
      var last := calls[|calls| - 1];
      Arrived(calls[..|calls| - 1], id)
      + if ArrivesFor(last, id) then [last.element] else []
  }

  predicate ArrivesFor(call: Call, id: nat) {
    call.AddTootElement? && call.id == id
  }

  function ElementsOf(ws: seq<Write>): (es: seq<Element>)
    ensures |es| == |ws| && forall k :: 0 <= k < |ws| ==> es[k] == Assembly.Element(ws[k].index, ws[k].text)
  {
    seq(|ws|, k requires 0 <= k < |ws| => Assembly.Element(ws[k].index, ws[k].text))
  }

  /** One call, of this toot or another, adds to the toot's elements what arrives for it. */
  method Take(manager: Assembly.TootManage, call: Call, ghost id: nat)
    requires manager.Valid() && id in manager.Contents() && call != SendToot(id, true)
    modifies manager, manager.Toots()
    ensures manager.Valid() && fresh(manager.Toots() - old(manager.Toots())) && id in manager.Contents()
    ensures multiset(manager.Contents()[id])
         == multiset(old(manager.Contents())[id]) + multiset(if ArrivesFor(call, id) then [call.element] else [])
  {
    match call {
      case NewToot(other) => var _ := manager.NewToot(other);
      case AddTootElement(other, e) => var _ := manager.AddTootElement(other, e.index, e.text);
      case SendToot(other, accepted) => var _, _ := manager.SendToot(other, accepted);
    }
  }

  /** Calls for any toots in any order leave a toot with the elements that arrived for it, unless it is sent. */
  method Play(manager: Assembly.TootManage, calls: seq<Call>, ghost id: nat)
    requires manager.Valid() && id in manager.Contents() && SendToot(id, true) !in calls
    modifies manager, manager.Toots()
    ensures manager.Valid() && fresh(manager.Toots() - old(manager.Toots())) && id in manager.Contents()
    ensures multiset(manager.Contents()[id]) == multiset(old(manager.Contents())[id]) + multiset(Arrived(calls, id))
  {
    hide Assembly.TootManage.Contents, Assembly.TootManage.Valid;
    ghost var start := multiset(manager.Contents()[id]);
    for n := 0 to |calls|
      invariant manager.Valid() && fresh(manager.Toots() - old(manager.Toots())) && id in manager.Contents()
      invariant multiset(manager.Contents()[id]) == start + multiset(Arrived(calls[..n], id))
    {
      hide Arrived, ArrivesFor;
      ArrivedNext(calls, n, id);
      assert calls[n] in calls;
      Take(manager, calls[n], id);
    }
    assert calls[..|calls|] == calls;
  }

  lemma ArrivedNext(calls: seq<Call>, n: nat, id: nat)
    requires n < |calls|
    ensures multiset(Arrived(calls[..n + 1], id))
         == multiset(Arrived(calls[..n], id)) + multiset(if ArrivesFor(calls[n], id) then [calls[n].element] else [])
  {
    assert calls[..n + 1][..n] == calls[..n];
  }

  /**
    However the elements of a toot arrive, and whatever happens to other toots meanwhile, the daemon
    sends the texts in the order they were written, if the indices of those sent are in order.
   */
  method SendInWriteOrder(manager: Assembly.TootManage, calls: seq<Call>, id: nat,
                          ghost config: Runs.Config, ghost events: seq<Runs.Event>, ghost m: nat, ghost n: nat)
    returns (text: seq<byte>)
    requires manager.Valid() && id in manager.Contents() && manager.Contents()[id] == []
    requires n <= |events| && Runs.AllPossible(events) && config.minorMax <= U32_MAX && Lives(config, events, m, n, id)
    requires SendToot(id, true) !in calls
    requires multiset(Arrived(calls, id)) == multiset(ElementsOf(Sent(Writes(config, events, m, n, id))))
    requires InOrder(CountAt(config, events, m, id), SentAt(Writes(config, events, m, n, id)))
    modifies manager, manager.Toots()
    ensures text == Assembly.Concat(ElementsOf(Sent(Writes(config, events, m, n, id))))
  {
    ghost var ws := Writes(config, events, m, n, id);
    SentInOrder(config, events, m, n, id);
    hide Writes, Sent, SentAt;
    Play(manager, calls, id);
    ghost var held := manager.Contents()[id];
    var sent, _ := manager.SendToot(id, true);
    ghost var sorted :| Assembly.Reordered(held, sorted) && sent == Some(Assembly.Concat(sorted));
    Assembly.OnlyOneOrder(ElementsOf(Sent(ws)), sorted);
    text := sent.value;
  }

  /** Sorting may bring the texts that were sent into the order they were written exactly if no index falls behind. */
  lemma WriteOrderIsSorted(config: Runs.Config, events: seq<Runs.Event>, m: nat, n: nat, id: nat)
    requires n <= |events| && Runs.AllPossible(events) && config.minorMax <= U32_MAX && Lives(config, events, m, n, id)
    ensures var ws := Writes(config, events, m, n, id);
            Assembly.Reordered(ElementsOf(Sent(ws)), ElementsOf(Sent(ws)))
            <==> NeverBehind(CountAt(config, events, m, id), SentAt(ws))
  {
    hide Writes, Sent, SentAt, NeverBehind;
    SentInOrder(config, events, m, n, id);
    var es := ElementsOf(Sent(Writes(config, events, m, n, id)));
    assert forall k :: 0 <= k < |es| ==> es[k].index == Sent(Writes(config, events, m, n, id))[k].index;
  }

  /** It must, exactly if no two successive ones are full turns of the index apart besides. */
  lemma SortingRestoresOrder(config: Runs.Config, events: seq<Runs.Event>, m: nat, n: nat, id: nat,
                             sorted: seq<Element>)
    requires n <= |events| && Runs.AllPossible(events) && config.minorMax <= U32_MAX && Lives(config, events, m, n, id)
    requires Assembly.Reordered(ElementsOf(Sent(Writes(config, events, m, n, id))), sorted)
    requires NoTurn(SentAt(Writes(config, events, m, n, id)))
    ensures var ws := Writes(config, events, m, n, id);
            sorted == ElementsOf(Sent(ws)) <==> InOrder(CountAt(config, events, m, id), SentAt(ws))
  {
    hide Writes, Sent, SentAt, NeverBehind, NoTurn;
    var ws := Writes(config, events, m, n, id);
    SentInOrder(config, events, m, n, id);
    WriteOrderIsSorted(config, events, m, n, id);
    if InOrder(CountAt(config, events, m, id), SentAt(ws)) {
      Assembly.OnlyOneOrder(ElementsOf(Sent(ws)), sorted);
    }
  }

  /** Texts full turns of the index apart share it, and then the sort may as well exchange them. */
  lemma TurnLeavesOrderOpen(config: Runs.Config, events: seq<Runs.Event>, m: nat, n: nat, id: nat, k: nat)
    requires n <= |events| && Runs.AllPossible(events) && config.minorMax <= U32_MAX && Lives(config, events, m, n, id)
    requires var at := SentAt(Writes(config, events, m, n, id));
             && NeverBehind(CountAt(config, events, m, id), at)
             && 0 < k < |at| && Gap(at, k) == 0
    ensures var es := ElementsOf(Sent(Writes(config, events, m, n, id)));
            k < |es| && Assembly.Reordered(es, es) && Assembly.Reordered(es, es[k := es[k - 1]][k - 1 := es[k]])
  {
    hide Writes, Sent, SentAt, NeverBehind;
    var ws, c := Writes(config, events, m, n, id), CountAt(config, events, m, id);
    SentInOrder(config, events, m, n, id);
    WriteOrderIsSorted(config, events, m, n, id);
    IndexMoves(c, SentAt(ws)[k - 1], SentAt(ws)[k]);
    Exchange(ElementsOf(Sent(ws)), k);
  }

  lemma Exchange(es: seq<Element>, k: nat)
    requires 0 < k < |es| && Assembly.SortedByIndex(es) && es[k].index == es[k - 1].index
    ensures Assembly.Reordered(es, es[k := es[k - 1]][k - 1 := es[k]])
  {
    ExchangeKeepsOrder(es, k);
    ExchangeKeepsAll(es, k);
    hide Assembly.SortedByIndex;
  }

  lemma ExchangeKeepsOrder(es: seq<Element>, k: nat)
    requires 0 < k < |es| && Assembly.SortedByIndex(es) && es[k].index == es[k - 1].index
    ensures Assembly.SortedByIndex(es[k := es[k - 1]][k - 1 := es[k]])
  {
    var swapped := es[k := es[k - 1]][k - 1 := es[k]];
    assert forall j :: 0 <= j < |es| ==> swapped[j].index == es[j].index;
  }

  lemma ExchangeKeepsAll(es: seq<Element>, k: nat)
    requires 0 < k < |es|
    ensures multiset(es[k := es[k - 1]][k - 1 := es[k]]) == multiset(es)
  {
    assert multiset(es[k := es[k - 1]]) == multiset(es) - multiset{es[k]} + multiset{es[k - 1]};
  }

  // ----- From the text of a user to the text of the daemon -----

  /** The chunks that the steps from m to n are to add to a toot. */
  function ChunksIn(events: seq<Runs.Event>, m: nat, n: nat, id: nat): seq<seq<byte>>
    requires n <= |events|
  {
    if n <= m then []
    else
      var e := events[n - 1];
      ChunksIn(events, m, n - 1, id) + if e.AddTootElement? && e.tootId == id then [e.text] else []
  }

  /** Each of them is added and sent. */
  ghost predicate AllAdded(config: Runs.Config, events: seq<Runs.Event>, m: nat, n: nat, id: nat)
    requires n <= |events|
  {
    forall k :: m <= k < n && events[k].AddTootElement? && events[k].tootId == id ==>
      Runs.Succeeds(Runs.After(config, events, k), config, events[k])
  }

  /** The writes carry the texts of the chunks, all of them UTF-8 and sent. */
  ghost predicate AllCarried(ws: seq<Write>, chunks: seq<seq<byte>>) {
    |ws| == |chunks| && forall k :: 0 <= k < |ws| ==> ws[k].sent && ws[k].text == CStr(chunks[k]) && IsUtf8(ws[k].text)
  }

  lemma {:induction false} ChunksAreWritten(config: Runs.Config, events: seq<Runs.Event>, m: nat, n: nat, id: nat)
    requires n <= |events| && AllAdded(config, events, m, n, id)
    ensures AllCarried(Writes(config, events, m, n, id), ChunksIn(events, m, n, id))
    decreases n
  {
    hide CStr, IsUtf8, Written, Runs.Succeeds, Runs.After;
    if n > m {
      ChunksAreWritten(config, events, m, n - 1, id);
      ChunkIsWritten(config, Runs.After(config, events, n - 1), events[n - 1], id);
    }
  }

  lemma ChunkIsWritten(config: Runs.Config, t: Tables.Tables, e: Runs.Event, id: nat)
    requires e.AddTootElement? && e.tootId == id ==> Runs.Succeeds(t, config, e)
    ensures var ws := Written(t, e, id);
            if e.AddTootElement? && e.tootId == id then
              |ws| == 1 && ws[0].sent && ws[0].text == CStr(e.text) && IsUtf8(ws[0].text)
            else ws == []
  {
  }

  lemma {:induction false} AllSent(ws: seq<Write>)
    requires forall k :: 0 <= k < |ws| ==> ws[k].sent
    ensures Sent(ws) == ws
  {
    if ws != [] {
      AllSent(ws[..|ws| - 1]);
      assert ws == ws[..|ws| - 1] + [ws[|ws| - 1]];
    }
  }

  lemma {:induction false} JoinedLast(texts: seq<seq<byte>>, text: seq<byte>)
    ensures Writing.Joined(texts + [text]) == Writing.Joined(texts) + text
  {
    if texts == [] {
      assert [] + [text] == [text] && [text][1..] == [];
      assert Writing.Joined([text]) == text + Writing.Joined([]);
    } else {
      JoinedLast(texts[1..], text);
      assert (texts + [text])[1..] == texts[1..] + [text];
    }
  }

  lemma {:induction false} ConcatIsJoined(es: seq<Element>, texts: seq<seq<byte>>)
    requires |es| == |texts| && forall k :: 0 <= k < |es| ==> es[k].text == texts[k]
    ensures Assembly.Concat(es) == Writing.Joined(texts)
  {
    if es != [] {
      var n := |es| - 1;
      ConcatIsJoined(es[..n], texts[..n]);
      JoinedLast(texts[..n], texts[n]);
      assert texts == texts[..n] + [texts[n]];
    }
  }

  /** A message delivers one element. */
  lemma DeliversOnce(handed: seq<seq<byte>>, id: nat, es: seq<Element>, others: seq<Element>)
    requires AllDeliver(handed, id, es) && AllDeliver(handed, id, others)
    ensures es == others
  {
    hide Decode;
    forall k | 0 <= k < |es| ensures es[k] == others[k] {
      assert Delivers(handed[k], id, es[k]) && Delivers(handed[k], id, others[k]);
    }
  }

  /**
    A user writes a text to a toot, piece by piece; every piece is added and its message sent, the messages
    reach the daemon in any order and among those of other toots, and then the toot is sent. If the indices
    do not wrap, what is sent is the text, exactly if it holds no NUL; and then it was UTF-8 that no
    piece's end cuts inside a character.
   */
  method UserTextArrives(manager: Assembly.TootManage, calls: seq<Call>, id: nat, ghost user: seq<byte>,
                         ghost config: Runs.Config, ghost events: seq<Runs.Event>,
                         ghost messages: seq<Option<Handlers.Message>>, ghost delivered: seq<Element>,
                         ghost m: nat, ghost n: nat)
    returns (text: seq<byte>)
    requires manager.Valid() && id in manager.Contents() && manager.Contents()[id] == []
    requires n <= |events| && Runs.AllPossible(events) && config.minorMax <= U32_MAX && Lives(config, events, m, n, id)
    requires ChunksIn(events, m, n, id) == Writing.Chunks(user) && AllAdded(config, events, m, n, id)
    requires NoWrap(CountAt(config, events, m, id), (|user| + 98) / 99)
    requires Handlers.Made(config, events, |events|, messages)
    requires AllDeliver(Handed(events, messages, m, n, id), id, delivered)
    requires multiset(Arrived(calls, id)) == multiset(delivered) && SendToot(id, true) !in calls
    modifies manager, manager.Toots()
    ensures text == user <==> 0 !in user
    ensures 0 !in user ==> IsUtf8(user) && Writing.CutsBetween(user)
  {
    ghost var ws := Writes(config, events, m, n, id);
    Writing.ChunkCount(user);
    DeliveredIsWritten(config, events, messages, delivered, m, n, id, user);
    text := SendInWriteOrder(manager, calls, id, config, events, m, n);
    CarriedIsWhole(ws, user);
  }

  /** The elements delivered are the writes, in order, and those are the chunks of the text. */
  lemma DeliveredIsWritten(config: Runs.Config, events: seq<Runs.Event>, messages: seq<Option<Handlers.Message>>,
                           delivered: seq<Element>, m: nat, n: nat, id: nat, user: seq<byte>)
    requires n <= |events| && Runs.AllPossible(events) && config.minorMax <= U32_MAX && Lives(config, events, m, n, id)
    requires ChunksIn(events, m, n, id) == Writing.Chunks(user) && AllAdded(config, events, m, n, id)
    requires NoWrap(CountAt(config, events, m, id), |Writing.Chunks(user)|)
    requires Handlers.Made(config, events, |events|, messages)
    requires AllDeliver(Handed(events, messages, m, n, id), id, delivered)
    ensures var ws := Writes(config, events, m, n, id);
            && Sent(ws) == ws && AllCarried(ws, Writing.Chunks(user)) && delivered == ElementsOf(ws)
            && InOrder(CountAt(config, events, m, id), SentAt(ws))
  {
    hide Writes, ChunksIn, AllAdded, Writing.Chunks, Handed, AllDeliver, CStr, IsUtf8, SentAt, InOrder, NoWrap;
    var ws := Writes(config, events, m, n, id);
    ChunksAreWritten(config, events, m, n, id);
    AllSent(ws);
    MessagesDeliver(config, events, |events|, messages, m, n, id);
    DeliversOnce(Handed(events, messages, m, n, id), id, delivered, ElementsOf(ws));
    IncreasingIffNoWrap(config, events, m, n, id);
    SentInOrder(config, events, m, n, id);
  }

  lemma CarriedIsWhole(ws: seq<Write>, user: seq<byte>)
    requires AllCarried(ws, Writing.Chunks(user))
    ensures Assembly.Concat(ElementsOf(ws)) == user <==> 0 !in user
    ensures 0 !in user ==> IsUtf8(user) && Writing.CutsBetween(user)
  {
    hide CStr, IsUtf8, Writing.Chunks, Writing.Texts, Writing.CutsBetween;
    Writing.TextsOfChunks(user);
    ConcatIsJoined(ElementsOf(ws), Writing.Texts(user));
    Writing.TextsAreWhole(user);
    if 0 !in user {
      assert Writing.AllUtf8(Writing.Texts(user));
      Writing.TextsAreUtf8(user);
    }
  }

  /** The text of the run that wraps: what was written second comes first. */
  lemma WrappedTextIsOutOfOrder(sorted: seq<Element>)
    requires Assembly.Reordered(
      ElementsOf(Writes(Runs.Config(0, 0), TwoWrites(U32_MAX - 1, [0x61, 0], [0x62, 0]), 2, 5, 0)), sorted)
    ensures Assembly.Concat(sorted) == [0x62, 0x61]
  {
    IndicesCanWrap();
    hide Writes, Lives;
    var ws := Writes(Runs.Config(0, 0), TwoWrites(U32_MAX - 1, [0x61, 0], [0x62, 0]), 2, 5, 0);
    var swapped := [ElementsOf(ws)[1], ElementsOf(ws)[0]];
    assert ElementsOf(ws) == [ElementsOf(ws)[0], ElementsOf(ws)[1]];
    assert multiset(sorted) == multiset(swapped);
    Assembly.OnlyOneOrder(swapped, sorted);
    assert sorted[..1] == [sorted[0]] && sorted[..1][..0] == [];
    assert Assembly.Concat(sorted[..1]) == sorted[0].text;
  }
}

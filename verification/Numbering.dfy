/**
  The indices the driver hands out for the texts written to a toot, over any stretch of a run during
  which the toot is in the store. The count they start from is whatever the toot's memory held.
 */
module Numbering {
  import opened Bytes
  import opened Tables
  import opened Runs
  import opened Memory
  import opened Utf8

  /** A text the driver has numbered, and whether it was handed to the daemon. */
  datatype Write = Write(index: nat, text: seq<byte>, sent: bool)

  const WRAP: nat := 0x1_0000_0000

  /** What a step writes to a toot: nothing, or one text. */
  ghost function Written(t: Tables, e: Event, tootId: nat): (ws: seq<Write>)
    ensures |ws| <= 1
  {
    match e
    case AddTootElement(id, text, memory, sent) =>
      var added := AddedElement(t, id, memory).1;
      if id != tootId || added.None? then []
      else [Write(added.value.1, CStr(text), IsUtf8(CStr(text)) && sent)]
    case _ => []
  }

  /** What the steps from m to n write to a toot. */
  ghost function Writes(config: Config, events: seq<Event>, m: nat, n: nat, tootId: nat): seq<Write>
    requires n <= |events|
  {
    if n <= m then []
    else Writes(config, events, m, n - 1, tootId)
         + Written(After(config, events, n - 1), events[n - 1], tootId)
  }

  /** The toot is in the store from m to n. */
  ghost predicate Lives(config: Config, events: seq<Event>, m: nat, n: nat, tootId: nat)
    requires n <= |events|
  {
    m <= n && forall j :: m <= j <= n ==> tootId in After(config, events, j).toots
  }

  ghost function CountAt(config: Config, events: seq<Event>, n: nat, tootId: nat): nat
    requires n <= |events| && tootId in After(config, events, n).toots
  {
    After(config, events, n).toots[tootId].elementCount
  }

  /** A step that keeps a toot moves its count on exactly if it writes to it, and hands out the new count. */
  lemma StepCounts(t: Tables, config: Config, e: Event, tootId: nat)
    requires tootId in t.toots && tootId in Step(t, config, e).toots
    ensures var ws := Written(t, e, tootId);
            Step(t, config, e).toots[tootId].elementCount ==
              if ws == [] then t.toots[tootId].elementCount else ws[0].index
    ensures var ws := Written(t, e, tootId);
            ws != [] ==> ws[0].index == NextIndex(t.toots[tootId].elementCount)
  {
  }

  lemma NextIndexOf(total: nat)
    ensures NextIndex(total % WRAP) == (total + 1) % WRAP
  {
  }

  /** The k-th text written to a toot gets the index that lies k + 1 behind the count it started with, modulo 2^32. */
  lemma {:induction false} WritesAreNumbered(config: Config, events: seq<Event>, m: nat, n: nat, tootId: nat)
    requires n <= |events| && AllPossible(events) && config.minorMax <= U32_MAX
    requires Lives(config, events, m, n, tootId)
    ensures var c, ws := CountAt(config, events, m, tootId), Writes(config, events, m, n, tootId);
            && c < WRAP && CountAt(config, events, n, tootId) == (c + |ws|) % WRAP
            && forall k :: 0 <= k < |ws| ==> ws[k].index == (c + k + 1) % WRAP
    decreases n
  {
    hide Step, Written;
    RunIsConsistent(config, events, m);
    var c := CountAt(config, events, m, tootId);
    if m < n {
      WritesAreNumbered(config, events, m, n - 1, tootId);
      var before, w := After(config, events, n - 1), Writes(config, events, m, n - 1, tootId);
      assert tootId in before.toots && tootId in After(config, events, n).toots;
      StepCounts(before, config, events[n - 1], tootId);
      NextIndexOf(c + |w|);
      hide NextIndex;
    }
  }

  ghost predicate Increasing(ws: seq<Write>) {
    forall j, k :: 0 <= j < k < |ws| ==> ws[j].index < ws[k].index
  }

  /** The indices do not come back to zero between the first write and the last. */
  predicate NoWrap(count: nat, writes: nat) {
    writes <= 1 || count + writes < WRAP || (count == WRAP - 1 && writes <= WRAP)
  }

  /** Indices come out in write order exactly if they do not wrap on the way. */
  lemma IncreasingIffNoWrap(config: Config, events: seq<Event>, m: nat, n: nat, tootId: nat)
    requires n <= |events| && AllPossible(events) && config.minorMax <= U32_MAX
    requires Lives(config, events, m, n, tootId)
    ensures var ws := Writes(config, events, m, n, tootId);
            Increasing(ws) <==> NoWrap(CountAt(config, events, m, tootId), |ws|)
  {
    hide Writes, Increasing, NoWrap;
    WritesAreNumbered(config, events, m, n, tootId);
    NumbersIncrease(CountAt(config, events, m, tootId), Writes(config, events, m, n, tootId));
  }

  lemma NumbersIncrease(c: nat, ws: seq<Write>)
    requires c < WRAP && forall k :: 0 <= k < |ws| ==> ws[k].index == (c + k + 1) % WRAP
    ensures Increasing(ws) <==> NoWrap(c, |ws|)
  {
    if NoWrap(c, |ws|) {
      forall j, k | 0 <= j < k < |ws| ensures ws[j].index < ws[k].index {
        if c == WRAP - 1 {
          assert (c + j + 1) % WRAP == j && (c + k + 1) % WRAP == k;
        }
      }
    } else {
      // the index after the last one before 2^32 is zero
      var k := if c == WRAP - 1 then WRAP else WRAP - 1 - c;
      assert ws[k].index == (c + k + 1) % WRAP == 0;
      assert 0 < k && !(ws[k - 1].index < ws[k].index);
    }
  }

  // ----- The texts that are sent -----

  /** The writes that were sent, in the order they were written. */
  ghost function Sent(ws: seq<Write>): (r: seq<Write>) {
    if ws == [] then []
    else Sent(ws[..|ws| - 1]) + if ws[|ws| - 1].sent then [ws[|ws| - 1]] else []
  }

  /** Where they stand among all the writes. */
  function SentAt(ws: seq<Write>): (at: seq<nat>)
    ensures Ascending(at) && forall k :: 0 <= k < |at| ==> at[k] < |ws|
  {
    if ws == [] then []
    else SentAt(ws[..|ws| - 1]) + if ws[|ws| - 1].sent then [|ws| - 1] else []
  }

  predicate Ascending(at: seq<nat>) {
    forall j, k :: 0 <= j < k < |at| ==> at[j] < at[k]
  }

  lemma {:induction false} SentIsSentAt(ws: seq<Write>)
    ensures |Sent(ws)| == |SentAt(ws)|
    ensures forall k :: 0 <= k < |Sent(ws)| ==> Sent(ws)[k] == ws[SentAt(ws)[k]] && Sent(ws)[k].sent
  {
    if ws != [] {
      SentIsSentAt(ws[..|ws| - 1]);
    }
  }

  /** The index of the write at a position, for a toot that started with the given count. */
  function IndexAt(count: nat, position: nat): nat {
    (count + position + 1) % WRAP
  }

  /** How far the index moves on from one position to the next, full turns left out. */
  function Gap(at: seq<nat>, k: nat): nat
    requires 0 < k < |at|
  {
    (at[k] - at[k - 1]) % WRAP
  }

  /** And how far from the first position to the last. */
  function Travel(at: seq<nat>): nat {
    if |at| < 2 then 0 else Travel(at[..|at| - 1]) + Gap(at, |at| - 1)
  }

  /** The index does not pass zero between the first position and the last. */
  predicate NeverBehind(count: nat, at: seq<nat>) {
    at == [] || IndexAt(count, at[0]) + Travel(at) < WRAP
  }

  /** No two successive positions are full turns of the index apart. */
  predicate NoTurn(at: seq<nat>) {
    forall k :: 0 < k < |at| ==> Gap(at, k) != 0
  }

  /** The exact condition for the texts at the positions to have indices in order. */
  predicate InOrder(count: nat, at: seq<nat>) {
    NeverBehind(count, at) && NoTurn(at)
  }

  ghost predicate Rises(count: nat, at: seq<nat>) {
    forall j, k :: 0 <= j < k < |at| ==> IndexAt(count, at[j]) < IndexAt(count, at[k])
  }

  ghost predicate NeverFalls(count: nat, at: seq<nat>) {
    forall j, k :: 0 <= j < k < |at| ==> IndexAt(count, at[j]) <= IndexAt(count, at[k])
  }

  lemma IndexMoves(count: nat, p: nat, q: nat)
    requires p < q
    ensures var d := (q - p) % WRAP;
            IndexAt(count, q) == if IndexAt(count, p) + d < WRAP then IndexAt(count, p) + d
                                 else IndexAt(count, p) + d - WRAP
  {
  }

  /** Indices at ascending positions are in order, strictly or not, exactly under the conditions above. */
  lemma {:induction false} IndicesInOrder(count: nat, at: seq<nat>)
    requires Ascending(at)
    ensures NeverFalls(count, at) <==> NeverBehind(count, at)
    ensures Rises(count, at) <==> InOrder(count, at)
    ensures at != [] && NeverBehind(count, at) ==>
              IndexAt(count, at[|at| - 1]) == IndexAt(count, at[0]) + Travel(at)
  {
    if |at| >= 2 {
      var init, p, q := at[..|at| - 1], at[|at| - 2], at[|at| - 1];
      IndicesInOrder(count, init);
      IndexMoves(count, p, q);
      LastInOrder(count, at);
      TravelLast(at);
      assert 0 <= IndexAt(count, q) < WRAP && Gap(at, |at| - 1) == (q - p) % WRAP;
      hide IndexAt, Gap, Travel, Rises, NeverFalls, NoTurn, Ascending;
      assert init[0] == at[0] && init[|init| - 1] == p;
    }
  }

  lemma TravelLast(at: seq<nat>)
    requires |at| >= 2
    ensures Travel(at) == Travel(at[..|at| - 1]) + Gap(at, |at| - 1)
    ensures NoTurn(at) <==> NoTurn(at[..|at| - 1]) && Gap(at, |at| - 1) != 0
  {
    hide Gap;
    var init := at[..|at| - 1];
    forall k | 0 < k < |init| ensures Gap(init, k) == Gap(at, k) {
      GapInit(at, k);
    }
  }

  lemma GapInit(at: seq<nat>, k: nat)
    requires 0 < k < |at| - 1
    ensures Gap(at[..|at| - 1], k) == Gap(at, k)
  {
  }

  /** An order of all is an order of all but the last, and of the last two. */
  lemma LastInOrder(count: nat, at: seq<nat>)
    requires |at| >= 2
    ensures NeverFalls(count, at) <==>
              NeverFalls(count, at[..|at| - 1]) && IndexAt(count, at[|at| - 2]) <= IndexAt(count, at[|at| - 1])
    ensures Rises(count, at) <==>
              Rises(count, at[..|at| - 1]) && IndexAt(count, at[|at| - 2]) < IndexAt(count, at[|at| - 1])
  {
    hide IndexAt;
  }

  /** Less than 2^32 writes apart, that is to say that the indices from the first sent text to the last do not wrap. */
  lemma InOrderIffNoWrap(count: nat, at: seq<nat>)
    requires Ascending(at) && at != [] && at[|at| - 1] - at[0] < WRAP
    ensures NoTurn(at)
    ensures InOrder(count, at) <==> NoWrap((count + at[0]) % WRAP, at[|at| - 1] - at[0] + 1)
  {
    TravelShort(at);
    assert forall k :: 0 < k < |at| ==> Gap(at, k) != 0;
    hide Travel;
    var c, n := (count + at[0]) % WRAP, at[|at| - 1] - at[0];
    assert IndexAt(count, at[0]) == if c == WRAP - 1 then 0 else c + 1;
    assert NoWrap(c, n + 1) <==> IndexAt(count, at[0]) + n < WRAP;
  }

  lemma {:induction false} TravelShort(at: seq<nat>)
    requires Ascending(at) && at != [] && at[|at| - 1] - at[0] < WRAP
    ensures Travel(at) == at[|at| - 1] - at[0]
  {
    if |at| >= 2 {
      TravelShort(at[..|at| - 1]);
    }
  }

  /** The texts that are sent have increasing indices exactly if their positions say so. */
  lemma SentInOrder(config: Config, events: seq<Event>, m: nat, n: nat, tootId: nat)
    requires n <= |events| && AllPossible(events) && config.minorMax <= U32_MAX
    requires Lives(config, events, m, n, tootId)
    ensures var ws, c := Writes(config, events, m, n, tootId), CountAt(config, events, m, tootId);
            && (Increasing(Sent(ws)) <==> InOrder(c, SentAt(ws)))
            && (NonDecreasing(Sent(ws)) <==> NeverBehind(c, SentAt(ws)))
            && |Sent(ws)| == |SentAt(ws)|
            && forall k :: 0 <= k < |Sent(ws)| ==> Sent(ws)[k].index == IndexAt(c, SentAt(ws)[k])
  {
    hide Writes, Sent, SentAt, InOrder, NeverBehind;
    WritesAreNumbered(config, events, m, n, tootId);
    var c, ws := CountAt(config, events, m, tootId), Writes(config, events, m, n, tootId);
    SentIsSentAt(ws);
    var at := SentAt(ws);
    IndicesInOrder(c, at);
    assert forall k :: 0 <= k < |at| ==> Sent(ws)[k].index == IndexAt(c, at[k]);
    SameIndices(Sent(ws), c, at);
    hide Increasing, NonDecreasing, Rises, NeverFalls;
  }

  lemma SameIndices(ws: seq<Write>, count: nat, at: seq<nat>)
    requires |ws| == |at| && forall k :: 0 <= k < |at| ==> ws[k].index == IndexAt(count, at[k])
    ensures Increasing(ws) <==> Rises(count, at)
    ensures NonDecreasing(ws) <==> NeverFalls(count, at)
  {
    hide IndexAt;
  }

  ghost predicate NonDecreasing(ws: seq<Write>) {
    forall j, k :: 0 <= j < k < |ws| ==> ws[j].index <= ws[k].index
  }

  // ----- A toot that starts close to 2^32 -----

  /** One device, one toot with the given leftover count, opened, and two texts written to it. */
  function TwoWrites(leftover: nat, first: seq<byte>, second: seq<byte>): seq<Event> {
    OpeningRun(leftover)
    + [Event.AddTootElement(0, first, true, true), Event.AddTootElement(0, second, true, true)]
  }

  /** An open toot takes a text as long as there are ids. */
  lemma OpenTootTakes(t: Tables, config: Config, text: seq<byte>)
    requires t.devices == OneOpenToot(0).devices
    requires 0 in t.toots && t.toots[0].deviceId == 0 && t.toots[0].state == Opend
    requires t.elements.Keys <= {0}
    ensures var e := Event.AddTootElement(0, text, true, true);
            && |Written(t, e, 0)| == 1 && Written(t, e, 0)[0].text == CStr(text)
            && var after := Step(t, config, e);
               && after.devices == t.devices && after.toots == t.toots[0 := after.toots[0]]
               && after.toots[0].deviceId == 0 && after.toots[0].state == Opend
               && (t.elements == map[] ==> after.elements.Keys <= {0})
  {
    hide CStr, IsUtf8;
  }

  lemma AnswersWriteNothing(t: Tables, e: Event)
    requires e.CreateTootResult?
    ensures Written(t, e, 0) == []
  {
  }

  /** The two texts of such a run, and the toot's life from its creation on. */
  lemma TwoWritesAreNumbered(leftover: nat, first: seq<byte>, second: seq<byte>)
    requires leftover <= U32_MAX
    ensures var config, events := Config(0, 0), TwoWrites(leftover, first, second);
            && Lives(config, events, 2, 5, 0) && CountAt(config, events, 2, 0) == leftover
            && var ws := Writes(config, events, 2, 5, 0);
               |ws| == 2 && ws[0].text == CStr(first) && ws[1].text == CStr(second)
  {
    hide Step, CStr, Written;
    var config, events := Config(0, 0), TwoWrites(leftover, first, second);
    OpeningRunOpens(leftover, events[3..]);
    assert events == OpeningRun(leftover) + events[3..];
    var t3, t4 := After(config, events, 3), After(config, events, 4);
    OpenTootTakes(t3, config, first);
    assert t4 == Step(t3, config, events[3]);
    OpenTootTakes(t4, config, second);
    assert After(config, events, 5) == Step(t4, config, events[4]);
    var w3, w4 := Written(t3, events[3], 0), Written(t4, events[4], 0);
    AnswersWriteNothing(After(config, events, 2), events[2]);
    assert Writes(config, events, 2, 3, 0) == [];
    assert Writes(config, events, 2, 4, 0) == w3;
    assert Writes(config, events, 2, 5, 0) == w3 + w4;
  }

  /** With a leftover count just below 2^32, the second of two texts gets the smaller index. */
  lemma IndicesCanWrap()
    ensures var config, events := Config(0, 0), TwoWrites(U32_MAX - 1, [0x61, 0], [0x62, 0]);
            && AllPossible(events) && Lives(config, events, 2, 5, 0)
            && var ws := Writes(config, events, 2, 5, 0);
               && |ws| == 2 && ws[0].index == U32_MAX && ws[1].index == 0
               && ws[0].text == [0x61] && ws[1].text == [0x62]
  {
    var config, events := Config(0, 0), TwoWrites(U32_MAX - 1, [0x61, 0], [0x62, 0]);
    assert CStr([0x61, 0]) == [0x61] && CStr([0x62, 0]) == [0x62];
    assert AllPossible(events);
    hide Writes, Lives, CountAt, After, CStr, TwoWrites;
    TwoWritesAreNumbered(U32_MAX - 1, [0x61, 0], [0x62, 0]);
    WritesAreNumbered(config, events, 2, 5, 0);
    var c, ws := CountAt(config, events, 2, 0), Writes(config, events, 2, 5, 0);
    assert ws[0].index == (c + 1) % WRAP && ws[1].index == (c + 2) % WRAP;
  }
}

/**
  mpack_track_t as the writer uses it, and what it guarantees: whatever calls are made, as long as no
  error is flagged, the bytes so far and the open elements together say exactly which bytes may follow.
 */
module Tracking {
  import opened Bytes
  import opened Options
  import opened Tags
  import opened Decoder

  datatype OpenKind = OpenStr | OpenBin | OpenArray | OpenMap

  /** mpack_track_element_t: an open element, and the bytes or objects left in it. */
  datatype Open = Open(kind: OpenKind, left: nat)

  predicate IsContainer(kind: OpenKind) {
    kind == OpenArray || kind == OpenMap
  }

  /** The element a start function opens. */
  function OpenFor(tag: Tag): Option<Open> {
    match tag
    case Str(l) => Some(Open(OpenStr, l))
    case Bin(l) => Some(Open(OpenBin, l))
    case Array(n) => Some(Open(OpenArray, n))
    case Map(n) => Some(Open(OpenMap, 2 * n))
    case _ => None
  }

  /** mpack_track_element, None for an error. */
  function TrackElement(track: seq<Open>): (r: Option<seq<Open>>)
    ensures r.Some? ==> |r.value| == |track|
  {
    if track == [] then Some(track)
    else
      var top := track[|track| - 1];
      if !IsContainer(top.kind) || top.left == 0 then None
      else Some(track[|track| - 1 := top.(left := top.left - 1)])
  }

  /** mpack_track_push for a tag that opens an element; other tags leave the track alone. */
  function TrackPush(track: seq<Open>, tag: Tag): seq<Open> {
    if OpenFor(tag).Some? then track + [OpenFor(tag).value] else track
  }

  /** mpack_track_bytes. */
  function TrackBytes(track: seq<Open>, count: nat): Option<seq<Open>> {
    if track == [] then None
    else
      var top := track[|track| - 1];
      if IsContainer(top.kind) || top.left < count then None
      else Some(track[|track| - 1 := top.(left := top.left - count)])
  }

  /** mpack_track_pop. */
  function TrackPop(track: seq<Open>, kind: OpenKind): Option<seq<Open>> {
    if track == [] then None
    else
      var top := track[|track| - 1];
      if top.kind != kind || top.left != 0 then None else Some(track[..|track| - 1])
  }

  // ----- Runs of the writer -----

  /** What the writer has put out, and what is open. */
  datatype Stage = Stage(out: seq<byte>, track: seq<Open>)

  /** The calls of the writer: a tag (a scalar, or the start of something), payload bytes, a finish, a whole string. */
  datatype Call = WriteTag(tag: Tag) | WriteBytes(p: seq<byte>) | Finish(kind: OpenKind) | WriteStr(text: seq<byte>)

  predicate Callable(call: Call) {
    match call
    case WriteTag(tag) => InRange(tag)
    case WriteStr(text) => |text| <= U32_MAX
    case _ => true
  }

  /** The effect of a call, None when it flags an error. */
  function Apply(stage: Stage, call: Call): Option<Stage>
    requires Callable(call)
  {
    match call
    case WriteTag(tag) =>
      var track := TrackElement(stage.track);
      if track.None? then None else Some(Stage(stage.out + EncodeTag(tag), TrackPush(track.value, tag)))
    case WriteBytes(p) =>
      var track := TrackBytes(stage.track, |p|);
      if track.None? then None else Some(Stage(stage.out + p, track.value))
    case Finish(kind) =>
      var track := TrackPop(stage.track, kind);
      if track.None? then None else Some(Stage(stage.out, track.value))
    case WriteStr(text) =>
      var track := TrackElement(stage.track);
      if track.None? then None else Some(Stage(stage.out + (EncodeTag(Str(|text|)) + text), track.value))
  }

  ghost predicate AllCallable(calls: seq<Call>) {
    forall k :: 0 <= k < |calls| ==> Callable(calls[k])
  }

  /** A run of calls from a fresh writer. */
  ghost function Run(calls: seq<Call>): Option<Stage>
    requires AllCallable(calls)
  {
    if calls == [] then Some(Stage([], []))
    else
      var before := Run(calls[..|calls| - 1]);
      if before.None? then None else Apply(before.value, calls[|calls| - 1])
  }

  // ----- What may follow -----

  /** From pos on, data is a concatenation of complete objects. */
  ghost predicate Objects(data: seq<byte>, pos: nat)
    decreases |data| - pos
  {
    pos == |data| || (Decode(data, pos).Got? && Objects(data, Decode(data, pos).next))
  }

  /** From pos on, data supplies what the open elements lack, innermost first, and then complete objects. */
  ghost predicate Supplies(track: seq<Open>, data: seq<byte>, pos: nat) {
    if track == [] then Objects(data, pos)
    else
      var top, outer := track[|track| - 1], track[..|track| - 1];
      if IsContainer(top.kind) then
        pos <= |data| && DecodeAll(data, pos, top.left).GotAll?
        && Supplies(outer, data, DecodeAll(data, pos, top.left).next)
      else
        pos + top.left <= |data| && Supplies(outer, data, pos + top.left)
  }

  /** However the bytes go on, they become complete objects exactly if the open elements are supplied. */
  ghost predicate Outstanding(out: seq<byte>, track: seq<Open>) {
    forall data {:trigger Objects(data, 0)} :: out <= data ==> (Objects(data, 0) <==> Supplies(track, data, |out|))
  }

  lemma PrefixAt(out: seq<byte>, e: seq<byte>, data: seq<byte>)
    requires out + e <= data
    ensures out <= data && At(data, |out|, e)
  {
    assert data[..|out + e|] == out + e;
    assert data[|out|..|out| + |e|] == (out + e)[|out|..];
    assert data[..|out|] == (out + e)[..|out|];
  }

  /** An object, of whatever tag, takes one from the objects the innermost container lacks. */
  lemma ElementSupplies(track: seq<Open>, data: seq<byte>, pos: nat)
    requires pos <= |data| && TrackElement(track).Some?
    requires track == [] ==> pos < |data|
    ensures Supplies(track, data, pos)
       <==> Decode(data, pos).Got? && Supplies(TrackElement(track).value, data, Decode(data, pos).next)
  {
    if track != [] {
      var top, after := track[|track| - 1], TrackElement(track).value;
      assert after[..|track| - 1] == track[..|track| - 1];
      if Decode(data, pos).Got? {
        DecodeAllCons(data, pos, top.left);
      } else {
        DecodeAllNone(data, pos, top.left);
      }
    }
  }

  /** Behind a tag, what is lacking is what the tag announces, and then what was lacking without the object. */
  lemma TagSupplies(track: seq<Open>, tag: Tag, data: seq<byte>, pos: nat)
    requires InRange(tag) && At(data, pos, EncodeTag(tag)) && TrackElement(track).Some?
    ensures Supplies(track, data, pos)
       <==> Supplies(TrackPush(TrackElement(track).value, tag), data, pos + |EncodeTag(tag)|)
  {
    hide ReadHead, EncodeTag, TrackElement, DecodeAll;
    var after := TrackElement(track).value;
    var body := pos + |EncodeTag(tag)|;
    TagRoundTrip(data, pos, tag);
    ElementSupplies(track, data, pos);
    assert DecodeAll(data, body, 0) == GotAll([], body) by {
      assert body <= |data|;
      DecodeNothing(data, body);
    }
    if body + PayloadSize(tag) <= |data| {
      DecodeNothing(data, body + PayloadSize(tag));
    }
    if OpenFor(tag).Some? {
      assert TrackPush(after, tag)[..|after|] == after;
    }
  }

  lemma TagOutstanding(out: seq<byte>, track: seq<Open>, tag: Tag)
    requires InRange(tag) && TrackElement(track).Some? && Outstanding(out, track)
    ensures Outstanding(out + EncodeTag(tag), TrackPush(TrackElement(track).value, tag))
  {
    hide EncodeTag, TrackElement, TrackPush, Objects, Supplies;
    var e := EncodeTag(tag);
    forall data | out + e <= data
      ensures Objects(data, 0) <==> Supplies(TrackPush(TrackElement(track).value, tag), data, |out + e|)
    {
      PrefixAt(out, e, data);
      TagSupplies(track, tag, data, |out|);
    }
  }

  lemma BytesOutstanding(out: seq<byte>, track: seq<Open>, p: seq<byte>)
    requires TrackBytes(track, |p|).Some? && Outstanding(out, track)
    ensures Outstanding(out + p, TrackBytes(track, |p|).value)
  {
    hide Objects;
    var after := TrackBytes(track, |p|).value;
    assert after[..|track| - 1] == track[..|track| - 1];
    forall data | out + p <= data ensures Objects(data, 0) <==> Supplies(after, data, |out + p|) {
      PrefixAt(out, p, data);
    }
  }

  lemma FinishOutstanding(out: seq<byte>, track: seq<Open>, kind: OpenKind)
    requires TrackPop(track, kind).Some? && Outstanding(out, track)
    ensures Outstanding(out, TrackPop(track, kind).value)
  {
    hide Objects;
    forall data | out <= data ensures Objects(data, 0) <==> Supplies(TrackPop(track, kind).value, data, |out|) {
      DecodeNothing(data, |out|);
    }
  }

  lemma StrOutstanding(out: seq<byte>, track: seq<Open>, text: seq<byte>)
    requires |text| <= U32_MAX && TrackElement(track).Some? && Outstanding(out, track)
    ensures Outstanding(out + (EncodeTag(Str(|text|)) + text), TrackElement(track).value)
  {
    hide EncodeTag, TrackElement, Outstanding;
    var after, tag := TrackElement(track).value, Str(|text|);
    TagOutstanding(out, track, tag);
    var pushed := after + [Open(OpenStr, |text|)];
    BytesOutstanding(out + EncodeTag(tag), pushed, text);
    var full := TrackBytes(pushed, |text|).value;
    FinishOutstanding(out + EncodeTag(tag) + text, full, OpenStr);
    assert full[..|after|] == after;
    assert out + (EncodeTag(tag) + text) == out + EncodeTag(tag) + text;
  }

  lemma ApplyOutstanding(stage: Stage, call: Call)
    requires Callable(call) && Outstanding(stage.out, stage.track) && Apply(stage, call).Some?
    ensures Outstanding(Apply(stage, call).value.out, Apply(stage, call).value.track)
  {
    hide EncodeTag, Outstanding, TrackElement, TrackPush, TrackBytes, TrackPop;
    match call {
      case WriteTag(tag) => TagOutstanding(stage.out, stage.track, tag);
      case WriteBytes(p) => BytesOutstanding(stage.out, stage.track, p);
      case Finish(kind) => FinishOutstanding(stage.out, stage.track, kind);
      case WriteStr(text) => StrOutstanding(stage.out, stage.track, text);
    }
  }

  /** Over any run without an error, the open elements are exactly the outstanding obligation. */
  lemma {:induction false} RunOutstanding(calls: seq<Call>)
    requires AllCallable(calls) && Run(calls).Some?
    ensures Outstanding(Run(calls).value.out, Run(calls).value.track)
  {
    if calls == [] {
    } else {
      var before := calls[..|calls| - 1];
      RunOutstanding(before);
      ApplyOutstanding(Run(before).value, calls[|calls| - 1]);
    }
  }

  /** No open element lacks anything, though it may not have been closed. */
  predicate NothingLacks(track: seq<Open>) {
    forall k :: 0 <= k < |track| ==> track[k].left == 0
  }

  /** The end of the data supplies what is lacking exactly if nothing is. */
  lemma {:induction false} EndSupplies(track: seq<Open>, data: seq<byte>)
    ensures Supplies(track, data, |data|) <==> NothingLacks(track)
  {
    if track != [] {
      var top, outer := track[|track| - 1], track[..|track| - 1];
      EndSupplies(outer, data);
      DecodeNothing(data, |data|);
      assert NothingLacks(track) <==> NothingLacks(outer) && top.left == 0;
    }
  }

  /** A run without an error has put out complete objects and nothing else exactly if no open element lacks anything. */
  lemma RunIsWellFormed(calls: seq<Call>)
    requires AllCallable(calls) && Run(calls).Some?
    ensures Objects(Run(calls).value.out, 0) <==> NothingLacks(Run(calls).value.track)
  {
    hide Objects, Supplies, NothingLacks;
    RunOutstanding(calls);
    var stage := Run(calls).value;
    EndSupplies(stage.track, stage.out);
    assert stage.out <= stage.out;
  }

  /** An array that is announced and left alone flags no error and is no object. */
  lemma AnnouncedOnly()
    ensures var calls := [Call.WriteTag(Array(1))];
            && AllCallable(calls) && Run(calls) == Some(Stage([0x91], [Open(OpenArray, 1)]))
            && !Objects([0x91], 0)
  {
    var calls := [Call.WriteTag(Array(1))];
    assert calls[..0] == [];
    assert Run(calls[..0]) == Some(Stage([], []));
    assert EncodeTag(Array(1)) == [0x91];
    assert [] + EncodeTag(Array(1)) == [0x91] && [] + [Open(OpenArray, 1)] == [Open(OpenArray, 1)];
    assert Apply(Stage([], []), Call.WriteTag(Array(1))) == Some(Stage([0x91], [Open(OpenArray, 1)]));
    assert Run(calls) == Apply(Stage([], []), calls[0]);
    RunIsWellFormed(calls);
  }
}

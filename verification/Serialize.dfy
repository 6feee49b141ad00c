/** The messages the driver sends: the serialize functions of serializer.c over a fixed buffer. */
module Serialize {
  import opened Bytes
  import opened Options
  import opened Tags
  import opened Decoder
  import opened Parser
  import opened Tree
  import opened Tracking
  import opened Writer
  import opened Memory
  import opened Utf8
  import Deserialize

  // ----- The messages as values -----

  /** NEW_TOOT and SEND_TOOT carry the same two ids. */
  function TootMessage(tootId: nat, deviceId: nat): Value {
    ArrayV([UintV(tootId), UintV(deviceId)])
  }

  function HealthMessage(deviceId: nat, status: bool): Value {
    ArrayV([UintV(deviceId), BoolV(status)])
  }

  /** CREATE_DEVICE_RESULT and DESTROY_DEVICE_RESULT carry one id. */
  function IdMessage(id: nat): Value {
    ArrayV([UintV(id)])
  }

  function TextOrNil(text: Option<seq<byte>>): Value {
    if text.Some? then StrV(CStr(text.value)) else NilV
  }

  function ElementMessage(tootId: nat, deviceId: nat, elementId: nat, index: nat, text: Option<seq<byte>>): Value {
    ArrayV([UintV(tootId), UintV(deviceId), UintV(elementId), UintV(index), TextOrNil(text)])
  }

  // ----- What a receiver reads -----

  /** Whatever follows them, the bytes are read as an array of exactly the fields, and no more of the data is. */
  ghost predicate Reads(bytes: seq<byte>, fields: seq<Value>) {
    forall rest :: Decode(bytes + rest, 0) == Got(ArrayV(fields), |bytes|)
  }

  /** A value of the kinds that come back as they are. */
  predicate Plain(v: Value) {
    v.NilV? || v.BoolV? || v.UintV? || v.StrV?
  }

  lemma EncodedReads(m: Value)
    requires Storable(m) && m.ArrayV? && forall k :: 0 <= k < |m.items| ==> Plain(m.items[k])
    ensures Reads(Encode(m), m.items)
  {
    hide Decode, Encode, Storable;
    assert NormalAll(m.items) == m.items;
    forall rest {
      Deserialize.FirstMessage(m, rest, 1, 1);
    }
  }

  lemma {:induction false} EncodeAllLast(vs: seq<Value>, v: Value)
    requires AllStorable(vs) && Storable(v)
    ensures AllStorable(vs + [v]) && EncodeAll(vs + [v]) == EncodeAll(vs) + Encode(v)
  {
    hide Encode, Storable;
    if vs == [] {
      assert vs + [v] == [v];
      assert [v][1..] == [];
    } else {
      assert (vs + [v])[1..] == vs[1..] + [v];
      EncodeAllLast(vs[1..], v);
    }
  }

  // ----- Serializing -----

  /** A writer over the buffer, with an array of n elements started. */
  method Begin(buffer: array<byte>, n: nat) returns (w: Writer)
    requires n <= U32_MAX
    modifies buffer
    ensures fresh(w) && Writing(w, buffer, Array(n), [])
  {
    w := new Writer.Init(buffer, NoFlush, false);
    w.StartArray(n);
  }

  /** The writer has put the tag and the values into the buffer, or they are too long for it. */
  ghost predicate Writing(w: Writer, buffer: array<byte>, tag: Tag, vs: seq<Value>)
    reads w, buffer
    requires InRange(tag)
  {
    && w.Valid() && w.flush == NoFlush && !w.tracking && w.buffer == buffer
    && AllStorable(vs)
    && var e := EncodeTag(tag) + EncodeAll(vs);
       && (w.error == Ok <==> |e| <= buffer.Length)
       && (w.error == Ok ==> w.Out() == e)
  }

  method AddU32(w: Writer, ghost tag: Tag, ghost vs: seq<Value>, u: nat)
    requires InRange(tag) && Writing(w, w.buffer, tag, vs) && u <= U32_MAX
    modifies w, w.buffer
    ensures w.buffer == old(w.buffer) && Writing(w, w.buffer, tag, vs + [UintV(u)])
  {
    hide EncodeTag;
    w.WriteU32(u);
    EncodeAllLast(vs, UintV(u));
    Appends(tag, vs, UintV(u));
  }

  lemma Appends(tag: Tag, vs: seq<Value>, v: Value)
    requires InRange(tag) && AllStorable(vs) && Storable(v)
    requires Items(v) == []
    ensures AllStorable(vs + [v])
    ensures EncodeTag(tag) + EncodeAll(vs + [v]) == EncodeTag(tag) + EncodeAll(vs) + (EncodeTag(TagOf(v)) + Payload(v))
  {
    hide EncodeTag;
    EncodeAllLast(vs, v);
    assert EncodeAll([]) == [];
    assert EncodeTag(TagOf(v)) + [] == EncodeTag(TagOf(v));
  }

  /** mpack_finish_array and mpack_writer_destroy: what was written stands at the start of the buffer. */
  method End(w: Writer) returns (ok: bool, used: nat)
    requires w.Valid() && w.flush == NoFlush && !w.tracking
    modifies w, w.buffer
    ensures ok <==> old(w.error) == Ok
    ensures ok ==> used == |old(w.Out())| <= old(w.buffer).Length && old(w.buffer)[..used] == old(w.Out())
  {
    w.Finish(OpenArray);
    var result := w.Destroy();
    ok, used := result == Ok, w.current;
  }

  /** The bytes of a message are its array tag and its elements. */
  lemma MessageBytes(m: Value)
    requires Storable(m) && m.ArrayV?
    ensures Encode(m) == EncodeTag(Array(|m.items|)) + EncodeAll(m.items)
  {
  }

  /** serialize_new_toot, and serialize_send_toot, which writes the same. */
  method NewToot(tootId: nat, deviceId: nat, buffer: array<byte>) returns (ok: bool, used: nat)
    requires tootId <= U32_MAX && deviceId <= U32_MAX
    modifies buffer
    ensures Storable(TootMessage(tootId, deviceId))
    ensures var e := Encode(TootMessage(tootId, deviceId));
            (ok <==> |e| <= buffer.Length) && (ok ==> used == |e| && buffer[..used] == e)
    ensures ok ==> used <= buffer.Length && Reads(buffer[..used], [UintV(tootId), UintV(deviceId)])
  {
    hide Encode, EncodeAll, EncodeTag, Reads;
    ghost var m := TootMessage(tootId, deviceId);
    var w := Begin(buffer, 2);
    AddU32(w, Array(2), [], tootId);
    assert [] + [UintV(tootId)] == [UintV(tootId)];
    AddU32(w, Array(2), [UintV(tootId)], deviceId);
    assert [UintV(tootId)] + [UintV(deviceId)] == m.items;
    MessageBytes(m);
    EncodedReads(m);
    ok, used := End(w);
  }

  /** serialize_create_device_result. */
  method CreateDeviceResult(id: nat, buffer: array<byte>) returns (ok: bool, used: nat)
    requires id <= U32_MAX
    modifies buffer
    ensures Storable(IdMessage(id))
    ensures var e := Encode(IdMessage(id));
            (ok <==> |e| <= buffer.Length) && (ok ==> used == |e| && buffer[..used] == e)
    ensures ok ==> used <= buffer.Length && Reads(buffer[..used], [UintV(id)])
  {
    hide Encode, EncodeAll, EncodeTag, Reads;
    ghost var m := IdMessage(id);
    var w := Begin(buffer, 1);
    AddU32(w, Array(1), [], id);
    assert [] + [UintV(id)] == m.items;
    MessageBytes(m);
    EncodedReads(m);
    ok, used := End(w);
  }

  /** serialize_destroy_device_result: a writer error is returned as -1, which a bool takes for true. */
  method DestroyDeviceResult(id: nat, buffer: array<byte>, oldUsed: nat) returns (ok: bool, used: nat)
    requires id <= U32_MAX
    modifies buffer
    ensures ok && Storable(IdMessage(id))
    ensures var e := Encode(IdMessage(id));
            if |e| <= buffer.Length then used == |e| && buffer[..used] == e else used == oldUsed
    ensures |Encode(IdMessage(id))| <= buffer.Length ==> used <= buffer.Length && Reads(buffer[..used], [UintV(id)])
  {
    hide Reads, Encode;
    var written;
    written, used := CreateDeviceResult(id, buffer);
    if !written {
      return true, oldUsed;
    }
    ok := true;
  }

  /** serialize_get_health_result. */
  method GetHealthResult(deviceId: nat, status: bool, buffer: array<byte>) returns (ok: bool, used: nat)
    requires deviceId <= U32_MAX
    modifies buffer
    ensures Storable(HealthMessage(deviceId, status))
    ensures var e := Encode(HealthMessage(deviceId, status));
            (ok <==> |e| <= buffer.Length) && (ok ==> used == |e| && buffer[..used] == e)
    ensures ok ==> used <= buffer.Length && Reads(buffer[..used], [UintV(deviceId), BoolV(status)])
  {
    hide Encode, EncodeAll, EncodeTag, Reads;
    ghost var m := HealthMessage(deviceId, status);
    var w := Begin(buffer, 2);
    AddU32(w, Array(2), [], deviceId);
    assert [] + [UintV(deviceId)] == [UintV(deviceId)];
    w.WriteBool(status);
    Appends(Array(2), [UintV(deviceId)], BoolV(status));
    assert [UintV(deviceId)] + [BoolV(status)] == m.items;
    assert EncodeTag(Bool(status)) + [] == EncodeTag(Bool(status));
    MessageBytes(m);
    EncodedReads(m);
    ok, used := End(w);
  }

  /** The text of an element can be sent: it is absent, or a C string of UTF-8. */
  ghost predicate Sendable(text: Option<seq<byte>>) {
    text.Some? ==> |CStr(text.value)| <= U32_MAX && IsUtf8(CStr(text.value))
  }

  /** serialize_add_toot_element. */
  method AddTootElement(tootId: nat, deviceId: nat, elementId: nat, index: nat, text: Option<seq<byte>>,
                        buffer: array<byte>)
    returns (ok: bool, used: nat)
    requires tootId <= U32_MAX && deviceId <= U32_MAX && elementId <= U32_MAX && index <= U32_MAX
    requires text.Some? ==> 0 in text.value
    modifies buffer
    ensures Sendable(text) ==> Storable(ElementMessage(tootId, deviceId, elementId, index, text))
    ensures ok <==> Sendable(text)
                    && |Encode(ElementMessage(tootId, deviceId, elementId, index, text))| <= buffer.Length
    ensures ok ==> var e := Encode(ElementMessage(tootId, deviceId, elementId, index, text));
                   used == |e| && buffer[..used] == e
    ensures ok ==> var said := if text.Some? then StrV(CStr(text.value)) else NilV;
                   var fields := [UintV(tootId), UintV(deviceId), UintV(elementId), UintV(index), said];
                   used <= buffer.Length && Reads(buffer[..used], fields)
  {
    hide Encode, EncodeAll, EncodeTag, IsUtf8, CStr, Reads;
    ghost var m := ElementMessage(tootId, deviceId, elementId, index, text);
    ghost var ids := [UintV(tootId), UintV(deviceId), UintV(elementId), UintV(index)];
    var w := AddIds(tootId, deviceId, elementId, index, buffer);
    w.WriteUtf8CstrOrNil(text);
    if Sendable(text) {
      Appends(Array(5), ids, TextOrNil(text));
      assert ids + [TextOrNil(text)] == m.items;
      assert EncodeTag(Nil) + [] == EncodeTag(Nil);
      MessageBytes(m);
      EncodedReads(m);
    }
    ok, used := End(w);
  }

  /** The first four elements of the message. */
  method AddIds(tootId: nat, deviceId: nat, elementId: nat, index: nat, buffer: array<byte>) returns (w: Writer)
    requires tootId <= U32_MAX && deviceId <= U32_MAX && elementId <= U32_MAX && index <= U32_MAX
    modifies buffer
    ensures fresh(w)
    ensures Writing(w, buffer, Array(5), [UintV(tootId), UintV(deviceId), UintV(elementId), UintV(index)])
  {
    hide Encode, EncodeAll, EncodeTag;
    w := Begin(buffer, 5);
    AddU32(w, Array(5), [], tootId);
    assert [] + [UintV(tootId)] == [UintV(tootId)];
    AddU32(w, Array(5), [UintV(tootId)], deviceId);
    assert [UintV(tootId)] + [UintV(deviceId)] == [UintV(tootId), UintV(deviceId)];
    AddU32(w, Array(5), [UintV(tootId), UintV(deviceId)], elementId);
    assert [UintV(tootId), UintV(deviceId)] + [UintV(elementId)] == [UintV(tootId), UintV(deviceId), UintV(elementId)];
    AddU32(w, Array(5), [UintV(tootId), UintV(deviceId), UintV(elementId)], index);
    assert [UintV(tootId), UintV(deviceId), UintV(elementId)] + [UintV(index)]
        == [UintV(tootId), UintV(deviceId), UintV(elementId), UintV(index)];
  }

  // ----- The buffers of the handlers are large enough, or not -----

  /** The buffers of the handlers: 200 bytes for an element, 10 for everything else. */
  const ELEMENT_BUFFER: nat := 200
  const SMALL_BUFFER: nat := 10

  lemma EncodeAllLength(vs: seq<Value>, v: Value)
    requires AllStorable(vs + [v])
    ensures AllStorable(vs) && Storable(v) && |EncodeAll(vs + [v])| == |EncodeAll(vs)| + |Encode(v)|
  {
    AllStorableElements(vs + [v]);
    assert forall k :: 0 <= k < |vs| ==> vs[k] == (vs + [v])[k];
    assert v == (vs + [v])[|vs|];
    AllStorableElements(vs);
    EncodeAllLast(vs, v);
  }

  lemma PairLength(v: Value, w: Value)
    requires Storable(v) && Storable(w)
    ensures AllStorable([v, w]) && |EncodeAll([v, w])| == |Encode(v)| + |Encode(w)|
  {
    hide Encode;
    AllStorableElements([v, w]);
    assert [v] + [w] == [v, w] && [] + [v] == [v];
    EncodeAllLength([v], w);
    EncodeAllLength([], v);
  }

  lemma HealthMessageFits(deviceId: nat, status: bool)
    requires deviceId <= U32_MAX
    ensures Storable(HealthMessage(deviceId, status)) && |Encode(HealthMessage(deviceId, status))| <= 10
  {
    hide EncodeAll;
    PairLength(UintV(deviceId), BoolV(status));
    MessageBytes(HealthMessage(deviceId, status));
  }

  /** A toot's announcement outgrows its buffer exactly when neither id fits 16 bits. */
  lemma TootMessageFits(tootId: nat, deviceId: nat)
    requires tootId <= U32_MAX && deviceId <= U32_MAX
    ensures Storable(TootMessage(tootId, deviceId))
    ensures |Encode(TootMessage(tootId, deviceId))| > 10 <==> tootId > 0xffff && deviceId > 0xffff
  {
    hide EncodeAll;
    PairLength(UintV(tootId), UintV(deviceId));
    MessageBytes(TootMessage(tootId, deviceId));
  }

  /** An element whose text has at most 177 bytes fits its buffer, whatever the ids and the index. */
  lemma ElementMessageFits(tootId: nat, deviceId: nat, elementId: nat, index: nat, text: Option<seq<byte>>)
    requires tootId <= U32_MAX && deviceId <= U32_MAX && elementId <= U32_MAX && index <= U32_MAX
    requires text.Some? ==> |CStr(text.value)| <= 177
    ensures Storable(ElementMessage(tootId, deviceId, elementId, index, text))
    ensures |Encode(ElementMessage(tootId, deviceId, elementId, index, text))| <= 200
  {
    hide Encode, EncodeAll, EncodeTag, CStr;
    var m := ElementMessage(tootId, deviceId, elementId, index, text);
    var two, three := [UintV(tootId), UintV(deviceId)], [UintV(tootId), UintV(deviceId), UintV(elementId)];
    var v := TextOrNil(text);
    PairLength(UintV(tootId), UintV(deviceId));
    EncodeAllAppend(two, UintV(elementId), three);
    EncodeAllAppend(three, UintV(index), three + [UintV(index)]);
    EncodeAllAppend(three + [UintV(index)], v, m.items);
    MessageBytes(m);
    SmallEncodings(tootId, v);
    SmallEncodings(deviceId, v);
    SmallEncodings(elementId, v);
    SmallEncodings(index, v);
  }

  lemma EncodeAllAppend(vs: seq<Value>, v: Value, longer: seq<Value>)
    requires AllStorable(vs) && Storable(v) && longer == vs + [v]
    ensures AllStorable(longer) && |EncodeAll(longer)| == |EncodeAll(vs)| + |Encode(v)|
  {
    hide Encode;
    EncodeAllLast(vs, v);
  }

  /** A 32-bit number takes at most five bytes, a text of at most 177 at most two more than it has. */
  lemma SmallEncodings(u: nat, v: Value)
    requires u <= U32_MAX && (v == NilV || (v.StrV? && |v.text| <= 177))
    ensures |Encode(UintV(u))| <= 5 && |Encode(v)| <= 179 && |EncodeTag(Array(5))| == 1
  {
  }

  /** The driver's own case: the 100 bytes toot_write clears and fills, at most 99 of them text. */
  method SerializeChunk(tootId: nat, deviceId: nat, elementId: nat, index: nat, memory: seq<byte>, buffer: array<byte>)
    returns (ok: bool, used: nat)
    requires tootId <= U32_MAX && deviceId <= U32_MAX && elementId <= U32_MAX && index <= U32_MAX
    requires 0 in memory && |memory| <= 100 && buffer.Length == ELEMENT_BUFFER
    modifies buffer
    ensures ok <==> IsUtf8(CStr(memory))
  {
    CStrShorter(memory);
    ElementMessageFits(tootId, deviceId, elementId, index, Some(memory));
    ok, used := AddTootElement(tootId, deviceId, elementId, index, Some(memory), buffer);
  }

  // ----- Writing any value, and parsing it back -----

  /** A value as the calls of the writer that put it out. */
  method WriteValue(w: Writer, v: Value)
    requires w.Valid() && Storable(v)
    modifies w, w.buffer
    ensures w.Appended(Encode(v))
    decreases v, 1
  {
    hide EncodeTag, Encode;
    EncodeParts(v);
    match v {
      case NilV => w.WriteNil();
      case BoolV(b) => w.WriteBool(b);
      case IntV(i) => w.WriteI64(i);
      case UintV(u) => w.WriteU64(u);
      case StrV(text) => w.WriteStr(text);
      case BinV(blob) => w.WriteBin(blob);
      case ArrayV(items) =>
        w.StartArray(|items|);
        WriteValues(w, items);
        w.Finish(OpenArray);
        Regroup(old(w.Out()), EncodeTag(TagOf(v)), EncodeAll(items));
      case MapV(pairs) =>
        w.StartMap(|pairs| / 2);
        WriteValues(w, pairs);
        w.Finish(OpenMap);
        Regroup(old(w.Out()), EncodeTag(TagOf(v)), EncodeAll(pairs));
    }
  }

  lemma Regroup(out: seq<byte>, e: seq<byte>, f: seq<byte>)
    ensures out + e + f + [] == out + (e + f)
  {
  }

  lemma EncodeParts(v: Value)
    requires Storable(v)
    ensures v.ArrayV? || v.MapV? ==> AllStorable(Items(v)) && Encode(v) == EncodeTag(TagOf(v)) + EncodeAll(Items(v))
    ensures v.StrV? || v.BinV? ==> Encode(v) == EncodeTag(TagOf(v)) + Payload(v)
    ensures !v.ArrayV? && !v.MapV? && !v.StrV? && !v.BinV? ==> Encode(v) == EncodeTag(TagOf(v))
  {
  }

  method WriteValues(w: Writer, vs: seq<Value>)
    requires w.Valid() && AllStorable(vs)
    modifies w, w.buffer
    ensures w.Appended(EncodeAll(vs))
    decreases vs, 0
  {
    hide Encode;
    if vs == [] {
      assert w.Out() + [] == w.Out();
    } else {
      WriteValue(w, vs[0]);
      WriteValues(w, vs[1..]);
      assert old(w.Out()) + Encode(vs[0]) + EncodeAll(vs[1..]) == old(w.Out()) + EncodeAll(vs);
    }
  }

  /** Writing a value into a large enough buffer and parsing the bytes gives it back, within the parser's limits. */
  method WriteThenParse(v: Value, size: nat, poolCount: nat, capacity: nat) returns (tree: Tree, root: Handle)
    requires Storable(v) && |Encode(v)| <= size
    requires poolCount <= U32_MAX && 1 <= capacity
    ensures tree.error == Ok <==> Count(v) <= poolCount && Depth(v) + 1 <= capacity
    ensures tree.error == Ok ==> tree.Shows(root, Normal(v)) && tree.size == |tree.data| == |Encode(v)|
  {
    hide Encode, Fits, Represents, Separated, Decode;
    var buffer := new byte[size](_ => 0);
    var w := new Writer.Init(buffer, NoFlush, false);
    WriteValue(w, v);
    var e := buffer[..w.current];
    assert w.Out() == e == Encode(v);
    assert e + [] == e;
    Deserialize.FirstMessage(v, [], poolCount, capacity);
    tree := new Tree.InitPool(e, poolCount, capacity);
    assert e[0..] == e;
    var _ := tree.Parse();
    root := tree.Root();
  }
}

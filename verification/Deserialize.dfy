/** The messages the driver receives: the deserialize functions of serializer.c over the tree parser. */
module Deserialize {
  import opened Bytes
  import opened Tags
  import opened Decoder
  import opened Parser
  import opened Tree
  import opened Walks
  import opened Utf8
  import Format
  import Truncation

  /** mpack_node_data_t nodes[50] and MPACK_NODE_MAX_DEPTH_WITHOUT_MALLOC. */
  const POOL_COUNT := 50
  const STACK_CAPACITY := 32

  /** sizeof(result->name) in create_device_t. */
  const NAME_SIZE := 50

  /** The elements of the message in a buffer: its first object, within the limits, is an array of at least n. */
  ghost predicate IsMessage(data: seq<byte>, n: nat) {
    var r := Decode(data, 0);
    Fits(data, POOL_COUNT, STACK_CAPACITY) && r.v.ArrayV? && |r.v.items| >= n
  }

  ghost function Field(data: seq<byte>, k: nat): Value
    requires IsMessage(data, k + 1)
  {
    Decode(data, 0).v.items[k]
  }

  ghost predicate HasU32(data: seq<byte>, k: nat) {
    IsMessage(data, k + 1) && IsU32(Field(data, k))
  }

  ghost predicate HasI32(data: seq<byte>, k: nat) {
    IsMessage(data, k + 1) && IsI32(Field(data, k))
  }

  /**
    What a deserialize function returns, and a third answer for data on which it has none: a lead byte
    0xca or 0xcb as the tag of a node runs into an assertion that the build takes for unreachable.
   */
  datatype Answer = Yes | No | Unreachable

  function AnswerOf(error: Error): Answer {
    match error
    case Ok => Yes
    case Undefined => Unreachable
    case _ => No
  }

  /** The parse of a received buffer comes to such a byte. */
  predicate NoAnswer(data: seq<byte>) {
    MeetsUndefined(data, POOL_COUNT, STACK_CAPACITY)
  }

  /** The parse of a received buffer gives up for want of bytes. */
  predicate CutShort(data: seq<byte>) {
    Parsed(data, POOL_COUNT, STACK_CAPACITY) == Halted(Io)
  }

  /**
    netlink hands over more than the payload. For a payload whose parse is not short of bytes, that makes
    no difference to any answer. For one that does not end before its object does, it makes none to what
    is a message, though a parse that was short of bytes may now come to an unhandled lead byte.
   */
  lemma TrailingBytes(data: seq<byte>, trailing: seq<byte>, n: nat)
    ensures !CutShort(data) ==> (IsMessage(data + trailing, n) <==> IsMessage(data, n))
    ensures !CutShort(data) ==> (NoAnswer(data + trailing) <==> NoAnswer(data))
    ensures Decode(data, 0) != NoValue(Io) ==> (IsMessage(data + trailing, n) <==> IsMessage(data, n))
    ensures IsMessage(data, n) ==> forall k :: 0 <= k < n ==> Field(data + trailing, k) == Field(data, k)
  {
    hide Decode, Parsed, Fits;
    FitsDecodes(data);
    if Decode(data, 0) != NoValue(Io) {
      Truncation.DecodeKept(data, trailing, 0);
      SameFits(data, trailing);
    }
    if !CutShort(data) {
      Truncation.ParseKept(data, trailing, POOL_COUNT, STACK_CAPACITY);
      OutcomeOk(data, POOL_COUNT, STACK_CAPACITY);
      OutcomeOk(data + trailing, POOL_COUNT, STACK_CAPACITY);
    }
  }

  lemma SameFits(data: seq<byte>, trailing: seq<byte>)
    requires Decode(data + trailing, 0) == Decode(data, 0)
    ensures Fits(data + trailing, POOL_COUNT, STACK_CAPACITY) <==> Fits(data, POOL_COUNT, STACK_CAPACITY)
  {
  }

  lemma FitsDecodes(data: seq<byte>)
    ensures Fits(data, POOL_COUNT, STACK_CAPACITY) ==> Decode(data, 0).Got?
  {
  }

  /** In any case a message is the payload's own exactly if the object found ends within the payload. */
  lemma OwnMessage(data: seq<byte>, trailing: seq<byte>, n: nat)
    ensures IsMessage(data, n) <==> IsMessage(data + trailing, n) && Decode(data + trailing, 0).next <= |data|
  {
    hide Decode;
    DecodeIgnoresTrailing(data, trailing);
  }

  /** A message that lacks its last byte is taken to go on with whatever follows it. */
  lemma TrailingCompletes(b: byte)
    ensures !IsMessage([0x91, 0xcd, 0x01], 0)
    ensures HasU32([0x91, 0xcd, 0x01] + [b], 0) && Field([0x91, 0xcd, 0x01] + [b], 0) == UintV(0x100 + b)
  {
    var cut: seq<byte> := [0x91, 0xcd, 0x01];
    var item := UintV(0x100 + b);
    var v := ArrayV([item]);
    SingleItem(item);
    assert Encode(v) == EncodeTag(Array(1)) + Encode(item);
    assert Encode(v) == cut + [b];
    FirstMessage(v, [], POOL_COUNT, STACK_CAPACITY);
    assert Encode(v) + [] == cut + [b];
    assert NormalAll([item]) == [item];
    DecodeIgnoresTrailing(cut, [b]);
  }

  /** A payload that is refused for want of a byte can run into an unhandled lead byte when one follows. */
  lemma TrailingLosesAnswer(b: byte)
    ensures CutShort([0x92, 0xca]) && !NoAnswer([0x92, 0xca]) && !IsMessage([0x92, 0xca], 0)
    ensures NoAnswer([0x92, 0xca] + [b])
  {
    ReaderMeetsMore();
    var data: seq<byte> := [0x92, 0xca] + [b];
    assert data[0] == 0x92 && data[1] == 0xca && |data| == 3;
    assert ReadHead(data, 0) == Tagged(Array(2), 1) && ReadHead(data, 1) == Rejected(Undefined);
    WalkFirst(data, 0, 1, 1, 1, 0, POOL_COUNT, STACK_CAPACITY);
    assert Walk(data, 1, 3, 2, 2, 0, POOL_COUNT, STACK_CAPACITY) == Halted(Undefined);
  }

  /** The numbers of a 32-bit unsigned, and of a 32-bit signed type. */
  predicate InU32(i: int) {
    0 <= i <= 4_294_967_295
  }

  predicate InI32(i: int) {
    -2_147_483_648 <= i <= 2_147_483_647
  }

  /** An array of integers, in any forms and whatever follows, is a message of them if it takes at most 50 nodes. */
  lemma IntegersArrive(data: seq<byte>, ns: seq<int>)
    requires Format.SpellsArray(data, ns)
    ensures forall n: nat :: IsMessage(data, n) <==> n <= |ns| <= 49
    ensures forall k: nat :: HasU32(data, k) <==> k < |ns| <= 49 && InU32(ns[k])
    ensures forall k: nat :: HasI32(data, k) <==> k < |ns| <= 49 && InI32(ns[k])
    ensures forall k: nat :: k < |ns| <= 49 ==> IsNumber(Field(data, k)) && NumberOf(Field(data, k)) == ns[k]
  {
    hide Decode, Count, Depth;
    Format.ArrayDecodes(data, ns);
  }

  /** Any message the writers can put out is found up to 50 nodes and 31 levels, with each of its elements. */
  lemma EncodedArrives(m: Value, rest: seq<byte>, n: nat)
    requires Storable(m)
    ensures IsMessage(Encode(m) + rest, n) <==> m.ArrayV? && n <= |m.items| && Count(m) <= 50 && Depth(m) <= 31
    ensures IsMessage(Encode(m) + rest, n) ==> forall k :: 0 <= k < n ==>
              Field(Encode(m) + rest, k) == Normal(m.items[k])
  {
    FirstMessage(m, rest, POOL_COUNT, STACK_CAPACITY);
    hide Decode, Encode, Count, Depth;
  }

  /** Nil in k arrays. */
  function Nest(k: nat): Value {
    if k == 0 then NilV else ArrayV([Nest(k - 1)])
  }

  lemma {:induction false} NestParts(k: nat)
    ensures Storable(Nest(k)) && Encode(Nest(k)) == seq(k, _ => 0x91) + [0xc0]
    ensures Count(Nest(k)) == k + 1 && Depth(Nest(k)) == k
  {
    if k > 0 {
      NestParts(k - 1);
      SingleItem(Nest(k - 1));
      hide Encode, Storable, Count, Depth, EncodeAll, AllStorable;
      OneIn(Nest(k - 1));
      var inner, all := seq(k - 1, _ => 0x91 as byte), seq(k, _ => 0x91 as byte);
      assert all == [0x91] + inner;
    }
  }

  lemma OneIn(v: Value)
    requires Storable(v)
    ensures Storable(ArrayV([v])) && Encode(ArrayV([v])) == [0x91] + Encode(v)
    ensures Count(ArrayV([v])) == 1 + Count(v) && Depth(ArrayV([v])) == 1 + Depth(v)
  {
    SingleItem(v);
    hide Encode, Count, Depth, Storable;
    EncodeOneIn(v);
  }

  lemma EncodeOneIn(v: Value)
    requires Storable(v) && AllStorable([v]) && EncodeAll([v]) == Encode(v)
    ensures Storable(ArrayV([v])) && Encode(ArrayV([v])) == [0x91] + Encode(v)
  {
    hide EncodeAll, AllStorable;
  }

  /** Arrays in each other are parsed to a depth of 31. */
  lemma NestingLimit(k: nat, rest: seq<byte>)
    ensures IsMessage(seq(k, _ => 0x91) + [0xc0] + rest, 0) <==> 1 <= k <= 31
  {
    NestParts(k);
    hide Encode, Count, Depth, IsMessage, Storable;
    EncodedArrives(Nest(k), rest, 0);
  }

  /** A name is taken up to 49 bytes. */
  lemma NamesArrive(text: seq<byte>, uid: nat, rest: seq<byte>)
    requires |text| <= U32_MAX && InU32(uid)
    ensures var m := ArrayV([StrV(text), UintV(uid)]);
            && Storable(m)
            && HasU32(Encode(m) + rest, 1) && IsMessage(Encode(m) + rest, 1)
            && (IsCstr(Field(Encode(m) + rest, 0), NAME_SIZE) <==> |text| <= 49 && IsUtf8(text) && 0 !in text)
            && Field(Encode(m) + rest, 0) == StrV(text) && Field(Encode(m) + rest, 1) == UintV(uid)
  {
    var m := ArrayV([StrV(text), UintV(uid)]);
    AllStorableElements(m.items);
    assert m.items == [m.items[0]] + [m.items[1]];
    CountAllConcat([m.items[0]], [m.items[1]]);
    SingleItem(m.items[0]);
    SingleItem(m.items[1]);
    DepthAllBound(m.items, 0);
    hide Encode, IsMessage, Field, IsUtf8, CountAll, DepthAll, AllStorable;
    EncodedArrives(m, rest, 1);
    EncodedArrives(m, rest, 2);
  }

  /** Four integers of one byte each, and the last of them as a signed one: -40. */
  lemma SignedExample()
    ensures Format.SpellsArray([0x94, 0x00, 0x00, 0x00, 0xd0, 0xd8], [0, 0, 0, -40])
  {
    var data: seq<byte> := [0x94, 0x00, 0x00, 0x00, 0xd0, 0xd8];
    assert data[4..6] == [0xd0, 0xd8] && data[4..6][1..] == [0xd8];
    Format.OneDigit(0xd8);
    assert Format.Spells(data[4..6], -40);
    assert Format.SpelledFrom(data, 4, [-40]);
    assert Format.SpelledFrom(data, 3, [0, -40]);
    assert Format.SpelledFrom(data, 2, [0, 0, -40]);
  }

  lemma SingleItem(v: Value)
    requires Storable(v)
    ensures AllStorable([v]) && EncodeAll([v]) == Encode(v)
    ensures CountAll([v]) == Count(v) && DepthAll([v]) == Depth(v)
  {
    hide Encode, Storable, Count, Depth;
    assert [v][1..] == [];
    assert AllStorable([]) && EncodeAll([]) == [] && CountAll([]) == 0 && DepthAll([]) == 0;
  }

  /** The tree every deserializer starts from, and its root. */
  method Open(data: seq<byte>) returns (tree: Tree, root: Handle)
    ensures fresh(tree) && fresh(tree.pool) && fresh(tree.stack)
    ensures tree.data == data
    ensures tree.error == Ok <==> Fits(data, POOL_COUNT, STACK_CAPACITY)
    ensures tree.error == Undefined <==> NoAnswer(data)
    ensures tree.error == Ok ==> tree.Shows(root, Decode(data, 0).v)
  {
    tree := new Tree.InitPool(data, POOL_COUNT, STACK_CAPACITY);
    assert data[0..] == data;
    var _ := tree.Parse();
    root := tree.Root();
  }

  /** One element read as mpack_node_u32(mpack_node_array_at(root, index)). */
  method ReadU32(tree: Tree, root: Handle, index: nat, ghost v: Value) returns (u: nat)
    requires tree.error == Ok ==> tree.Shows(root, v)
    modifies tree`error
    ensures tree.error == Ok <==> old(tree.error) == Ok && v.ArrayV? && index < |v.items| && IsU32(v.items[index])
    ensures tree.error == Undefined <==> old(tree.error) == Undefined
    ensures tree.error == Ok ==> u == NumberOf(v.items[index])
  {
    hide Represents;
    var node := tree.ArrayAt(root, index, v);
    ghost var w := if v.ArrayV? && index < |v.items| then v.items[index] else NilV;
    u := tree.U32(node, w);
  }

  method ReadI32(tree: Tree, root: Handle, index: nat, ghost v: Value) returns (i: int)
    requires tree.error == Ok ==> tree.Shows(root, v)
    modifies tree`error
    ensures tree.error == Ok <==> old(tree.error) == Ok && v.ArrayV? && index < |v.items| && IsI32(v.items[index])
    ensures tree.error == Undefined <==> old(tree.error) == Undefined
    ensures tree.error == Ok ==> i == NumberOf(v.items[index])
  {
    hide Represents;
    var node := tree.ArrayAt(root, index, v);
    ghost var w := if v.ArrayV? && index < |v.items| then v.items[index] else NilV;
    i := tree.I32(node, w);
  }

  /** deserialize_get_health. */
  method GetHealth(data: seq<byte>) returns (answer: Answer, deviceId: nat)
    ensures answer.Unreachable? <==> NoAnswer(data)
    ensures answer.Yes? <==> HasU32(data, 0)
    ensures answer.Yes? ==> deviceId == NumberOf(Field(data, 0))
    ensures forall ns :: Format.SpellsArray(data, ns) ==>
              && (answer.Yes? <==> 1 <= |ns| <= 49 && InU32(ns[0]))
              && (answer.Yes? ==> deviceId == ns[0])
  {
    hide Represents;
    var tree, root := Open(data);
    ghost var v := if tree.error == Ok then Decode(data, 0).v else NilV;
    deviceId := ReadU32(tree, root, 0, v);
    answer := AnswerOf(tree.error);
    forall ns | Format.SpellsArray(data, ns) {
      IntegersArrive(data, ns);
    }
  }

  /** deserialize_create_conn: the name ends up in its buffer as a terminated string. */
  method CreateDevice(data: seq<byte>, name: array<byte>) returns (answer: Answer, uid: nat)
    requires name.Length == NAME_SIZE
    modifies name
    ensures answer.Unreachable? <==> NoAnswer(data)
    ensures answer.Yes? <==> HasU32(data, 1) && IsCstr(Field(data, 0), NAME_SIZE)
    ensures answer.Yes? ==> name[..|Field(data, 0).text| + 1] == Field(data, 0).text + [0]
    ensures answer.Yes? ==> uid == NumberOf(Field(data, 1))
  {
    hide Represents, IsCstr;
    var tree, root := Open(data);
    ghost var v := if tree.error == Ok then Decode(data, 0).v else NilV;
    var node := tree.ArrayAt(root, 0, v);
    ghost var w := if v.ArrayV? && 0 < |v.items| then v.items[0] else NilV;
    tree.CopyUtf8Cstr(node, name, w);
    assert tree.error == Ok ==> tree.Shows(root, v);
    uid := ReadU32(tree, root, 1, v);
    answer := AnswerOf(tree.error);
  }

  /** deserialize_destroy_device. */
  method DestroyDevice(data: seq<byte>) returns (answer: Answer, id: nat)
    ensures answer.Unreachable? <==> NoAnswer(data)
    ensures answer.Yes? <==> HasU32(data, 0)
    ensures answer.Yes? ==> id == NumberOf(Field(data, 0))
    ensures forall ns :: Format.SpellsArray(data, ns) ==>
              && (answer.Yes? <==> 1 <= |ns| <= 49 && InU32(ns[0]))
              && (answer.Yes? ==> id == ns[0])
  {
    answer, id := GetHealth(data);
  }

  /** deserialize_new_toot_result and deserialize_send_toot_result, which read the same three elements. */
  method TootResult(data: seq<byte>) returns (answer: Answer, tootId: nat, deviceId: nat, result: int)
    ensures answer.Unreachable? <==> NoAnswer(data)
    ensures answer.Yes? <==> HasU32(data, 0) && HasU32(data, 1) && HasI32(data, 2)
    ensures answer.Yes? ==> tootId == NumberOf(Field(data, 0)) && deviceId == NumberOf(Field(data, 1))
    ensures answer.Yes? ==> result == NumberOf(Field(data, 2))
    ensures forall ns :: Format.SpellsArray(data, ns) ==>
              && (answer.Yes? <==> 3 <= |ns| <= 49 && InU32(ns[0]) && InU32(ns[1]) && InI32(ns[2]))
              && (answer.Yes? ==> tootId == ns[0] && deviceId == ns[1] && result == ns[2])
  {
    hide Represents;
    var tree, root := Open(data);
    ghost var v := if tree.error == Ok then Decode(data, 0).v else NilV;
    tootId := ReadU32(tree, root, 0, v);
    deviceId := ReadU32(tree, root, 1, v);
    result := ReadI32(tree, root, 2, v);
    answer := AnswerOf(tree.error);
    forall ns | Format.SpellsArray(data, ns) {
      IntegersArrive(data, ns);
    }
  }

  /** deserialize_add_toot_element_result. */
  method AddTootElementResult(data: seq<byte>)
    returns (answer: Answer, tootId: nat, deviceId: nat, elementId: nat, result: int)
    ensures answer.Unreachable? <==> NoAnswer(data)
    ensures answer.Yes? <==> HasU32(data, 0) && HasU32(data, 1) && HasU32(data, 2) && HasI32(data, 3)
    ensures answer.Yes? ==> tootId == NumberOf(Field(data, 0)) && deviceId == NumberOf(Field(data, 1))
    ensures answer.Yes? ==> elementId == NumberOf(Field(data, 2)) && result == NumberOf(Field(data, 3))
    ensures forall ns :: Format.SpellsArray(data, ns) ==>
              && (answer.Yes? <==> 4 <= |ns| <= 49 && InU32(ns[0]) && InU32(ns[1]) && InU32(ns[2]) && InI32(ns[3]))
              && (answer.Yes? ==> tootId == ns[0] && deviceId == ns[1] && elementId == ns[2] && result == ns[3])
  {
    hide Represents;
    var tree, root := Open(data);
    ghost var v := if tree.error == Ok then Decode(data, 0).v else NilV;
    tootId := ReadU32(tree, root, 0, v);
    deviceId := ReadU32(tree, root, 1, v);
    elementId := ReadU32(tree, root, 2, v);
    result := ReadI32(tree, root, 3, v);
    answer := AnswerOf(tree.error);
    forall ns | Format.SpellsArray(data, ns) {
      IntegersArrive(data, ns);
    }
  }

  // ----- Framing -----

  /** A tree takes a stored message iff its nodes fit the pool and its nesting the stack. */
  predicate MessageFits(m: Value, poolCount: nat, capacity: nat) {
    Count(m) <= poolCount && Depth(m) + 1 <= capacity
  }

  /** At the head of a buffer, an encoded message is found whole, and the rest of the buffer follows it. */
  lemma FirstMessage(m: Value, rest: seq<byte>, poolCount: nat, capacity: nat)
    requires Storable(m)
    ensures Decode(Encode(m) + rest, 0) == Got(Normal(m), |Encode(m)|)
    ensures Fits(Encode(m) + rest, poolCount, capacity) <==> MessageFits(m, poolCount, capacity)
    ensures (Encode(m) + rest)[|Encode(m)|..] == rest
  {
    var data := Encode(m) + rest;
    assert data[0..|Encode(m)|] == Encode(m);
    RoundTrip(data, 0, m);
    NormalKeepsMeasures(m);
  }

  /** Parsing what stands behind the last message yields the next one, and moves on to what follows it. */
  method ParseMessage(tree: Tree, ghost m: Value, ghost rest: seq<byte>) returns (root: Handle)
    requires tree.Valid() && tree.error == Ok
    requires Storable(m) && tree.data[tree.size..] == Encode(m) + rest
    requires MessageFits(m, tree.pool.Length, tree.stack.Length)
    modifies tree, tree.pool, tree.stack
    ensures tree.Valid() && tree.error == Ok
    ensures tree.Shows(root, Normal(m)) && tree.data[tree.size..] == rest
  {
    hide Represents, Fits, MessageFits, Separated;
    FirstMessage(m, rest, tree.pool.Length, tree.stack.Length);
    var _ := tree.Parse();
    root := tree.Root();
  }

  lemma NextMessage(messages: seq<Value>, trailing: seq<byte>)
    requires messages != [] && AllStorable(messages)
    ensures Storable(messages[0]) && AllStorable(messages[1..])
    ensures EncodeAll(messages) + trailing == Encode(messages[0]) + (EncodeAll(messages[1..]) + trailing)
  {
    hide Encode;
  }

  lemma NoMessages(trailing: seq<byte>)
    ensures EncodeAll([]) + trailing == trailing
  {
  }

  /** Messages back to back come out one by one, each whole and in order, by parsing repeatedly. */
  method ParseInTurn(tree: Tree, n: nat, ghost messages: seq<Value>, ghost trailing: seq<byte>)
    returns (found: seq<Value>)
    requires tree.Valid() && tree.error == Ok && tree.size == 0
    requires n == |messages| && AllStorable(messages) && tree.data == EncodeAll(messages) + trailing
    requires forall k :: 0 <= k < n ==> MessageFits(messages[k], tree.pool.Length, tree.stack.Length)
    modifies tree, tree.pool, tree.stack
    ensures found == NormalAll(messages)
    ensures tree.Valid() && tree.error == Ok && tree.data[tree.size..] == trailing
  {
    hide Represents, Fits, MessageFits, Separated, Encode, EncodeAll, Normal, NormalAll;
    var k := 0;
    ghost var rest := messages;
    found := [];
    assert tree.data[0..] == tree.data;
    while k < n
      invariant k <= n && rest == messages[k..] && AllStorable(rest)
      invariant tree.Valid() && tree.error == Ok
      invariant tree.data[tree.size..] == EncodeAll(rest) + trailing
      invariant |found| == k && forall j :: 0 <= j < k ==> found[j] == Normal(messages[j])
    {
      NextMessage(rest, trailing);
      assert rest[0] == messages[k] && rest[1..] == messages[k + 1..];
      var root := ParseMessage(tree, rest[0], EncodeAll(rest[1..]) + trailing);
      var message := tree.ReadNode(root, Normal(messages[k]));
      found, k, rest := found + [message], k + 1, rest[1..];
    }
    assert EncodeAll([]) + trailing == trailing by { NoMessages(trailing); }
  }
}

/**
  The meaning of a byte string as MessagePack: a plain recursive decoder. The tree parser and the
  reader of mpack.c do the same work without this recursion; both are proved against it.
 */
module Decoder {
  import opened Bytes
  import opened Tags

  /** An object. A map lists its keys and values in turn, as mpack_node_data_t does. */
  datatype Value =
    | NilV
    | BoolV(b: bool)
    | IntV(i: int)
    | UintV(u: nat)
    | StrV(text: seq<byte>)
    | BinV(blob: seq<byte>)
    | ArrayV(items: seq<Value>)
    | MapV(pairs: seq<Value>)

  /** An object and where it ends, or why there is none: Io when the data ends, or what is wrong with a lead byte. */
  datatype One = NoValue(why: Error) | Got(v: Value, next: nat)

  datatype Many = NoValues(why: Error) | GotAll(vs: seq<Value>, next: nat)

  /** The value of a tag with its payload or its children. */
  function Build(tag: Tag, payload: seq<byte>, items: seq<Value>): Value {
    match tag
    case Nil => NilV
    case Bool(b) => BoolV(b)
    case Int(i) => IntV(i)
    case Uint(u) => UintV(u)
    case Str(_) => StrV(payload)
    case Bin(_) => BinV(payload)
    case Array(_) => ArrayV(items)
    case Map(_) => MapV(items)
  }

  /** The object that starts at pos. */
  function Decode(data: seq<byte>, pos: nat): (r: One)
    ensures r.Got? ==> pos < r.next <= |data|
    decreases |data| - pos, 0, 0
  {
    match ReadHead(data, pos)
    case Short => NoValue(Io)
    case Rejected(error) => NoValue(error)
    case Tagged(tag, size) =>
      var body := pos + size;
      var rest := body + PayloadSize(tag);
      if rest > |data| then NoValue(Io)
      else match DecodeAll(data, rest, ChildCount(tag))
        case NoValues(why) => NoValue(why)
        case GotAll(items, next) => Got(Build(tag, data[body..rest], items), next)
  }

  /** The n objects that start at pos, one after the other. */
  function DecodeAll(data: seq<byte>, pos: nat, n: nat): (r: Many)
    requires pos <= |data|
    ensures r.GotAll? ==> pos + n <= r.next <= |data| && |r.vs| == n
    decreases |data| - pos, 1, n
  {
    if n == 0 then GotAll([], pos)
    else match Decode(data, pos)
      case NoValue(why) => NoValues(why)
      case Got(v, p) =>
        match DecodeAll(data, p, n - 1)
        case NoValues(why) => NoValues(why)
        case GotAll(vs, next) => GotAll([v] + vs, next)
  }

  /** What the tag at pos makes of the object there. */
  lemma DecodeHead(data: seq<byte>, pos: nat)
    ensures match ReadHead(data, pos)
            case Short => Decode(data, pos) == NoValue(Io)
            case Rejected(e) => Decode(data, pos) == NoValue(e)
            case Tagged(tag, size) =>
              var body := pos + size;
              var rest := body + PayloadSize(tag);
              if rest > |data| then Decode(data, pos) == NoValue(Io)
              else match DecodeAll(data, rest, ChildCount(tag))
                case NoValues(why) => Decode(data, pos) == NoValue(why)
                case GotAll(items, next) => Decode(data, pos) == Got(Build(tag, data[body..rest], items), next)
  {
    hide ReadHead, DecodeAll;
  }

  lemma DecodeAllCons(data: seq<byte>, pos: nat, n: nat)
    requires 0 < n && pos <= |data| && Decode(data, pos).Got?
    ensures var one := Decode(data, pos);
            var others := DecodeAll(data, one.next, n - 1);
            DecodeAll(data, pos, n) ==
              (if others.NoValues? then others else GotAll([one.v] + others.vs, others.next))
  {
  }

  lemma DecodeAllNone(data: seq<byte>, pos: nat, n: nat)
    requires 0 < n && pos <= |data| && Decode(data, pos).NoValue?
    ensures DecodeAll(data, pos, n) == NoValues(Decode(data, pos).why)
  {
  }

  lemma DecodeNothing(data: seq<byte>, pos: nat)
    requires pos <= |data|
    ensures DecodeAll(data, pos, 0) == GotAll([], pos)
  {
  }

  /** Decoding m objects and then n more is decoding m + n. */
  lemma {:induction false} DecodeAllSplit(data: seq<byte>, pos: nat, m: nat, n: nat)
    requires pos <= |data|
    ensures DecodeAll(data, pos, m).NoValues? ==> DecodeAll(data, pos, m + n) == DecodeAll(data, pos, m)
    ensures var first := DecodeAll(data, pos, m);
            first.GotAll? ==>
              var then_ := DecodeAll(data, first.next, n);
              DecodeAll(data, pos, m + n) ==
                (if then_.NoValues? then then_ else GotAll(first.vs + then_.vs, then_.next))
    decreases m
  {
    hide Decode, DecodeAll;
    if m == 0 {
      DecodeNothing(data, pos);
      var then_ := DecodeAll(data, pos, n);
      if then_.GotAll? {
        assert [] + then_.vs == then_.vs;
      }
    } else if Decode(data, pos).NoValue? {
      DecodeAllNone(data, pos, m);
      DecodeAllNone(data, pos, m + n);
    } else {
      var one := Decode(data, pos);
      DecodeAllCons(data, pos, m);
      DecodeAllCons(data, pos, m + n);
      assert m + n - 1 == m - 1 + n;
      DecodeAllSplit(data, one.next, m - 1, n);
      var first := DecodeAll(data, one.next, m - 1);
      if first.GotAll? {
        var then_ := DecodeAll(data, first.next, n);
        if then_.GotAll? {
          assert [one.v] + (first.vs + then_.vs) == [one.v] + first.vs + then_.vs;
        }
      }
    }
  }

  // ----- The two measures the parser limits -----

  /** The nodes the object takes in the pool. */
  function Count(v: Value): (c: nat)
    ensures c >= 1
    decreases v, 1
  {
    match v
    case ArrayV(items) => 1 + CountAll(items)
    case MapV(pairs) => 1 + CountAll(pairs)
    case _ => 1
  }

  function CountAll(vs: seq<Value>): (c: nat)
    ensures c >= |vs|
    decreases vs, 0
  {
    if vs == [] then 0 else Count(vs[0]) + CountAll(vs[1..])
  }

  lemma CountAllConcat(a: seq<Value>, b: seq<Value>)
    ensures CountAll(a + b) == CountAll(a) + CountAll(b)
  {
    if a == [] {
      assert a + b == b;
    } else {
      assert (a + b)[1..] == a[1..] + b;
      CountAllConcat(a[1..], b);
    }
  }

  /** How deep containers that are not empty nest. */
  function Depth(v: Value): nat
    decreases v, 1
  {
    match v
    case ArrayV(items) => if items == [] then 0 else 1 + DepthAll(items)
    case MapV(pairs) => if pairs == [] then 0 else 1 + DepthAll(pairs)
    case _ => 0
  }

  function DepthAll(vs: seq<Value>): (d: nat)
    ensures forall k :: 0 <= k < |vs| ==> Depth(vs[k]) <= d
    decreases vs, 0
  {
    if vs == [] then 0
    else
      var d := DepthAll(vs[1..]);
      assert forall k :: 0 < k < |vs| ==> vs[k] == vs[1..][k - 1];
      if Depth(vs[0]) > d then Depth(vs[0]) else d
  }

  lemma DepthAllBound(vs: seq<Value>, bound: nat)
    ensures DepthAll(vs) <= bound <==> forall k :: 0 <= k < |vs| ==> Depth(vs[k]) <= bound
  {
    if vs != [] {
      DepthAllBound(vs[1..], bound);
      if forall k :: 0 <= k < |vs| ==> Depth(vs[k]) <= bound {
        assert forall k :: 0 <= k < |vs[1..]| ==> vs[1..][k] == vs[k + 1];
        assert Depth(vs[0]) <= bound;
      }
    }
  }

  /** The children of a container, none for anything else. */
  function Items(v: Value): seq<Value> {
    match v
    case ArrayV(items) => items
    case MapV(pairs) => pairs
    case _ => []
  }

  lemma MeasuresByItems(v: Value)
    ensures Count(v) == 1 + CountAll(Items(v))
    ensures Depth(v) == if Items(v) == [] then 0 else 1 + DepthAll(Items(v))
  {
  }

  // ----- Decoding is local -----

  /** Bytes past an object play no part in decoding it, and neither do bytes before it. */
  lemma {:induction false} DecodeLocal(data: seq<byte>, pos: nat, other: seq<byte>, otherPos: nat)
    requires Decode(data, pos).Got?
    requires At(other, otherPos, data[pos..Decode(data, pos).next])
    ensures Decode(other, otherPos) == Got(Decode(data, pos).v, otherPos + (Decode(data, pos).next - pos))
    decreases |data| - pos, 0, 0
  {
    hide ReadHead, Decode, DecodeAll, Build;
    DecodeHead(data, pos);
    DecodeHead(other, otherPos);
    var head := ReadHead(data, pos);
    var body := pos + head.size;
    var rest := body + PayloadSize(head.tag);
    var next := Decode(data, pos).next;
    var e := data[pos..next];
    assert e == data[pos..body] + data[body..rest] + data[rest..next];
    AtSplit(other, otherPos, data[pos..body] + data[body..rest], data[rest..next]);
    AtSplit(other, otherPos, data[pos..body], data[body..rest]);
    HeadLocal(data, pos, other, otherPos);
    DecodeAllLocal(data, rest, ChildCount(head.tag), other, otherPos + (rest - pos));
  }

  lemma {:induction false} DecodeAllLocal(data: seq<byte>, pos: nat, n: nat, other: seq<byte>, otherPos: nat)
    requires pos <= |data| && otherPos <= |other| && DecodeAll(data, pos, n).GotAll?
    requires At(other, otherPos, data[pos..DecodeAll(data, pos, n).next])
    ensures DecodeAll(other, otherPos, n)
         == GotAll(DecodeAll(data, pos, n).vs, otherPos + (DecodeAll(data, pos, n).next - pos))
    decreases |data| - pos, 1, n
  {
    hide Decode;
    if n > 0 {
      var p := Decode(data, pos).next;
      var next := DecodeAll(data, pos, n).next;
      DecodeAllCons(data, pos, n);
      assert data[pos..next] == data[pos..p] + data[p..next];
      AtSplit(other, otherPos, data[pos..p], data[p..next]);
      DecodeLocal(data, pos, other, otherPos);
      DecodeAllLocal(data, p, n - 1, other, otherPos + (p - pos));
      DecodeAllCons(other, otherPos, n);
    }
  }

  /** What is decoded, with its positions counted from further on. */
  function Shifted(one: One, back: nat): One
    requires one.Got? ==> back <= one.next
  {
    match one
    case NoValue(_) => one
    case Got(v, next) => Got(v, next - back)
  }

  function AllShifted(many: Many, back: nat): Many
    requires many.GotAll? ==> back <= many.next
  {
    match many
    case NoValues(_) => many
    case GotAll(vs, next) => GotAll(vs, next - back)
  }

  /** Decoding from pos on is decoding a suffix that starts no later, and fails for the same reason. */
  lemma {:induction false} DecodeShifted(data: seq<byte>, low: nat, pos: nat)
    requires low <= pos <= |data|
    ensures Decode(data[low..], pos - low) == Shifted(Decode(data, pos), low)
    decreases |data| - pos, 0, 0
  {
    hide ReadHead;
    var suffix, head := data[low..], ReadHead(data, pos);
    HeadShifted(data, low, pos);
    if head.Tagged? {
      var body := pos + head.size;
      var rest := body + PayloadSize(head.tag);
      if rest <= |data| {
        assert suffix[body - low..rest - low] == data[body..rest];
        DecodeAllShifted(data, low, rest, ChildCount(head.tag));
      }
    }
  }

  lemma {:induction false} DecodeAllShifted(data: seq<byte>, low: nat, pos: nat, n: nat)
    requires low <= pos <= |data|
    ensures DecodeAll(data[low..], pos - low, n) == AllShifted(DecodeAll(data, pos, n), low)
    decreases |data| - pos, 1, n
  {
    hide Decode;
    if n > 0 {
      DecodeShifted(data, low, pos);
      if Decode(data, pos).Got? {
        DecodeAllShifted(data, low, Decode(data, pos).next, n - 1);
      }
    }
  }

  /** Decoding from pos on is decoding the suffix there. */
  lemma DecodeSuffix(data: seq<byte>, pos: nat)
    requires pos <= |data|
    ensures Decode(data[pos..], 0) == Shifted(Decode(data, pos), pos)
  {
    DecodeShifted(data, pos, pos);
  }

  /** The first object of a stream is the same whatever follows it, and no other object ends before that. */
  lemma DecodeIgnoresTrailing(data: seq<byte>, trailing: seq<byte>)
    ensures Decode(data, 0).Got? <==> Decode(data + trailing, 0).Got? && Decode(data + trailing, 0).next <= |data|
    ensures Decode(data, 0).Got? ==> Decode(data + trailing, 0) == Decode(data, 0)
  {
    hide Decode;
    var more := data + trailing;
    if Decode(data, 0).Got? {
      assert more[0..Decode(data, 0).next] == data[0..Decode(data, 0).next];
      DecodeLocal(data, 0, more, 0);
    } else if Decode(more, 0).Got? && Decode(more, 0).next <= |data| {
      assert data[0..Decode(more, 0).next] == more[0..Decode(more, 0).next];
      DecodeLocal(more, 0, data, 0);
    }
  }

  // ----- Round trip -----

  /** A value C can hold, all the way down. */
  predicate Storable(v: Value)
    decreases v, 1
  {
    match v
    case NilV => true
    case BoolV(_) => true
    case IntV(i) => S64_MIN <= i <= S64_MAX
    case UintV(u) => u <= U64_MAX
    case StrV(text) => |text| <= U32_MAX
    case BinV(blob) => |blob| <= U32_MAX
    case ArrayV(items) => |items| <= U32_MAX && AllStorable(items)
    case MapV(pairs) => |pairs| % 2 == 0 && |pairs| / 2 <= U32_MAX && AllStorable(pairs)
  }

  predicate AllStorable(vs: seq<Value>)
    decreases vs, 0
  {
    vs == [] || (Storable(vs[0]) && AllStorable(vs[1..]))
  }

  lemma AllStorableElements(vs: seq<Value>)
    ensures AllStorable(vs) <==> forall k :: 0 <= k < |vs| ==> Storable(vs[k])
  {
    if vs != [] {
      AllStorableElements(vs[1..]);
      assert forall k :: 0 < k < |vs| ==> vs[k] == vs[1..][k - 1];
    }
  }

  /** The tag a value is written with, which is the one mpack_node_tag reports of its node. */
  function TagOf(v: Value): (tag: Tag)
    ensures Storable(v) ==> InRange(tag) && ChildCount(tag) == |Items(v)| && PayloadSize(tag) == |Payload(v)|
  {
    match v
    case NilV => Nil
    case BoolV(b) => Bool(b)
    case IntV(i) => Int(i)
    case UintV(u) => Uint(u)
    case StrV(text) => Str(|text|)
    case BinV(blob) => Bin(|blob|)
    case ArrayV(items) => Array(|items|)
    case MapV(pairs) => Map(|pairs| / 2)
  }

  function Payload(v: Value): seq<byte> {
    match v
    case StrV(text) => text
    case BinV(blob) => blob
    case _ => []
  }

  /** The bytes the writers emit for a value: its tag, its payload, its children. */
  function Encode(v: Value): (e: seq<byte>)
    requires Storable(v)
    decreases v, 1
  {
    match v
    case ArrayV(items) => EncodeTag(TagOf(v)) + EncodeAll(items)
    case MapV(pairs) => EncodeTag(TagOf(v)) + EncodeAll(pairs)
    case _ => EncodeTag(TagOf(v)) + Payload(v)
  }

  function EncodeAll(vs: seq<Value>): (e: seq<byte>)
    requires AllStorable(vs)
    decreases vs, 0
  {
    if vs == [] then [] else Encode(vs[0]) + EncodeAll(vs[1..])
  }

  /** What comes back: the same value, with non-negative signed integers unsigned. */
  function Normal(v: Value): Value
    decreases v, 1
  {
    match v
    case IntV(i) => if i >= 0 then UintV(i) else v
    case ArrayV(items) => ArrayV(NormalAll(items))
    case MapV(pairs) => MapV(NormalAll(pairs))
    case _ => v
  }

  function NormalAll(vs: seq<Value>): (r: seq<Value>)
    ensures |r| == |vs| && forall k :: 0 <= k < |vs| ==> r[k] == Normal(vs[k])
    decreases vs, 0
  {
    if vs == [] then [] else [Normal(vs[0])] + NormalAll(vs[1..])
  }

  /** Wherever an encoded value stands, it decodes to that value and consumes exactly its bytes. */
  lemma {:induction false} RoundTrip(data: seq<byte>, pos: nat, v: Value)
    requires Storable(v) && At(data, pos, Encode(v))
    ensures Decode(data, pos) == Got(Normal(v), pos + |Encode(v)|)
    decreases v, 1
  {
    hide ReadHead, EncodeTag, EncodeAll, AllStorable, NormalAll;
    var tag := TagOf(v);
    var e := EncodeTag(tag);
    var body := pos + |e|;
    match v {
      case ArrayV(items) =>
        AtSplit(data, pos, e, EncodeAll(items));
        RoundTripAll(data, body, items);
      case MapV(pairs) =>
        AtSplit(data, pos, e, EncodeAll(pairs));
        RoundTripAll(data, body, pairs);
      case _ =>
        AtSplit(data, pos, e, Payload(v));
    }
    TagRoundTrip(data, pos, tag);
  }

  lemma {:induction false} RoundTripAll(data: seq<byte>, pos: nat, vs: seq<Value>)
    requires AllStorable(vs) && At(data, pos, EncodeAll(vs))
    ensures DecodeAll(data, pos, |vs|) == GotAll(NormalAll(vs), pos + |EncodeAll(vs)|)
    decreases vs, 0
  {
    hide Decode, Encode;
    if vs != [] {
      var e, f := Encode(vs[0]), EncodeAll(vs[1..]);
      assert EncodeAll(vs) == e + f;
      AtSplit(data, pos, e, f);
      RoundTrip(data, pos, vs[0]);
      RoundTripAll(data, pos + |e|, vs[1..]);
      DecodeAllCons(data, pos, |vs|);
    }
  }

  // ----- What is decoded can be written -----

  lemma BuildParts(tag: Tag, payload: seq<byte>, items: seq<Value>)
    requires InRange(tag) && |payload| == PayloadSize(tag) && |items| == ChildCount(tag) && AllStorable(items)
    ensures Storable(Build(tag, payload, items))
    ensures |Encode(Build(tag, payload, items))| == |EncodeTag(tag)| + |payload| + |EncodeAll(items)|
  {
    hide EncodeTag;
  }

  /** Any bytes that decode are at least as many as those the writers emit for the value found. */
  lemma {:induction false} EncodingIsShortest(data: seq<byte>, pos: nat)
    requires Decode(data, pos).Got?
    ensures Storable(Decode(data, pos).v) && pos + |Encode(Decode(data, pos).v)| <= Decode(data, pos).next
    decreases |data| - pos, 0, 0
  {
    hide ReadHead, Decode, DecodeAll, Build, Storable, Encode, EncodeTag, EncodeAll, AllStorable;
    DecodeHead(data, pos);
    var head := ReadHead(data, pos);
    var body := pos + head.size;
    var rest := body + PayloadSize(head.tag);
    TagsAreShortest(data, pos);
    EncodingsAreShortest(data, rest, ChildCount(head.tag));
    BuildParts(head.tag, data[body..rest], DecodeAll(data, rest, ChildCount(head.tag)).vs);
  }

  lemma {:induction false} EncodingsAreShortest(data: seq<byte>, pos: nat, n: nat)
    requires pos <= |data| && DecodeAll(data, pos, n).GotAll?
    ensures AllStorable(DecodeAll(data, pos, n).vs)
    ensures pos + |EncodeAll(DecodeAll(data, pos, n).vs)| <= DecodeAll(data, pos, n).next
    decreases |data| - pos, 1, n
  {
    hide Decode, Encode, Storable;
    if n > 0 {
      var one := Decode(data, pos);
      EncodingIsShortest(data, pos);
      EncodingsAreShortest(data, one.next, n - 1);
      DecodeAllCons(data, pos, n);
      assert ([one.v] + DecodeAll(data, one.next, n - 1).vs)[1..] == DecodeAll(data, one.next, n - 1).vs;
    }
  }

  lemma {:induction false} NormalKeepsMeasures(v: Value)
    ensures Count(Normal(v)) == Count(v) && Depth(Normal(v)) == Depth(v)
    decreases v, 1
  {
    match v {
      case ArrayV(items) => NormalAllKeepsMeasures(items);
      case MapV(pairs) => NormalAllKeepsMeasures(pairs);
      case _ =>
    }
  }

  lemma {:induction false} NormalAllKeepsMeasures(vs: seq<Value>)
    ensures CountAll(NormalAll(vs)) == CountAll(vs) && DepthAll(NormalAll(vs)) == DepthAll(vs)
    decreases vs, 0
  {
    if vs != [] {
      NormalKeepsMeasures(vs[0]);
      NormalAllKeepsMeasures(vs[1..]);
      assert NormalAll(vs)[1..] == NormalAll(vs[1..]);
    }
  }
}

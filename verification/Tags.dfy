/**
  Tags: the first byte of every MessagePack object, and the length or integer that follows it.
  Floats and extensions are compiled out of the driver, so their lead bytes never yield a tag.
 */
module Tags {
  import opened Bytes

  datatype Tag =
    | Nil
    | Bool(b: bool)
    | Int(i: int)
    | Uint(u: nat)
    | Str(l: nat)
    | Bin(l: nat)
    | Array(n: nat)
    | Map(n: nat)

  /** The errors of mpack_error_t the model meets. Undefined is mpack_assert(0), where C gives no answer. */
  datatype Error = Ok | Io | Invalid | Unsupported | Type | TooBig | Memory | Bug | Data | Undefined

  /** What an integer or a length after the lead byte is for. */
  datatype Kind = KUint | KInt | KStr | KBin | KArray | KMap

  /** What the switch over the lead byte does. */
  datatype Lead =
    | Whole(tag: Tag)
    | Extended(kind: Kind, width: Width)
    | Bad(error: Error)

  /** The table both switches of mpack.c spell out: what each of the 256 lead bytes announces. */
  function Classify(lead: byte): (r: Lead)
    ensures r.Bad? ==> r.error in {Invalid, Unsupported, Undefined}
  {
    if lead <= 0x7f then Whole(Uint(lead))
    else if lead <= 0x8f then Whole(Map(lead - 0x80))
    else if lead <= 0x9f then Whole(Array(lead - 0x90))
    else if lead <= 0xbf then Whole(Str(lead - 0xa0))
    else if lead == 0xc0 then Whole(Nil)
    else if lead == 0xc1 then Bad(Invalid)
    else if lead <= 0xc3 then Whole(Bool(lead == 0xc3))
    else if lead == 0xc4 then Extended(KBin, 1)
    else if lead == 0xc5 then Extended(KBin, 2)
    else if lead == 0xc6 then Extended(KBin, 4)
    else if lead <= 0xc9 then Bad(Unsupported)
    else if lead <= 0xcb then Bad(Undefined)
    else if lead == 0xcc then Extended(KUint, 1)
    else if lead == 0xcd then Extended(KUint, 2)
    else if lead == 0xce then Extended(KUint, 4)
    else if lead == 0xcf then Extended(KUint, 8)
    else if lead == 0xd0 then Extended(KInt, 1)
    else if lead == 0xd1 then Extended(KInt, 2)
    else if lead == 0xd2 then Extended(KInt, 4)
    else if lead == 0xd3 then Extended(KInt, 8)
    else if lead <= 0xd8 then Bad(Unsupported)
    else if lead == 0xd9 then Extended(KStr, 1)
    else if lead == 0xda then Extended(KStr, 2)
    else if lead == 0xdb then Extended(KStr, 4)
    else if lead == 0xdc then Extended(KArray, 2)
    else if lead == 0xdd then Extended(KArray, 4)
    else if lead == 0xde then Extended(KMap, 2)
    else if lead == 0xdf then Extended(KMap, 4)
    else Whole(Int(lead - 0x100))
  }

  /** The tag a lead byte of the given kind makes of the raw unsigned value after it. */
  function Extend(kind: Kind, width: Width, raw: nat): (tag: Tag)
    requires raw < Limit(width)
  {
    match kind
    case KUint => Uint(raw)
    case KInt => Int(Signed(raw, width))
    case KStr => Str(raw)
    case KBin => Bin(raw)
    case KArray => Array(raw)
    case KMap => Map(raw)
  }

  /** A tag C can hold: 64-bit integers, 32-bit lengths and counts. */
  predicate InRange(tag: Tag) {
    match tag
    case Nil => true
    case Bool(_) => true
    case Int(i) => S64_MIN <= i <= S64_MAX
    case Uint(u) => u <= U64_MAX
    case Str(l) => l <= U32_MAX
    case Bin(l) => l <= U32_MAX
    case Array(n) => n <= U32_MAX
    case Map(n) => n <= U32_MAX
  }

  /** The outcome of reading a tag: the tag and its size, too few bytes, or a lead byte without a tag. */
  datatype Head =
    | Tagged(tag: Tag, size: nat)
    | Short
    | Rejected(error: Error)

  /** The tag that stands in data at pos. */
  function ReadHead(data: seq<byte>, pos: nat): (head: Head)
    ensures head.Rejected? ==> head.error in {Invalid, Unsupported, Undefined}
    ensures head.Tagged? ==> 1 <= head.size <= 9 && pos + head.size <= |data| && InRange(head.tag)
  {
    if pos >= |data| then Short
    else match Classify(data[pos])
      case Whole(tag) => Tagged(tag, 1)
      case Extended(kind, width) =>
        if pos + 1 + width > |data| then Short
        else Tagged(Extend(kind, width, Load(data, pos + 1, width)), 1 + width)
      case Bad(error) => Rejected(error)
  }

  /** The bytes after the tag that belong to the same object and are not objects themselves. */
  function PayloadSize(tag: Tag): nat {
    match tag
    case Str(l) => l
    case Bin(l) => l
    case _ => 0
  }

  /** The objects a tag announces: the elements of an array, the keys and values of a map. */
  function ChildCount(tag: Tag): nat {
    match tag
    case Array(n) => n
    case Map(n) => 2 * n
    case _ => 0
  }

  // ----- The compact encoder -----

  /** mpack_write_u64, which every other unsigned writer agrees with on its own range. */
  function EncodeUint(u: nat): (e: seq<byte>)
    requires u <= U64_MAX
    ensures 1 <= |e| <= 9
  {
    if u <= 127 then [u]
    else if u <= U8_MAX then [0xcc] + Store(u, 1)
    else if u <= U16_MAX then [0xcd] + Store(u, 2)
    else if u <= U32_MAX then [0xce] + Store(u, 4)
    else [0xcf] + Store(u, 8)
  }

  /** mpack_write_i64, which every other signed writer agrees with on its own range. */
  function EncodeInt(i: int): (e: seq<byte>)
    requires S64_MIN <= i <= S64_MAX
    ensures 1 <= |e| <= 9
  {
    if i >= 0 then EncodeUint(i)
    else if i >= -32 then [i + 0x100]
    else if i >= -0x80 then [0xd0] + Store(Unsigned(i, 1), 1)
    else if i >= -0x8000 then [0xd1] + Store(Unsigned(i, 2), 2)
    else if i >= S32_MIN then [0xd2] + Store(Unsigned(i, 4), 4)
    else [0xd3] + Store(Unsigned(i, 8), 8)
  }

  /** The tag every writer emits for a value, in the shortest form the format has. */
  function EncodeTag(tag: Tag): (e: seq<byte>)
    requires InRange(tag)
    ensures 1 <= |e| <= 9
  {
    match tag
    case Nil => [0xc0]
    case Bool(b) => [if b then 0xc3 else 0xc2]
    case Int(i) => EncodeInt(i)
    case Uint(u) => EncodeUint(u)
    case Str(l) =>
      if l <= 31 then [0xa0 + l]
      else if l <= U8_MAX then [0xd9] + Store(l, 1)
      else if l <= U16_MAX then [0xda] + Store(l, 2)
      else [0xdb] + Store(l, 4)
    case Bin(l) =>
      if l <= U8_MAX then [0xc4] + Store(l, 1)
      else if l <= U16_MAX then [0xc5] + Store(l, 2)
      else [0xc6] + Store(l, 4)
    case Array(n) =>
      if n <= 15 then [0x90 + n]
      else if n <= U16_MAX then [0xdc] + Store(n, 2)
      else [0xdd] + Store(n, 4)
    case Map(n) =>
      if n <= 15 then [0x80 + n]
      else if n <= U16_MAX then [0xde] + Store(n, 2)
      else [0xdf] + Store(n, 4)
  }

  /** Encoding forgets one thing: a non-negative signed integer comes back unsigned. */
  function Canonical(tag: Tag): Tag {
    if tag.Int? && tag.i >= 0 then Uint(tag.i) else tag
  }

  lemma ExtendedRoundTrip(data: seq<byte>, pos: nat, lead: byte, kind: Kind, width: Width, raw: nat)
    requires Classify(lead) == Extended(kind, width) && raw < Limit(width)
    requires At(data, pos, [lead] + Store(raw, width))
    ensures ReadHead(data, pos) == Tagged(Extend(kind, width, raw), 1 + width)
  {
    AtSplit(data, pos, [lead], Store(raw, width));
    AtIndex(data, pos, [lead], 0);
    LoadStore(data, pos + 1, raw, width);
  }

  lemma UintRoundTrip(data: seq<byte>, pos: nat, u: nat)
    requires u <= U64_MAX && At(data, pos, EncodeUint(u))
    ensures ReadHead(data, pos) == Tagged(Uint(u), |EncodeUint(u)|)
  {
    if u <= 127 {
      AtIndex(data, pos, EncodeUint(u), 0);
    } else if u <= U8_MAX {
      ExtendedRoundTrip(data, pos, 0xcc, KUint, 1, u);
    } else if u <= U16_MAX {
      ExtendedRoundTrip(data, pos, 0xcd, KUint, 2, u);
    } else if u <= U32_MAX {
      ExtendedRoundTrip(data, pos, 0xce, KUint, 4, u);
    } else {
      ExtendedRoundTrip(data, pos, 0xcf, KUint, 8, u);
    }
  }

  lemma IntRoundTrip(data: seq<byte>, pos: nat, i: int)
    requires S64_MIN <= i < 0 && At(data, pos, EncodeInt(i))
    ensures ReadHead(data, pos) == Tagged(Int(i), |EncodeInt(i)|)
  {
    if i >= -32 {
      AtIndex(data, pos, EncodeInt(i), 0);
    } else if i >= -0x80 {
      ExtendedRoundTrip(data, pos, 0xd0, KInt, 1, Unsigned(i, 1));
    } else if i >= -0x8000 {
      ExtendedRoundTrip(data, pos, 0xd1, KInt, 2, Unsigned(i, 2));
    } else if i >= S32_MIN {
      ExtendedRoundTrip(data, pos, 0xd2, KInt, 4, Unsigned(i, 4));
    } else {
      ExtendedRoundTrip(data, pos, 0xd3, KInt, 8, Unsigned(i, 8));
    }
  }

  lemma LengthRoundTrip(data: seq<byte>, pos: nat, tag: Tag)
    requires InRange(tag) && (tag.Str? || tag.Bin? || tag.Array? || tag.Map?)
    requires At(data, pos, EncodeTag(tag))
    ensures ReadHead(data, pos) == Tagged(tag, |EncodeTag(tag)|)
  {
    var e := EncodeTag(tag);
    AtIndex(data, pos, e, 0);
    match tag {
      case Str(l) =>
        if l > U16_MAX { ExtendedRoundTrip(data, pos, 0xdb, KStr, 4, l); }
        else if l > U8_MAX { ExtendedRoundTrip(data, pos, 0xda, KStr, 2, l); }
        else if l > 31 { ExtendedRoundTrip(data, pos, 0xd9, KStr, 1, l); }
      case Bin(l) =>
        if l > U16_MAX { ExtendedRoundTrip(data, pos, 0xc6, KBin, 4, l); }
        else if l > U8_MAX { ExtendedRoundTrip(data, pos, 0xc5, KBin, 2, l); }
        else { ExtendedRoundTrip(data, pos, 0xc4, KBin, 1, l); }
      case Array(n) =>
        if n > U16_MAX { ExtendedRoundTrip(data, pos, 0xdd, KArray, 4, n); }
        else if n > 15 { ExtendedRoundTrip(data, pos, 0xdc, KArray, 2, n); }
      case Map(n) =>
        if n > U16_MAX { ExtendedRoundTrip(data, pos, 0xdf, KMap, 4, n); }
        else if n > 15 { ExtendedRoundTrip(data, pos, 0xde, KMap, 2, n); }
    }
  }

  /** Wherever an encoded tag stands, reading there gives the tag back and consumes exactly its bytes. */
  lemma TagRoundTrip(data: seq<byte>, pos: nat, tag: Tag)
    requires InRange(tag) && At(data, pos, EncodeTag(tag))
    ensures ReadHead(data, pos) == Tagged(Canonical(tag), |EncodeTag(tag)|)
  {
    match tag {
      case Nil => AtIndex(data, pos, EncodeTag(tag), 0);
      case Bool(_) => AtIndex(data, pos, EncodeTag(tag), 0);
      case Int(i) => if i >= 0 { UintRoundTrip(data, pos, i); } else { IntRoundTrip(data, pos, i); }
      case Uint(u) => UintRoundTrip(data, pos, u);
      case _ => LengthRoundTrip(data, pos, tag);
    }
  }

  /** The number an integer tag stands for. */
  function Number(tag: Tag): int
    requires tag.Int? || tag.Uint?
  {
    if tag.Int? then tag.i else tag.u
  }

  /** The bytes any encoding of the number needs. */
  function FewestBytes(i: int): nat {
    if -32 <= i <= 127 then 1
    else if -0x80 <= i <= U8_MAX then 2
    else if -0x8000 <= i <= U16_MAX then 3
    else if S32_MIN <= i <= U32_MAX then 5
    else 9
  }

  /** No bytes that read as a number are fewer than those the writers emit for it. */
  lemma IntegersAreShortest(data: seq<byte>, pos: nat, tag: Tag)
    requires (tag.Int? || tag.Uint?) && InRange(tag)
    requires ReadHead(data, pos).Tagged?
    requires var other := ReadHead(data, pos).tag; (other.Int? || other.Uint?) && Number(other) == Number(tag)
    ensures |EncodeTag(tag)| <= ReadHead(data, pos).size
  {
    assert |EncodeTag(tag)| == FewestBytes(Number(tag));
  }

  /** Nor are any that read as some tag at all. */
  lemma TagsAreShortest(data: seq<byte>, pos: nat)
    requires ReadHead(data, pos).Tagged?
    ensures |EncodeTag(ReadHead(data, pos).tag)| <= ReadHead(data, pos).size
  {
    var tag := ReadHead(data, pos).tag;
    if tag.Int? || tag.Uint? {
      IntegersAreShortest(data, pos, tag);
    }
  }

  /** Reading a tag depends on its own bytes alone. */
  lemma HeadLocal(data: seq<byte>, pos: nat, other: seq<byte>, otherPos: nat)
    requires ReadHead(data, pos).Tagged?
    requires At(other, otherPos, data[pos..pos + ReadHead(data, pos).size])
    ensures ReadHead(other, otherPos) == ReadHead(data, pos)
  {
    var size := ReadHead(data, pos).size;
    AtIndex(other, otherPos, data[pos..pos + size], 0);
    if size > 1 {
      BehindLead(data, pos, other, otherPos, size - 1);
    }
  }

  lemma BehindLead(data: seq<byte>, pos: nat, other: seq<byte>, otherPos: nat, width: Width)
    requires pos + 1 + width <= |data| && At(other, otherPos, data[pos..pos + 1 + width])
    ensures otherPos + 1 + width <= |other|
    ensures Load(other, otherPos + 1, width) == Load(data, pos + 1, width)
  {
    hide Load;
    var f := data[pos + 1..pos + 1 + width];
    assert data[pos..pos + 1 + width] == [data[pos]] + f;
    AtSplit(other, otherPos, [data[pos]], f);
    LoadLocal(other, otherPos + 1, f, width);
    LoadLocal(data, pos + 1, f, width);
  }

  /** Reading a tag is reading it in a suffix that starts no later. */
  lemma HeadShifted(data: seq<byte>, low: nat, pos: nat)
    requires low <= pos <= |data|
    ensures ReadHead(data[low..], pos - low) == ReadHead(data, pos)
  {
    hide Load, Extend, Classify;
    var suffix := data[low..];
    if ReadHead(data, pos).Tagged? {
      assert suffix[pos - low..pos - low + ReadHead(data, pos).size] == data[pos..pos + ReadHead(data, pos).size];
      HeadLocal(data, pos, suffix, pos - low);
    }
  }

  // ----- mpack_tag_cmp -----

  /** The order of the types in mpack_type_t, which decides between tags of different types. */
  function Rank(tag: Tag): nat {
    match tag
    case Nil => 1
    case Bool(_) => 2
    case Int(_) => 3
    case Uint(_) => 4
    case Str(_) => 7
    case Bin(_) => 8
    case Array(_) => 9
    case Map(_) => 10
  }

  /** -1, 0 or 1 as left comes before, with or after right. */
  function CompareInts(left: int, right: int): int {
    if left == right then 0 else if left < right then -1 else 1
  }

  function Compare(left: Tag, right: Tag): (c: int) {
    var l, r := Canonical(left), Canonical(right);
    if Rank(l) != Rank(r) then (if Rank(l) < Rank(r) then -1 else 1)
    else match l
      case Nil => 0
      case Bool(b) => (if b then 1 else 0) - (if r.b then 1 else 0)
      case Int(i) => CompareInts(i, r.i)
      case Uint(u) => CompareInts(u, r.u)
      case Str(n) => CompareInts(n, r.l)
      case Bin(n) => CompareInts(n, r.l)
      case Array(n) => CompareInts(n, r.n)
      case Map(n) => CompareInts(n, r.n)
  }

  /** mpack_tag_cmp calls two tags equal exactly when the encoder cannot tell them apart. */
  lemma EqualIffSameEncoding(left: Tag, right: Tag)
    requires InRange(left) && InRange(right)
    ensures Compare(left, right) == 0 <==> Canonical(left) == Canonical(right)
    ensures Compare(left, right) == 0 <==> EncodeTag(left) == EncodeTag(right)
  {
    assert EncodeTag(Canonical(left)) == EncodeTag(left) && EncodeTag(Canonical(right)) == EncodeTag(right);
    if EncodeTag(left) == EncodeTag(right) {
      var e := EncodeTag(left);
      assert e[0..|e|] == e;
      TagRoundTrip(e, 0, left);
      TagRoundTrip(e, 0, right);
    }
  }

  /** mpack_tag_cmp is a total order, and by the number where both tags are integers. */
  lemma CompareOrders(a: Tag, b: Tag, c: Tag)
    ensures -1 <= Compare(a, b) <= 1 && Compare(b, a) == -Compare(a, b)
    ensures Compare(a, b) <= 0 && Compare(b, c) <= 0 ==> Compare(a, c) <= 0
    ensures (a.Int? || a.Uint?) && (b.Int? || b.Uint?) ==> (Compare(a, b) < 0 <==> Number(a) < Number(b))
  {
  }

  /** Types come in the order of mpack_type_t, and within a type the value decides. */
  lemma CompareByType(a: nat, b: nat, i: int)
    requires i < 0
    ensures Compare(Nil, Bool(false)) < 0 && Compare(Bool(false), Bool(true)) < 0 && Compare(Bool(true), Int(i)) < 0
    ensures Compare(Int(i), Uint(a)) < 0 && Compare(Uint(a), Str(b)) < 0 && Compare(Str(a), Bin(b)) < 0
    ensures Compare(Bin(a), Array(b)) < 0 && Compare(Array(a), Map(b)) < 0
    ensures a < b ==> Compare(Str(a), Str(b)) < 0 && Compare(Bin(a), Bin(b)) < 0
    ensures a < b ==> Compare(Array(a), Array(b)) < 0 && Compare(Map(a), Map(b)) < 0
  {
  }
}

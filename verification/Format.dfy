/**
  The format in absolute terms: every lead byte by its number, and every integer by its digits to base
  256. The tags, the decoder and the parse are held against it here.
 */
module Format {
  import opened Bytes
  import opened Tags
  import opened Decoder
  import opened Parser
  import opened Walks
  import opened Agreement
  import opened Tree

  // ----- Integers -----

  /** The number that digits to base 256 make, the most significant first. */
  function BigEndian(digits: seq<byte>): (n: nat) {
    if digits == [] then 0 else BigEndian(digits[..|digits| - 1]) * 256 + digits[|digits| - 1]
  }

  /** How many numbers so many digits make. */
  function Power(digits: nat): (p: nat)
    ensures p >= 1
  {
    if digits == 0 then 1 else 256 * Power(digits - 1)
  }

  /** The number the digits make in two's complement: the first half of them stands for itself. */
  function TwosComplement(digits: seq<byte>): int
    requires digits != []
  {
    if digits[0] >= 0x80 then BigEndian(digits) - Power(|digits|) else BigEndian(digits)
  }

  lemma {:induction false} FirstDigit(digits: seq<byte>)
    requires digits != []
    ensures digits[0] * Power(|digits| - 1) <= BigEndian(digits) < (digits[0] + 1) * Power(|digits| - 1)
  {
    var n := |digits| - 1;
    if n == 0 {
      assert digits[..0] == [] && BigEndian([]) == 0;
    } else {
      FirstDigit(digits[..n]);
      assert digits[..n][0] == digits[0];
      OneMore(digits[0], Power(n - 1), BigEndian(digits[..n]), digits[n]);
      hide BigEndian;
    }
  }

  lemma OneMore(d: int, p: int, n: int, digit: byte)
    requires d * p <= n < (d + 1) * p
    ensures d * (256 * p) <= n * 256 + digit < (d + 1) * (256 * p)
  {
    assert d * (256 * p) == (d * p) * 256;
    assert (d + 1) * (256 * p) == ((d + 1) * p) * 256;
  }

  /** The number is congruent to that of the plain digits, and negative exactly if the first bit is set. */
  lemma TwosComplementSign(digits: seq<byte>)
    requires digits != []
    ensures var i, p: int := TwosComplement(digits), Power(|digits|);
            && (i == BigEndian(digits) || i == BigEndian(digits) - p) && -p <= 2 * i < p
            && (i < 0 <==> digits[0] >= 0x80)
  {
    FirstDigit(digits);
    Halves(digits[0], Power(|digits| - 1));
    hide BigEndian;
  }

  lemma Halves(d: byte, q: int)
    requires q >= 1
    ensures 0 <= d * q && (d + 1) * q <= 256 * q
    ensures d >= 0x80 ==> d * q >= 128 * q
    ensures d < 0x80 ==> (d + 1) * q <= 128 * q
  {
    var e: int := d + 1;
    assert (256 - e) * q >= 0;
    if d >= 0x80 {
      assert (d - 128) * q >= 0;
    } else {
      assert (128 - e) * q >= 0;
    }
  }

  lemma PairOfDigits(data: seq<byte>, pos: nat, n: nat)
    requires pos + n + 2 <= |data|
    ensures BigEndian(data[pos..pos + n + 2]) == BigEndian(data[pos..pos + n]) * 0x1_0000 + Load2(data, pos + n)
  {
    var longer, shorter := data[pos..pos + n + 2], data[pos..pos + n + 1];
    assert longer[..n + 1] == shorter && shorter[..n] == data[pos..pos + n];
    assert longer[n + 1] == data[pos + n + 1] && shorter[n] == data[pos + n];
  }

  lemma FourDigits(data: seq<byte>, pos: nat, n: nat)
    requires pos + n + 4 <= |data|
    ensures BigEndian(data[pos..pos + n + 4]) == BigEndian(data[pos..pos + n]) * 0x1_0000_0000 + Load4(data, pos + n)
  {
    PairOfDigits(data, pos, n);
    PairOfDigits(data, pos, n + 2);
    hide BigEndian, Load2;
  }

  lemma LoadDigits(data: seq<byte>, pos: nat, width: Width)
    requires pos + width <= |data|
    ensures Load(data, pos, width) == BigEndian(data[pos..pos + width])
  {
    assert data[pos..pos] == [] && BigEndian([]) == 0;
    if width == 1 {
      assert data[pos..pos + 1][..0] == [] && data[pos..pos + 1][0] == data[pos];
    } else {
      hide BigEndian, Load2, Load4;
      if width == 2 {
        PairOfDigits(data, pos, 0);
      } else {
        FourDigits(data, pos, 0);
        if width == 8 {
          FourDigits(data, pos, 4);
        }
      }
    }
  }

  /** What is loaded is the number its bytes make. */
  lemma LoadIsBigEndian(data: seq<byte>, pos: nat, width: Width)
    requires pos + width <= |data|
    ensures Load(data, pos, width) == BigEndian(data[pos..pos + width])
    ensures Signed(Load(data, pos, width), width) == TwosComplement(data[pos..pos + width])
  {
    hide Load, BigEndian, Power;
    LoadDigits(data, pos, width);
    Powers();
    TwosComplementSign(data[pos..pos + width]);
  }

  lemma Powers()
    ensures Power(1) == 0x100 && Power(2) == 0x1_0000 && Power(4) == 0x1_0000_0000
    ensures Power(8) == 0x1_0000_0000_0000_0000
  {
    assert Power(3) == 0x100_0000 && Power(4) == 0x1_0000_0000;
    assert Power(5) == 0x100_0000_0000 && Power(6) == 0x1_0000_0000_0000;
    assert Power(7) == 0x100_0000_0000_0000;
  }

  // ----- Lead bytes -----

  /** The tags of one byte. */
  lemma ShortForms(data: seq<byte>, pos: nat)
    requires pos < |data|
    ensures var lead, head := data[pos], ReadHead(data, pos);
            && (lead <= 0x7f ==> head == Tagged(Uint(lead), 1))
            && (0x80 <= lead <= 0x8f ==> head == Tagged(Map(lead % 16), 1))
            && (0x90 <= lead <= 0x9f ==> head == Tagged(Array(lead % 16), 1))
            && (0xa0 <= lead <= 0xbf ==> head == Tagged(Str(lead % 32), 1))
            && (lead == 0xc0 ==> head == Tagged(Nil, 1))
            && (lead == 0xc2 ==> head == Tagged(Bool(false), 1))
            && (lead == 0xc3 ==> head == Tagged(Bool(true), 1))
            && (0xe0 <= lead ==> head == Tagged(Int(TwosComplement([lead])), 1))
  {
    var lead := data[pos];
    assert [lead][..0] == [] && BigEndian([]) == 0 && BigEndian([lead]) == lead && Power(1) == 256;
  }

  /** The tags with a number of 2^e bytes behind the lead byte. */
  lemma LongForms(data: seq<byte>, pos: nat, e: nat)
    requires e < 4 && pos + 1 + [1, 2, 4, 8][e] <= |data|
    ensures var lead, size, head := data[pos], 1 + [1, 2, 4, 8][e], ReadHead(data, pos);
            var digits := data[pos + 1..pos + size];
            && (lead == 0xcc + e ==> head == Tagged(Uint(BigEndian(digits)), size))
            && (lead == 0xd0 + e ==> head == Tagged(Int(TwosComplement(digits)), size))
            && (e < 3 && lead == 0xc4 + e ==> head == Tagged(Bin(BigEndian(digits)), size))
            && (e < 3 && lead == 0xd9 + e ==> head == Tagged(Str(BigEndian(digits)), size))
            && (e in {1, 2} && lead == 0xdb + e ==> head == Tagged(Array(BigEndian(digits)), size))
            && (e in {1, 2} && lead == 0xdd + e ==> head == Tagged(Map(BigEndian(digits)), size))
  {
    hide Load, Signed, BigEndian, TwosComplement, Power;
    var width: Width := [1, 2, 4, 8][e];
    LoadIsBigEndian(data, pos + 1, width);
  }

  /** The bytes a tag takes, by its lead byte. */
  function TagSize(lead: byte): nat {
    if lead in {0xc4, 0xcc, 0xd0, 0xd9} then 2
    else if lead in {0xc5, 0xcd, 0xd1, 0xda, 0xdc, 0xde} then 3
    else if lead in {0xc6, 0xce, 0xd2, 0xdb, 0xdd, 0xdf} then 5
    else if lead in {0xcf, 0xd3} then 9
    else 1
  }

  /** The lead bytes without a tag in this build, and what is flagged for them. */
  predicate Refused(lead: byte, error: Error) {
    || (error == Invalid && lead == 0xc1)
    || (error == Unsupported && lead in {0xc7, 0xc8, 0xc9, 0xd4, 0xd5, 0xd6, 0xd7, 0xd8})
    || (error == Undefined && lead in {0xca, 0xcb})
  }

  /** A tag is read unless its lead byte is one of those, or the data ends before the tag does. */
  lemma HeadsRead(data: seq<byte>, pos: nat)
    ensures forall error :: ReadHead(data, pos) == Rejected(error) <==> pos < |data| && Refused(data[pos], error)
    ensures ReadHead(data, pos).Short? <==> pos >= |data| || pos + TagSize(data[pos]) > |data|
    ensures ReadHead(data, pos).Tagged? ==> ReadHead(data, pos).size == TagSize(data[pos])
  {
  }

  /** What an object is, by its tag: a map of n pairs has 2n objects, a string the bytes behind the tag. */
  lemma ObjectForms(data: seq<byte>, pos: nat)
    requires ReadHead(data, pos).Tagged? && Decode(data, pos).Got?
    ensures var r, body := Decode(data, pos), pos + ReadHead(data, pos).size;
            match ReadHead(data, pos).tag
            case Nil => r == Got(NilV, body)
            case Bool(b) => r == Got(BoolV(b), body)
            case Int(i) => r == Got(IntV(i), body)
            case Uint(u) => r == Got(UintV(u), body)
            case Str(l) => body + l <= |data| && r == Got(StrV(data[body..body + l]), body + l)
            case Bin(l) => body + l <= |data| && r == Got(BinV(data[body..body + l]), body + l)
            case Array(n) => r.v.ArrayV? && DecodeAll(data, body, n) == GotAll(r.v.items, r.next)
            case Map(n) => r.v.MapV? && DecodeAll(data, body, 2 * n) == GotAll(r.v.pairs, r.next)
  {
    hide ReadHead, Decode, DecodeAll;
    var head := ReadHead(data, pos);
    DecodeHead(data, pos);
    var rest := pos + head.size + PayloadSize(head.tag);
    DecodeNothing(data, rest);
  }

  /** Missing bytes are found before a limit is: an array that claims more than is there is invalid, however big. */
  lemma ClaimsComeFirst(data: seq<byte>, n: nat, poolCount: nat, capacity: nat)
    requires 1 <= poolCount && 1 <= capacity
    requires ReadHead(data, 0).Tagged? && ReadHead(data, 0).tag == Array(n)
    ensures var left, outcome := |data| - ReadHead(data, 0).size, Outcome(data, poolCount, capacity);
            && (left < n ==> outcome == Invalid)
            && (left >= n > 0 && (n >= poolCount || capacity == 1) ==> outcome == TooBig)
  {
    hide ReadHead;
    if |data| - ReadHead(data, 0).size < n {
      assert !GoesIn(data, 0, 1, 1, 1, 0, poolCount, capacity);
    } else if n > 0 && (n >= poolCount || capacity == 1) {
      BeyondLimit(data, 0, 1, 1, 1, 0, poolCount, capacity);
    }
  }

  // ----- Where the decoder reads tags -----

  /** The positions at which tags are read on the way through some objects from pos on; a failure ends the way. */
  function TagPositions(data: seq<byte>, pos: nat, pending: nat): (at: seq<nat>)
    requires pos <= |data|
    decreases |data| - pos
  {
    if pending == 0 then []
    else if !ReadHead(data, pos).Tagged? then [pos]
    else
      var head := ReadHead(data, pos);
      var rest := pos + head.size + PayloadSize(head.tag);
      [pos] + if rest > |data| then [] else TagPositions(data, rest, ChildCount(head.tag) + (pending - 1))
  }

  /** At one of the positions stands a lead byte for which the error is flagged. */
  ghost predicate RefusedAt(data: seq<byte>, at: seq<nat>, error: Error) {
    exists k :: 0 <= k < |at| && at[k] < |data| && Refused(data[at[k]], error)
  }

  /** At each of the positions stand a tag and its payload, to the end. */
  ghost predicate AllWhole(data: seq<byte>, at: seq<nat>) {
    forall k :: 0 <= k < |at| ==> Whole(data, at[k])
  }

  predicate Whole(data: seq<byte>, pos: nat) {
    var head := ReadHead(data, pos);
    head.Tagged? && pos + head.size + PayloadSize(head.tag) <= |data|
  }

  lemma RefusedFirst(data: seq<byte>, pos: nat, at: seq<nat>, error: Error)
    ensures RefusedAt(data, [pos] + at, error) <==>
            (pos < |data| && Refused(data[pos], error)) || RefusedAt(data, at, error)
  {
    var all := [pos] + at;
    assert all[0] == pos && forall k :: 0 <= k < |at| ==> at[k] == all[k + 1];
  }

  lemma WholeFirst(data: seq<byte>, pos: nat, at: seq<nat>)
    ensures AllWhole(data, [pos] + at) <==> Whole(data, pos) && AllWhole(data, at)
  {
    var all := [pos] + at;
    assert all[0] == pos && forall k :: 0 <= k < |at| ==> at[k] == all[k + 1];
  }

  lemma {:induction false} PositionsDecide(data: seq<byte>, pos: nat, pending: nat, error: Error)
    requires pos <= |data| && error != Io
    ensures var all, at := DecodeAll(data, pos, pending), TagPositions(data, pos, pending);
            && (all.GotAll? <==> AllWhole(data, at))
            && (all == NoValues(error) <==> RefusedAt(data, at, error))
    decreases |data| - pos
  {
    hide ReadHead, DecodeAll, NodeTagsAll, RefusedAt, AllWhole, Refused, PayloadSize, ChildCount;
    NoPositions(data, error);
    if pending == 0 {
      DecodeNothing(data, pos);
    } else if !ReadHead(data, pos).Tagged? {
      LastPosition(data, pos, pending, error);
    } else {
      var head := ReadHead(data, pos);
      var rest, more := pos + head.size + PayloadSize(head.tag), ChildCount(head.tag) + (pending - 1);
      FlatStep(data, pos, pending);
      FirstPosition(data, pos, if rest > |data| then [] else TagPositions(data, rest, more), error);
      if rest <= |data| {
        PositionsDecide(data, rest, more, error);
      }
    }
  }

  lemma FirstPosition(data: seq<byte>, pos: nat, at: seq<nat>, error: Error)
    requires ReadHead(data, pos).Tagged?
    ensures RefusedAt(data, [pos] + at, error) <==> RefusedAt(data, at, error)
    ensures AllWhole(data, [pos] + at) <==> Whole(data, pos) && AllWhole(data, at)
  {
    hide ReadHead, RefusedAt, AllWhole, Refused, Whole;
    HeadsRead(data, pos);
    RefusedFirst(data, pos, at, error);
    WholeFirst(data, pos, at);
  }

  lemma LastPosition(data: seq<byte>, pos: nat, pending: nat, error: Error)
    requires pos <= |data| && 0 < pending && !ReadHead(data, pos).Tagged? && error != Io
    ensures var all := DecodeAll(data, pos, pending);
            && !all.GotAll? && !AllWhole(data, [pos])
            && (all == NoValues(error) <==> RefusedAt(data, [pos], error))
  {
    hide ReadHead, DecodeAll, RefusedAt, AllWhole, Refused;
    assert [pos] + [] == [pos];
    HeadsRead(data, pos);
    FlatFails(data, pos, pending);
    RefusedFirst(data, pos, [], error);
    WholeFirst(data, pos, []);
    NoPositions(data, error);
  }

  lemma NoPositions(data: seq<byte>, error: Error)
    ensures !RefusedAt(data, [], error) && AllWhole(data, [])
  {
  }

  /**
    An object is found exactly if a tag with its payload stands wherever one is to be read, and refused
    for a bad lead byte exactly if one of those that cause the error stands there.
   */
  lemma DecodesIffWhole(data: seq<byte>, error: Error)
    requires error != Io
    ensures Decode(data, 0).Got? <==> AllWhole(data, TagPositions(data, 0, 1))
    ensures Decode(data, 0) == NoValue(error) <==> RefusedAt(data, TagPositions(data, 0, 1), error)
  {
    hide Decode, DecodeAll, TagPositions, RefusedAt, AllWhole;
    PositionsDecide(data, 0, 1, error);
    OneObject(data);
  }

  /**
    Whatever its limits, a parse accepts nothing unless such tags stand there, and it flags a bad lead
    byte, or runs into an unhandled one, only where one stands.
   */
  lemma OutcomeNeedsBytes(data: seq<byte>, poolCount: nat, capacity: nat)
    requires 1 <= poolCount && 1 <= capacity
    ensures var at, outcome := TagPositions(data, 0, 1), Outcome(data, poolCount, capacity);
            && (outcome == Ok ==> AllWhole(data, at) && forall error :: !RefusedAt(data, at, error))
            && (outcome in {Unsupported, Undefined} ==> RefusedAt(data, at, outcome))
            && (outcome == Invalid ==> !AllWhole(data, at))
  {
    hide Decode, TagPositions, RefusedAt, AllWhole, Walk, Refused;
    BadOutcome(data, poolCount, capacity);
    OutcomeOk(data, poolCount, capacity);
    if Decode(data, 0).Got? {
      ObjectOutcome(data, poolCount, capacity);
    }
    forall error | error in {Invalid, Unsupported, Undefined}
      ensures Decode(data, 0) == NoValue(error) <==> RefusedAt(data, TagPositions(data, 0, 1), error)
      ensures Decode(data, 0).Got? <==> AllWhole(data, TagPositions(data, 0, 1))
    {
      DecodesIffWhole(data, error);
    }
    assert AllWhole(data, TagPositions(data, 0, 1)) <==> Decode(data, 0).Got? by { DecodesIffWhole(data, Invalid); }
    forall error | error !in {Invalid, Unsupported, Undefined}
      ensures !RefusedAt(data, TagPositions(data, 0, 1), error)
    {
      OnlyThreeErrors(data, TagPositions(data, 0, 1), error);
    }
  }

  lemma OnlyThreeErrors(data: seq<byte>, at: seq<nat>, error: Error)
    requires error !in {Invalid, Unsupported, Undefined}
    ensures !RefusedAt(data, at, error)
  {
  }

  // ----- Integers in messages -----

  /** The bytes are one of the forms of the integer. */
  predicate Spells(bytes: seq<byte>, i: int)
    requires bytes != []
  {
    || (|bytes| == 1 && bytes[0] <= 0x7f && i == bytes[0])
    || (|bytes| == 1 && bytes[0] >= 0xe0 && i + 256 == bytes[0])
    || ((|bytes|, bytes[0]) in {(2, 0xcc), (3, 0xcd), (5, 0xce), (9, 0xcf)} && i == BigEndian(bytes[1..]))
    || ((|bytes|, bytes[0]) in {(2, 0xd0), (3, 0xd1), (5, 0xd2), (9, 0xd3)} && i == TwosComplement(bytes[1..]))
  }

  /** An object is an integer exactly if its bytes are one of the forms of it. */
  lemma IntegersAreSpelled(data: seq<byte>, pos: nat, next: nat, i: int)
    requires pos < next <= |data|
    ensures Spells(data[pos..next], i) <==>
            var r := Decode(data, pos); r.Got? && r.next == next && IsNumber(r.v) && NumberOf(r.v) == i
  {
    hide Spells, IntegerTag, ReadHead, Decode, DecodeAll;
    DecodeHead(data, pos);
    IntegerHeads(data, pos, next, i);
    IntegerObjects(data, pos, next, i);
  }

  /** The tag at pos is one of the integer, and ends at next. */
  ghost predicate IntegerTag(data: seq<byte>, pos: nat, next: nat, i: int) {
    var head := ReadHead(data, pos);
    head.Tagged? && (head.tag.Int? || head.tag.Uint?) && Number(head.tag) == i && pos + head.size == next
  }

  lemma IntegerObjects(data: seq<byte>, pos: nat, next: nat, i: int)
    requires pos < next <= |data|
    ensures IntegerTag(data, pos, next, i) <==>
            var r := Decode(data, pos); r.Got? && r.next == next && IsNumber(r.v) && NumberOf(r.v) == i
  {
    hide ReadHead, DecodeAll;
    DecodeHead(data, pos);
    var head := ReadHead(data, pos);
    if head.Tagged? && pos + head.size <= |data| {
      DecodeNothing(data, pos + head.size);
    }
  }

  lemma IntegerHeads(data: seq<byte>, pos: nat, next: nat, i: int)
    requires pos < next <= |data|
    ensures Spells(data[pos..next], i) <==> IntegerTag(data, pos, next, i)
  {
    hide BigEndian, TwosComplement, ReadHead;
    var bytes, size := data[pos..next], TagSize(data[pos]);
    HeadsRead(data, pos);
    if 0x80 <= data[pos] < 0xe0 && !(0xcc <= data[pos] <= 0xd3) {
      OtherTags(data, pos);
    }
    if |bytes| != size {
      hide Refused;
    } else if size == 1 {
      ShortForms(data, pos);
      OneDigit(data[pos]);
    } else {
      assert bytes[1..] == data[pos + 1..pos + size];
      LongForms(data, pos, if size == 2 then 0 else if size == 3 then 1 else if size == 5 then 2 else 3);
    }
  }

  /** Other lead bytes make no integers. */
  lemma OtherTags(data: seq<byte>, pos: nat)
    requires pos < |data| && 0x80 <= data[pos] < 0xe0 && !(0xcc <= data[pos] <= 0xd3)
    ensures ReadHead(data, pos).Tagged? ==> !ReadHead(data, pos).tag.Int? && !ReadHead(data, pos).tag.Uint?
  {
  }

  lemma OneDigit(digit: byte)
    ensures BigEndian([digit]) == digit && TwosComplement([digit]) == if digit >= 0x80 then digit - 256 else digit
  {
    assert [digit][..0] == [] && BigEndian([]) == 0 && Power(1) == 256;
  }

  /** From pos on stand the integers, one behind the other, each in one of its forms. */
  predicate SpelledFrom(data: seq<byte>, pos: nat, ns: seq<int>)
    requires pos <= |data|
    decreases |ns|
  {
    || ns == []
    || (&& pos < |data|
        && var next := pos + TagSize(data[pos]);
           pos < next <= |data| && Spells(data[pos..next], ns[0]) && SpelledFrom(data, next, ns[1..]))
  }

  /** The data start with the bytes of an array of the integers. */
  predicate SpellsArray(data: seq<byte>, ns: seq<int>) {
    && 1 <= |data|
    && var body := TagSize(data[0]);
       && body <= |data|
       && (|| (data[0] == 0x90 + |ns| && |ns| <= 15)
           || (data[0] in {0xdc, 0xdd} && BigEndian(data[1..body]) == |ns|))
       && SpelledFrom(data, body, ns)
  }

  /** Such bytes decode to the integers. */
  lemma {:induction false} SpelledDecodes(data: seq<byte>, pos: nat, ns: seq<int>)
    requires pos <= |data| && SpelledFrom(data, pos, ns)
    ensures DecodeAll(data, pos, |ns|).GotAll?
    ensures var vs := DecodeAll(data, pos, |ns|).vs;
            && (forall k :: 0 <= k < |ns| ==> IsNumber(vs[k]) && NumberOf(vs[k]) == ns[k])
            && CountAll(vs) == |ns| && DepthAll(vs) == 0
    decreases |ns|
  {
    hide Decode, DecodeAll, Spells, TagSize;
    if ns == [] {
      DecodeNothing(data, pos);
    } else {
      var next := pos + TagSize(data[pos]);
      IntegersAreSpelled(data, pos, next, ns[0]);
      SpelledDecodes(data, next, ns[1..]);
      DecodeAllCons(data, pos, |ns|);
      var one, others := Decode(data, pos), DecodeAll(data, next, |ns| - 1);
      assert ([one.v] + others.vs)[1..] == others.vs;
    }
  }

  lemma ArrayDecodes(data: seq<byte>, ns: seq<int>)
    requires SpellsArray(data, ns)
    ensures Decode(data, 0).Got? && Decode(data, 0).v.ArrayV? && |Decode(data, 0).v.items| == |ns|
    ensures Count(Decode(data, 0).v) == 1 + |ns| && Depth(Decode(data, 0).v) <= 1
    ensures forall k :: 0 <= k < |ns| ==>
              IsNumber(Decode(data, 0).v.items[k]) && NumberOf(Decode(data, 0).v.items[k]) == ns[k]
  {
    hide SpelledFrom, ReadHead, Decode, DecodeAll, BigEndian, CountAll, DepthAll;
    var body := TagSize(data[0]);
    HeadsRead(data, 0);
    if body == 1 {
      ShortForms(data, 0);
    } else {
      LongForms(data, 0, if body == 3 then 1 else 2);
    }
    SpelledDecodes(data, body, ns);
    DecodeHead(data, 0);
  }
}

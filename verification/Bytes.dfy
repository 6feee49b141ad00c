/** Bytes, and the network-endian loads and stores of mpack.h. */
module Bytes {
  type byte = b: int | 0 <= b < 0x100

  /** The widths in bytes of the integers MessagePack stores after a lead byte. */
  type Width = w: nat | w == 1 || w == 2 || w == 4 || w == 8 witness 1

  const U8_MAX: nat := 0xff
  const U16_MAX: nat := 0xffff
  const U32_MAX: nat := 0xffff_ffff
  const U64_MAX: nat := 0xffff_ffff_ffff_ffff
  const S32_MIN: int := -0x8000_0000
  const S32_MAX: int := 0x7fff_ffff
  const S64_MIN: int := -0x8000_0000_0000_0000
  const S64_MAX: int := 0x7fff_ffff_ffff_ffff

  /** One more than the largest unsigned integer of the given width. */
  function Limit(width: Width): (limit: int)
    ensures limit >= 0x100
  {
    if width == 1 then 0x100
    else if width == 2 then 0x1_0000
    else if width == 4 then 0x1_0000_0000
    else 0x1_0000_0000_0000_0000
  }

  /** The bytes e stand in data from pos on. */
  predicate At(data: seq<byte>, pos: nat, e: seq<byte>) {
    pos + |e| <= |data| && data[pos..pos + |e|] == e
  }

  lemma AtIndex(data: seq<byte>, pos: nat, e: seq<byte>, k: nat)
    requires At(data, pos, e) && k < |e|
    ensures data[pos + k] == e[k]
  {
    assert data[pos..pos + |e|][k] == data[pos + k];
  }

  lemma AtSplit(data: seq<byte>, pos: nat, e: seq<byte>, f: seq<byte>)
    ensures At(data, pos, e + f) <==> At(data, pos, e) && At(data, pos + |e|, f)
  {
    if pos + |e| + |f| <= |data| {
      assert data[pos..pos + |e + f|] == data[pos..pos + |e|] + data[pos + |e|..pos + |e| + |f|];
      assert (e + f)[..|e|] == e && (e + f)[|e|..] == f;
      if At(data, pos, e + f) {
        assert data[pos..pos + |e|] == (e + f)[..|e|];
        assert data[pos + |e|..pos + |e| + |f|] == (e + f)[|e|..];
      }
    }
  }

  function Load2(data: seq<byte>, pos: nat): (v: nat)
    requires pos + 2 <= |data|
    ensures v < 0x1_0000
  {
    var high: nat := data[pos];
    high * 0x100 + data[pos + 1]
  }

  function Load4(data: seq<byte>, pos: nat): (v: nat)
    requires pos + 4 <= |data|
    ensures v < 0x1_0000_0000
  {
    Load2(data, pos) * 0x1_0000 + Load2(data, pos + 2)
  }

  function Load8(data: seq<byte>, pos: nat): (v: nat)
    requires pos + 8 <= |data|
    ensures v < 0x1_0000_0000_0000_0000
  {
    Load4(data, pos) * 0x1_0000_0000 + Load4(data, pos + 4)
  }

  function Load(data: seq<byte>, pos: nat, width: Width): (v: nat)
    requires pos + width <= |data|
    ensures v < Limit(width)
  {
    if width == 1 then data[pos]
    else if width == 2 then Load2(data, pos)
    else if width == 4 then Load4(data, pos)
    else Load8(data, pos)
  }

  function Store2(v: nat): (e: seq<byte>)
    requires v < 0x1_0000
    ensures |e| == 2
  {
    [v / 0x100, v % 0x100]
  }

  function Store4(v: nat): (e: seq<byte>)
    requires v < 0x1_0000_0000
    ensures |e| == 4
  {
    Store2(v / 0x1_0000) + Store2(v % 0x1_0000)
  }

  function Store8(v: nat): (e: seq<byte>)
    requires v < 0x1_0000_0000_0000_0000
    ensures |e| == 8
  {
    Store4(v / 0x1_0000_0000) + Store4(v % 0x1_0000_0000)
  }

  function Store(v: nat, width: Width): (e: seq<byte>)
    requires v < Limit(width)
    ensures |e| == width
  {
    if width == 1 then [v]
    else if width == 2 then Store2(v)
    else if width == 4 then Store4(v)
    else Store8(v)
  }

  lemma LoadStore2(data: seq<byte>, pos: nat, v: nat)
    requires v < 0x1_0000 && At(data, pos, Store2(v))
    ensures Load2(data, pos) == v
  {
    AtIndex(data, pos, Store2(v), 0);
    AtIndex(data, pos, Store2(v), 1);
  }

  lemma LoadStore4(data: seq<byte>, pos: nat, v: nat)
    requires v < 0x1_0000_0000 && At(data, pos, Store4(v))
    ensures Load4(data, pos) == v
  {
    AtSplit(data, pos, Store2(v / 0x1_0000), Store2(v % 0x1_0000));
    LoadStore2(data, pos, v / 0x1_0000);
    LoadStore2(data, pos + 2, v % 0x1_0000);
  }

  lemma LoadStore8(data: seq<byte>, pos: nat, v: nat)
    requires v < 0x1_0000_0000_0000_0000 && At(data, pos, Store8(v))
    ensures Load8(data, pos) == v
  {
    AtSplit(data, pos, Store4(v / 0x1_0000_0000), Store4(v % 0x1_0000_0000));
    LoadStore4(data, pos, v / 0x1_0000_0000);
    LoadStore4(data, pos + 4, v % 0x1_0000_0000);
  }

  /** What a store of some width wrote, the load of that width reads back. */
  lemma LoadStore(data: seq<byte>, pos: nat, v: nat, width: Width)
    requires v < Limit(width) && At(data, pos, Store(v, width))
    ensures Load(data, pos, width) == v
  {
    if width == 1 {
      AtIndex(data, pos, Store(v, width), 0);
    } else if width == 2 {
      LoadStore2(data, pos, v);
    } else if width == 4 {
      LoadStore4(data, pos, v);
    } else {
      LoadStore8(data, pos, v);
    }
  }

  /** A load looks at nothing but its own bytes. */
  lemma LoadLocal(data: seq<byte>, pos: nat, e: seq<byte>, width: Width)
    requires |e| == width && At(data, pos, e)
    ensures Load(data, pos, width) == Load(e, 0, width)
  {
    forall k: nat | k < width ensures data[pos + k] == e[k] {
      AtIndex(data, pos, e, k);
    }
    if width == 8 {
      assert data[pos + 4] == e[4] && data[pos + 5] == e[5] && data[pos + 6] == e[6] && data[pos + 7] == e[7];
    }
    if width >= 4 {
      assert data[pos + 2] == e[2] && data[pos + 3] == e[3];
    }
    if width >= 2 {
      assert data[pos + 1] == e[1];
    }
    assert data[pos + 0] == e[0];
  }

  /** The cast from an unsigned to a two's complement integer of the same width. */
  function Signed(v: nat, width: Width): (i: int)
    requires v < Limit(width)
    ensures -Limit(width) <= 2 * i < Limit(width)
  {
    if 2 * v < Limit(width) then v else v - Limit(width)
  }

  /** The cast back. */
  function Unsigned(i: int, width: Width): (v: nat)
    requires -Limit(width) <= 2 * i < Limit(width)
    ensures v < Limit(width)
    ensures Signed(v, width) == i
  {
    if i >= 0 then i else i + Limit(width)
  }
}

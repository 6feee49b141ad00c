/** mpack_utf8_check, against the syntax of UTF-8 in RFC 3629. */
module Utf8 {
  import opened Bytes

  // ----- RFC 3629, section 3: the encoding of a Unicode scalar value -----

  predicate IsScalar(c: nat) {
    c <= 0x10ffff && !(0xd800 <= c <= 0xdfff)
  }

  function EncodeScalar(c: nat): (e: seq<byte>)
    requires IsScalar(c)
    ensures 1 <= |e| <= 4
  {
    if c < 0x80 then [c]
    else if c < 0x800 then [0xc0 + c / 0x40, 0x80 + c % 0x40]
    else if c < 0x1_0000 then [0xe0 + c / 0x1000, 0x80 + c / 0x40 % 0x40, 0x80 + c % 0x40]
    else [0xf0 + c / 0x4_0000, 0x80 + c / 0x1000 % 0x40, 0x80 + c / 0x40 % 0x40, 0x80 + c % 0x40]
  }

  ghost predicate AreScalars(text: seq<nat>) {
    forall k :: 0 <= k < |text| ==> IsScalar(text[k])
  }

  ghost function EncodeText(text: seq<nat>): seq<byte>
    requires AreScalars(text)
  {
    if text == [] then [] else EncodeScalar(text[0]) + EncodeText(text[1..])
  }

  /** A concatenation of encodings of scalar values. */
  ghost predicate IsUtf8(s: seq<byte>) {
    exists text :: AreScalars(text) && EncodeText(text) == s
  }

  // ----- RFC 3629, section 4: the grammar -----

  /** UTF8-tail. */
  predicate Tail(s: seq<byte>, i: nat) {
    i < |s| && 0x80 <= s[i] <= 0xbf
  }

  predicate InByteRange(s: seq<byte>, i: nat, low: byte, high: byte) {
    i < |s| && low <= s[i] <= high
  }

  /** UTF8-2, UTF8-3 and UTF8-4. */
  predicate Two(s: seq<byte>, i: nat) {
    InByteRange(s, i, 0xc2, 0xdf) && Tail(s, i + 1)
  }

  predicate Three(s: seq<byte>, i: nat) {
    && Tail(s, i + 2)
    && (|| (InByteRange(s, i, 0xe0, 0xe0) && InByteRange(s, i + 1, 0xa0, 0xbf))
        || (InByteRange(s, i, 0xe1, 0xec) && Tail(s, i + 1))
        || (InByteRange(s, i, 0xed, 0xed) && InByteRange(s, i + 1, 0x80, 0x9f))
        || (InByteRange(s, i, 0xee, 0xef) && Tail(s, i + 1)))
  }

  predicate Four(s: seq<byte>, i: nat) {
    && Tail(s, i + 2) && Tail(s, i + 3)
    && (|| (InByteRange(s, i, 0xf0, 0xf0) && InByteRange(s, i + 1, 0x90, 0xbf))
        || (InByteRange(s, i, 0xf1, 0xf3) && Tail(s, i + 1))
        || (InByteRange(s, i, 0xf4, 0xf4) && InByteRange(s, i + 1, 0x80, 0x8f)))
  }

  /** The length of the UTF8-char at i, 0 when there is none. */
  function CharLength(s: seq<byte>, i: nat): (n: nat)
    ensures i + n <= |s| || n == 0
  {
    if InByteRange(s, i, 0x00, 0x7f) then 1
    else if Two(s, i) then 2
    else if Three(s, i) then 3
    else if Four(s, i) then 4
    else 0
  }

  /** UTF8-octets from i to the end. */
  predicate Octets(s: seq<byte>, i: nat)
    requires i <= |s|
    decreases |s| - i
  {
    i == |s| || (CharLength(s, i) > 0 && Octets(s, i + CharLength(s, i)))
  }

  // ----- The grammar is the encoding -----

  lemma EncodedChar(s: seq<byte>, i: nat, c: nat)
    requires IsScalar(c) && At(s, i, EncodeScalar(c))
    ensures CharLength(s, i) == |EncodeScalar(c)|
  {
    var e := EncodeScalar(c);
    AtIndex(s, i, e, 0);
    if |e| > 1 { AtIndex(s, i, e, 1); }
    if |e| > 2 { AtIndex(s, i, e, 2); }
    if |e| > 3 { AtIndex(s, i, e, 3); }
    hide At;
    if c <= 0x7ff {
      assert |e| <= 2;
    } else if c <= 0xffff {
      assert Three(s, i) && !Two(s, i);
    } else {
      assert Four(s, i) && !Three(s, i) && !Two(s, i);
    }
  }

  /** The scalar value the character at i encodes. */
  function DecodeChar(s: seq<byte>, i: nat): (c: nat)
    requires CharLength(s, i) > 0
    ensures IsScalar(c)
  {
    var n := CharLength(s, i);
    if n == 1 then s[i]
    else if n == 2 then (s[i] as nat - 0xc0) * 0x40 + (s[i + 1] - 0x80)
    else if n == 3 then (s[i] as nat - 0xe0) * 0x1000 + (s[i + 1] as nat - 0x80) * 0x40 + (s[i + 2] - 0x80)
    else (s[i] as nat - 0xf0) * 0x4_0000 + (s[i + 1] as nat - 0x80) * 0x1000
         + (s[i + 2] as nat - 0x80) * 0x40 + (s[i + 3] - 0x80)
  }

  lemma Sextets(a: nat, b: nat, d: nat, e: nat)
    requires b < 0x40 && d < 0x40 && e < 0x40
    ensures var c := a * 0x4_0000 + b * 0x1000 + d * 0x40 + e;
            c / 0x4_0000 == a && c / 0x1000 % 0x40 == b && c / 0x40 % 0x40 == d && c % 0x40 == e
            && (a == 0 ==> c / 0x1000 == b) && (a == b == 0 ==> c / 0x40 == d)
  {
    var c := a * 0x4_0000 + b * 0x1000 + d * 0x40 + e;
    assert c / 0x1000 == a * 0x40 + b;
    assert c / 0x40 == a * 0x1000 + b * 0x40 + d;
  }

  lemma DecodedThree(s: seq<byte>, i: nat)
    requires CharLength(s, i) == 3
    ensures EncodeScalar(DecodeChar(s, i)) == [s[i], s[i + 1], s[i + 2]]
  {
    var c := DecodeChar(s, i);
    Sextets(0, s[i] - 0xe0, s[i + 1] - 0x80, s[i + 2] - 0x80);
    assert Three(s, i);
    assert 0x800 <= c < 0x1_0000;
  }

  lemma DecodedFour(s: seq<byte>, i: nat)
    requires CharLength(s, i) == 4
    ensures EncodeScalar(DecodeChar(s, i)) == [s[i], s[i + 1], s[i + 2], s[i + 3]]
  {
    var c := DecodeChar(s, i);
    Sextets(s[i] - 0xf0, s[i + 1] - 0x80, s[i + 2] - 0x80, s[i + 3] - 0x80);
    assert Four(s, i);
    assert c >= 0x1_0000;
  }

  lemma DecodedChar(s: seq<byte>, i: nat)
    requires CharLength(s, i) > 0
    ensures At(s, i, EncodeScalar(DecodeChar(s, i))) && |EncodeScalar(DecodeChar(s, i))| == CharLength(s, i)
  {
    var n := CharLength(s, i);
    if n == 3 {
      DecodedThree(s, i);
      assert s[i..i + n] == [s[i], s[i + 1], s[i + 2]];
    } else if n == 4 {
      DecodedFour(s, i);
      assert s[i..i + n] == [s[i], s[i + 1], s[i + 2], s[i + 3]];
    } else {
      assert s[i..i + n] == if n == 1 then [s[i]] else [s[i], s[i + 1]];
    }
  }

  lemma {:induction false} OctetsDecode(s: seq<byte>, i: nat) returns (text: seq<nat>)
    requires i <= |s| && Octets(s, i)
    ensures AreScalars(text) && EncodeText(text) == s[i..]
    decreases |s| - i
  {
    if i == |s| {
      text := [];
    } else {
      var n := CharLength(s, i);
      DecodedChar(s, i);
      var rest := OctetsDecode(s, i + n);
      text := [DecodeChar(s, i)] + rest;
      assert s[i..] == s[i..i + n] + s[i + n..];
    }
  }

  lemma {:induction false} EncodedOctets(s: seq<byte>, i: nat, text: seq<nat>)
    requires i <= |s| && AreScalars(text) && EncodeText(text) == s[i..]
    ensures Octets(s, i)
    decreases text
  {
    hide EncodeScalar, CharLength;
    if text != [] {
      var e := EncodeScalar(text[0]);
      assert s[i..i + |e|] == s[i..][..|e|] == e;
      EncodedChar(s, i, text[0]);
      assert s[i + |e|..] == s[i..][|e|..] == EncodeText(text[1..]);
      EncodedOctets(s, i + |e|, text[1..]);
    }
  }

  /** The grammar of section 4 derives exactly the encodings of section 3. */
  lemma OctetsAreUtf8(s: seq<byte>)
    ensures Octets(s, 0) <==> IsUtf8(s)
  {
    assert s[0..] == s;
    if Octets(s, 0) {
      var text := OctetsDecode(s, 0);
    }
    if IsUtf8(s) {
      var text :| AreScalars(text) && EncodeText(text) == s;
      EncodedOctets(s, 0, text);
    }
  }

  /** Only U+0000 encodes to a byte string holding a NUL. */
  lemma {:induction false} NulIsU0000(text: seq<nat>)
    requires AreScalars(text)
    ensures 0 in EncodeText(text) <==> 0 in text
  {
    if text != [] {
      var rest := text[1..];
      assert 0 in EncodeScalar(text[0]) <==> text[0] == 0;
      NulIsU0000(rest);
      assert text == [text[0]] + rest;
    }
  }

  // ----- The validator -----

  /**
    mpack_utf8_check_impl. The masks of the source are quotients and remainders of powers of two here:
    lead & 0xE0 == 0xC0 says lead / 0x20 == 6, cont & ~0xC0 is cont % 0x40.
   */
  method CheckImpl(s: seq<byte>, allowNull: bool) returns (ok: bool)
    ensures ok <==> Octets(s, 0) && (allowNull || 0 !in s)
  {
    var i := 0;
    while i < |s|
      invariant i <= |s|
      invariant Octets(s, 0) <==> Octets(s, i)
      invariant allowNull || 0 !in s[..i]
    {
      var lead: nat := s[i];
      if !allowNull && lead == 0 {
        return false;
      }
      ghost var start := i;
      var n;
      ok, n := CheckChar(s, i);
      if !ok {
        return false;
      }
      assert s[..i + n] == s[..i] + s[i..i + n];
      i := i + n;
    }
    assert s[..i] == s;
    ok := true;
  }

  /** One round of the loop: whether a character starts at i, and its length. */
  method CheckChar(s: seq<byte>, i: nat) returns (ok: bool, n: nat)
    requires i < |s|
    ensures ok <==> CharLength(s, i) > 0
    ensures ok ==> n == CharLength(s, i) && (s[i] != 0 ==> 0 !in s[i..i + n])
  {
    var lead: nat := s[i];
    var count := |s| - i;
    n := 1;
    if lead <= 0x7f {
      return true, 1;
    } else if lead / 0x20 == 0x6 {
      if count < 2 {
        return false, n;
      }
      var cont: nat := s[i + 1];
      if cont / 0x40 != 0x2 {
        return false, n;
      }
      var z := lead % 0x20 * 0x40 + cont % 0x40;
      return z >= 0x80, 2;
    } else if lead / 0x10 == 0xe {
      if count < 3 {
        return false, n;
      }
      var cont1: nat, cont2: nat := s[i + 1], s[i + 2];
      if cont1 / 0x40 != 0x2 || cont2 / 0x40 != 0x2 {
        return false, n;
      }
      var z := lead % 0x10 * 0x1000 + cont1 % 0x40 * 0x40 + cont2 % 0x40;
      return z >= 0x800 && !(0xd800 <= z <= 0xdfff), 3;
    } else if lead / 0x8 == 0x1e {
      if count < 4 {
        return false, n;
      }
      var cont1: nat, cont2: nat, cont3: nat := s[i + 1], s[i + 2], s[i + 3];
      if cont1 / 0x40 != 0x2 || cont2 / 0x40 != 0x2 || cont3 / 0x40 != 0x2 {
        return false, n;
      }
      var z := lead % 0x8 * 0x4_0000 + cont1 % 0x40 * 0x1000 + cont2 % 0x40 * 0x40 + cont3 % 0x40;
      return 0x1_0000 <= z <= 0x10ffff, 4;
    } else {
      return false, n;
    }
  }

  /** mpack_utf8_check. */
  method Check(s: seq<byte>) returns (ok: bool)
    ensures ok <==> IsUtf8(s)
  {
    ok := CheckImpl(s, true);
    OctetsAreUtf8(s);
  }

  /** mpack_utf8_check_no_null: the same, without U+0000. */
  method CheckNoNull(s: seq<byte>) returns (ok: bool)
    ensures ok <==> exists text :: AreScalars(text) && EncodeText(text) == s && 0 !in text
    ensures ok <==> IsUtf8(s) && 0 !in s
  {
    ok := CheckImpl(s, false);
    OctetsAreUtf8(s);
    if IsUtf8(s) {
      var text :| AreScalars(text) && EncodeText(text) == s;
      NulIsU0000(text);
    }
    if text :| AreScalars(text) && EncodeText(text) == s && 0 !in text {
      NulIsU0000(text);
    }
  }

  lemma OneChar(s: seq<byte>)
    requires s != []
    ensures CharLength(s, 0) == |s| ==> IsUtf8(s)
    ensures CharLength(s, 0) == 0 ==> !IsUtf8(s)
  {
    OctetsAreUtf8(s);
  }

  // The ends of the ranges: neither overlong forms nor surrogates nor values above 0x10ffff are taken.

  lemma EdgesOfTwo()
    ensures !IsUtf8([0x80]) && !IsUtf8([0xc1, 0xbf]) && IsUtf8([0xc2, 0x80]) && IsUtf8([0xdf, 0xbf])
  {
    hide IsUtf8;
    OneChar([0x80]);
    OneChar([0xc1, 0xbf]);
    OneChar([0xc2, 0x80]);
    OneChar([0xdf, 0xbf]);
  }

  lemma EdgesOfThree()
    ensures !IsUtf8([0xe0, 0x9f, 0xbf]) && IsUtf8([0xe0, 0xa0, 0x80]) && IsUtf8([0xef, 0xbf, 0xbf])
  {
    hide IsUtf8;
    OneChar([0xe0, 0x9f, 0xbf]);
    OneChar([0xe0, 0xa0, 0x80]);
    OneChar([0xef, 0xbf, 0xbf]);
  }

  lemma EdgesOfSurrogates()
    ensures IsUtf8([0xed, 0x9f, 0xbf]) && !IsUtf8([0xed, 0xa0, 0x80])
    ensures !IsUtf8([0xed, 0xbf, 0xbf]) && IsUtf8([0xee, 0x80, 0x80])
  {
    hide IsUtf8;
    OneChar([0xed, 0x9f, 0xbf]);
    OneChar([0xed, 0xa0, 0x80]);
    OneChar([0xed, 0xbf, 0xbf]);
    OneChar([0xee, 0x80, 0x80]);
  }

  lemma EdgesOfFour()
    ensures !IsUtf8([0xf0, 0x8f, 0xbf, 0xbf]) && IsUtf8([0xf0, 0x90, 0x80, 0x80])
    ensures IsUtf8([0xf4, 0x8f, 0xbf, 0xbf]) && !IsUtf8([0xf4, 0x90, 0x80, 0x80])
  {
    hide IsUtf8;
    OneChar([0xf0, 0x8f, 0xbf, 0xbf]);
    OneChar([0xf0, 0x90, 0x80, 0x80]);
    OneChar([0xf4, 0x8f, 0xbf, 0xbf]);
    OneChar([0xf4, 0x90, 0x80, 0x80]);
  }
}

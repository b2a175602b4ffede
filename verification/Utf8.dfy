/** UTF-8 validity, as utf8.Valid decides it (section 4 of RFC 3629). */
module Utf8 {
  import opened Base

  predicate Continuation(b: byte) {
    0x80 <= b <= 0xbf
  }

  /** The second byte that a three- or four-byte sequence may have: no overlong form, surrogate or value past U+10FFFF. */
  predicate SecondByte(first: byte, b: byte) {
    match first
    case 0xe0 => 0xa0 <= b <= 0xbf
    case 0xed => 0x80 <= b <= 0x9f
    case 0xf0 => 0x90 <= b <= 0xbf
    case 0xf4 => 0x80 <= b <= 0x8f
    case _ => Continuation(b)
  }

  /** The length of the encoded character that s starts with, or 0 when it starts with none. */
  function CharLength(s: Bytes): (n: nat)
    ensures n <= |s|
  {
    if s == [] then 0
    else if s[0] < 0x80 then 1
    else if 0xc2 <= s[0] <= 0xdf then
      if |s| >= 2 && Continuation(s[1]) then 2 else 0
    else if 0xe0 <= s[0] <= 0xef then
      if |s| >= 3 && SecondByte(s[0], s[1]) && Continuation(s[2]) then 3 else 0
    else if 0xf0 <= s[0] <= 0xf4 then
      if |s| >= 4 && SecondByte(s[0], s[1]) && Continuation(s[2]) && Continuation(s[3]) then 4 else 0
    else 0
  }

  predicate ValidUtf8(s: Bytes)
    decreases |s|
  {
    s == [] || (CharLength(s) > 0 && ValidUtf8(s[CharLength(s)..]))
  }

  // ---- The characters encoded -------------------------------------------------------------------

  /** A Unicode scalar value: any code point but a surrogate. */
  predicate IsRune(c: int) {
    0 <= c <= 0x10ffff && !(0xd800 <= c <= 0xdfff)
  }

  /** The shortest form of one character. */
  function EncodeRune(c: int): (s: Bytes)
    requires IsRune(c)
    ensures 1 <= |s| <= 4
  {
    if c < 0x80 then [c]
    else if c < 0x800 then [0xc0 + c / 64, 0x80 + c % 64]
    else if c < 0x1_0000 then [0xe0 + c / 4096, 0x80 + c / 64 % 64, 0x80 + c % 64]
    else [0xf0 + c / 262144, 0x80 + c / 4096 % 64, 0x80 + c / 64 % 64, 0x80 + c % 64]
  }

  predicate AreRunes(cs: seq<int>) {
    forall i :: 0 <= i < |cs| ==> IsRune(cs[i])
  }

  function EncodeRunes(cs: seq<int>): Bytes
    requires AreRunes(cs)
  {
    if cs == [] then [] else EncodeRune(cs[0]) + EncodeRunes(cs[1..])
  }

  lemma CharLengthOfRune(c: int, rest: Bytes)
    requires IsRune(c)
    ensures CharLength(EncodeRune(c) + rest) == |EncodeRune(c)|
  {
    var s := EncodeRune(c) + rest;
    assert forall i :: 0 <= i < |EncodeRune(c)| ==> s[i] == EncodeRune(c)[i];
  }

  lemma RuneOfTwo(s: Bytes) returns (c: int)
    requires CharLength(s) == 2
    ensures IsRune(c) && EncodeRune(c) == s[..2]
  {
    var x: int, y: int := s[0] - 0xc0, s[1] - 0x80;
    c := x * 64 + y;
    assert c / 64 == x && c % 64 == y;
  }

  lemma RuneOfThree(s: Bytes) returns (c: int)
    requires CharLength(s) == 3
    ensures IsRune(c) && EncodeRune(c) == s[..3]
  {
    var x: int, y: int, z: int := s[0] - 0xe0, s[1] - 0x80, s[2] - 0x80;
    c := x * 4096 + y * 64 + z;
    assert c / 64 == x * 64 + y && c / 4096 == x;
  }

  lemma RuneOfFour(s: Bytes) returns (c: int)
    requires CharLength(s) == 4
    ensures IsRune(c) && EncodeRune(c) == s[..4]
  {
    var x: int, y: int, z: int, w: int := s[0] - 0xf0, s[1] - 0x80, s[2] - 0x80, s[3] - 0x80;
    c := x * 262144 + y * 4096 + z * 64 + w;
    assert c / 64 == x * 4096 + y * 64 + z && c / 4096 == x * 64 + y && c / 262144 == x;
  }

  lemma RuneOf(s: Bytes) returns (c: int)
    requires CharLength(s) > 0
    ensures IsRune(c) && EncodeRune(c) == s[..CharLength(s)]
  {
    if CharLength(s) == 1 {
      c := s[0];
    } else if CharLength(s) == 2 {
      c := RuneOfTwo(s);
    } else if CharLength(s) == 3 {
      c := RuneOfThree(s);
    } else {
      c := RuneOfFour(s);
    }
  }

  lemma {:induction false} EncodedRunesAreValid(cs: seq<int>)
    requires AreRunes(cs)
    ensures ValidUtf8(EncodeRunes(cs))
  {
    if cs != [] {
      hide CharLength, EncodeRune, IsRune;
      var first, others := EncodeRune(cs[0]), EncodeRunes(cs[1..]);
      CharLengthOfRune(cs[0], others);
      assert (first + others)[|first|..] == others;
      EncodedRunesAreValid(cs[1..]);
    }
  }

  lemma OneMoreRune(c: int, others: seq<int>)
    requires IsRune(c) && AreRunes(others)
    ensures AreRunes([c] + others) && EncodeRunes([c] + others) == EncodeRune(c) + EncodeRunes(others)
  {
    hide EncodeRune, IsRune;
    assert ([c] + others)[1..] == others;
  }

  lemma {:induction false} RunesOf(s: Bytes) returns (cs: seq<int>)
    requires ValidUtf8(s)
    ensures AreRunes(cs) && EncodeRunes(cs) == s
    decreases |s|
  {
    hide CharLength, EncodeRune, EncodeRunes, IsRune, AreRunes;
    if s == [] {
      cs := NoRunes();
    } else {
      var n := CharLength(s);
      var c := RuneOf(s);
      var others := RunesOf(s[n..]);
      cs := [c] + others;
      OneMoreRune(c, others);
      assert s == s[..n] + s[n..];
    }
  }

  lemma NoRunes() returns (cs: seq<int>)
    ensures AreRunes(cs) && EncodeRunes(cs) == []
  {
    cs := [];
  }

  /** Valid text is exactly what encodes a sequence of characters, each in its shortest form. */
  lemma ValidUtf8Exactly(s: Bytes)
    ensures ValidUtf8(s) <==> exists cs :: AreRunes(cs) && EncodeRunes(cs) == s
  {
    if ValidUtf8(s) {
      var cs := RunesOf(s);
    }
    forall cs | AreRunes(cs) && EncodeRunes(cs) == s
      ensures ValidUtf8(s)
    {
      EncodedRunesAreValid(cs);
    }
  }
}

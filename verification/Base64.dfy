/** Base64 with padding and zero trailing bits (section 4 of RFC 4648): base64.StdEncoding.Strict. */
module Base64 {
  import opened Base

  const PAD: byte := 61  // =

  /** The six bits that a character stands for. */
  function Bits(c: byte): (v: Option<int>)
    ensures v.Some? ==> 0 <= v.value < 64
  {
    if 65 <= c <= 90 then Some(c - 65)
    else if 97 <= c <= 122 then Some(c - 97 + 26)
    else if 48 <= c <= 57 then Some(c - 48 + 52)
    else if c == 43 then Some(62)
    else if c == 47 then Some(63)
    else None
  }

  /** The character for six bits. */
  function Char(v: int): (c: byte)
    requires 0 <= v < 64
    ensures Bits(c) == Some(v) && c != PAD
  {
    if v < 26 then 65 + v
    else if v < 52 then 97 + (v - 26)
    else if v < 62 then 48 + (v - 52)
    else if v == 62 then 43
    else 47
  }

  lemma CharOfBits(c: byte)
    ensures Bits(c).Some? ==> Char(Bits(c).value) == c
  {
  }

  // Three bytes x, y, z are 24 bits, which are also four sextets p, q, r, t.

  function Sextet0(x: byte): (p: int)
    ensures 0 <= p < 64
  {
    x / 4
  }

  function Sextet1(x: byte, y: byte): (q: int)
    ensures 0 <= q < 64
  {
    x % 4 * 16 + y / 16
  }

  function Sextet2(y: byte, z: byte): (r: int)
    ensures 0 <= r < 64
  {
    y % 16 * 4 + z / 64
  }

  function Sextet3(z: byte): (t: int)
    ensures 0 <= t < 64
  {
    z % 64
  }

  predicate IsSextet(v: int) {
    0 <= v < 64
  }

  function Byte0(p: int, q: int): byte
    requires IsSextet(p) && IsSextet(q)
  {
    p * 4 + q / 16
  }

  function Byte1(q: int, r: int): byte
    requires IsSextet(q) && IsSextet(r)
  {
    q % 16 * 16 + r / 4
  }

  function Byte2(r: int, t: int): byte
    requires IsSextet(r) && IsSextet(t)
  {
    r % 4 * 64 + t
  }

  lemma Digits(high: int, low: int)
    ensures 0 <= low < 16 ==> (high * 16 + low) / 16 == high && (high * 16 + low) % 16 == low
    ensures 0 <= low < 4 ==> (high * 4 + low) / 4 == high && (high * 4 + low) % 4 == low
  {
  }

  lemma BytesOfSextets(x: byte, y: byte, z: byte)
    ensures Byte0(Sextet0(x), Sextet1(x, y)) == x && Byte1(Sextet1(x, y), Sextet2(y, z)) == y
    ensures Byte2(Sextet2(y, z), Sextet3(z)) == z
    ensures Sextet1(x, 0) % 16 == 0 && Sextet2(y, 0) % 4 == 0
  {
    Digits(x % 4, y / 16);
    Digits(y % 16, z / 64);
    Digits(x % 4, 0);
    Digits(y % 16, 0);
    assert x == x / 4 * 4 + x % 4 && y == y / 16 * 16 + y % 16 && z == z / 64 * 64 + z % 64;
  }

  lemma SextetsOfBytes(p: int, q: int, r: int, t: int)
    requires IsSextet(p) && IsSextet(q) && IsSextet(r) && IsSextet(t)
    ensures Sextet0(Byte0(p, q)) == p && Sextet1(Byte0(p, q), Byte1(q, r)) == q
    ensures Sextet2(Byte1(q, r), Byte2(r, t)) == r && Sextet3(Byte2(r, t)) == t
    ensures r % 4 == 0 ==> Sextet2(Byte1(q, r), 0) == r
  {
  }

  /** EncodeToString. */
  function Encode64(b: Bytes): Bytes {
    if b == [] then []
    else if |b| == 1 then [Char(Sextet0(b[0])), Char(Sextet1(b[0], 0)), PAD, PAD]
    else if |b| == 2 then [Char(Sextet0(b[0])), Char(Sextet1(b[0], b[1])), Char(Sextet2(b[1], 0)), PAD]
    else Group(b[0], b[1], b[2]) + Encode64(b[3..])
  }

  /** Four characters for three bytes. */
  function Group(x: byte, y: byte, z: byte): Bytes {
    [Char(Sextet0(x)), Char(Sextet1(x, y)), Char(Sextet2(y, z)), Char(Sextet3(z))]
  }

  /** DecodeString, strict: padding only at the end and only as much as needed, and no stray bits before it. */
  function Decode64(s: Bytes): Option<Bytes> {
    if s == [] then Some([])
    else if |s| < 4 || Bits(s[0]).None? || Bits(s[1]).None? then None
    else
      var p, q := Bits(s[0]).value, Bits(s[1]).value;
      if s[2] == PAD then
        if |s| == 4 && s[3] == PAD && q % 16 == 0 then Some([Byte0(p, q)]) else None
      else if Bits(s[2]).None? then None
      else
        var r := Bits(s[2]).value;
        if s[3] == PAD then
          if |s| == 4 && r % 4 == 0 then Some([Byte0(p, q), Byte1(q, r)]) else None
        else if Bits(s[3]).None? || Decode64(s[4..]).None? then None
        else Some([Byte0(p, q), Byte1(q, r), Byte2(r, Bits(s[3]).value)] + Decode64(s[4..]).value)
  }

  lemma OneByteReadBack(x: byte)
    ensures Decode64(Encode64([x])) == Some([x])
  {
    hide Char, Bits, Sextet0, Sextet1, Sextet2, Sextet3, Byte0, Byte1, Byte2;
    BytesOfSextets(x, 0, 0);
  }

  lemma TwoBytesReadBack(x: byte, y: byte)
    ensures Decode64(Encode64([x, y])) == Some([x, y])
  {
    hide Char, Bits, Sextet0, Sextet1, Sextet2, Sextet3, Byte0, Byte1, Byte2;
    BytesOfSextets(x, y, 0);
  }

  lemma {:induction false} DecodeInvertsEncode64(b: Bytes)
    ensures Decode64(Encode64(b)) == Some(b)
    decreases |b|
  {
    hide Char, Bits, Sextet0, Sextet1, Sextet2, Sextet3, Byte0, Byte1, Byte2;
    if |b| == 1 {
      assert b == [b[0]];
      OneByteReadBack(b[0]);
    } else if |b| == 2 {
      assert b == [b[0], b[1]];
      TwoBytesReadBack(b[0], b[1]);
    } else if b != [] {
      BytesOfSextets(b[0], b[1], b[2]);
      var g, others := Group(b[0], b[1], b[2]), Encode64(b[3..]);
      DecodeInvertsEncode64(b[3..]);
      assert (g + others)[4..] == others && forall i :: 0 <= i < 4 ==> (g + others)[i] == g[i];
      assert b == [b[0], b[1], b[2]] + b[3..];
    }
  }

  lemma OneByteSextets(p: int, q: int)
    requires IsSextet(p) && IsSextet(q) && q % 16 == 0
    ensures Sextet0(Byte0(p, q)) == p && Sextet1(Byte0(p, q), 0) == q
  {
  }

  lemma OneByteReadOnly(s: Bytes, p: int, q: int)
    requires |s| == 4 && Bits(s[0]) == Some(p) && Bits(s[1]) == Some(q) && q % 16 == 0 && s[2] == s[3] == PAD
    ensures Encode64([Byte0(p, q)]) == s
  {
    CharOfBits(s[0]);
    CharOfBits(s[1]);
    hide Char, Bits, Sextet0, Sextet1, Byte0;
    OneByteSextets(p, q);
  }

  lemma TwoBytesReadOnly(s: Bytes, p: int, q: int, r: int)
    requires |s| == 4 && Bits(s[0]) == Some(p) && Bits(s[1]) == Some(q) && Bits(s[2]) == Some(r) && r % 4 == 0 && s[3] == PAD
    ensures Encode64([Byte0(p, q), Byte1(q, r)]) == s
  {
    CharOfBits(s[0]);
    CharOfBits(s[1]);
    CharOfBits(s[2]);
    hide Char, Bits, Sextet0, Sextet1, Sextet2, Byte0, Byte1;
    SextetsOfBytes(p, q, r, 0);
  }

  lemma GroupReadOnly(s: Bytes)
    requires |s| >= 4 && Bits(s[0]).Some? && Bits(s[1]).Some? && Bits(s[2]).Some? && Bits(s[3]).Some?
    ensures var p, q, r, t := Bits(s[0]).value, Bits(s[1]).value, Bits(s[2]).value, Bits(s[3]).value;
            Group(Byte0(p, q), Byte1(q, r), Byte2(r, t)) == s[..4]
  {
    CharOfBits(s[0]);
    CharOfBits(s[1]);
    CharOfBits(s[2]);
    CharOfBits(s[3]);
    hide Char, Bits, Sextet0, Sextet1, Sextet2, Sextet3, Byte0, Byte1, Byte2;
    SextetsOfBytes(Bits(s[0]).value, Bits(s[1]).value, Bits(s[2]).value, Bits(s[3]).value);
  }

  lemma {:induction false} EncodeInvertsDecode64(s: Bytes)
    requires Decode64(s).Some?
    ensures Encode64(Decode64(s).value) == s
    decreases |s|
  {
    hide Char, Bits, Byte0, Byte1, Byte2, Group;
    if s != [] && s[2] == PAD {
      OneByteReadOnly(s, Bits(s[0]).value, Bits(s[1]).value);
    } else if s != [] && s[3] == PAD {
      TwoBytesReadOnly(s, Bits(s[0]).value, Bits(s[1]).value, Bits(s[2]).value);
    } else if s != [] {
      EncodeInvertsDecode64(s[4..]);
      GroupReadOnly(s);
      assert Decode64(s).value[3..] == Decode64(s[4..]).value;
      assert s == s[..4] + s[4..];
    }
  }

  /** Only the one encoding of a byte string decodes to it. */
  lemma Decode64AcceptsExactlyEncode64(s: Bytes, b: Bytes)
    ensures Decode64(s) == Some(b) <==> s == Encode64(b)
  {
    DecodeInvertsEncode64(b);
    if Decode64(s) == Some(b) {
      EncodeInvertsDecode64(s);
    }
  }

  /** What encoded text is made of: letters, digits, plus, slash and padding. */
  predicate IsBase64Text(s: Bytes) {
    forall i :: 0 <= i < |s| ==> Bits(s[i]).Some? || s[i] == PAD
  }

  lemma {:induction false} EncodedIsBase64Text(b: Bytes)
    ensures IsBase64Text(Encode64(b)) && (Encode64(b) == [] <==> b == [])
    decreases |b|
  {
    if |b| >= 3 {
      EncodedIsBase64Text(b[3..]);
    }
  }

  // ---- What the characters are ------------------------------------------------------------------

  /** The alphabet: upper case, lower case, digits, plus and slash. */
  predicate StandsFor(c: byte, d: int) {
    || (0 <= d < 26 && c == 'A' as int + d)
    || (26 <= d < 52 && c == 'a' as int + (d - 26))
    || (52 <= d < 62 && c == '0' as int + (d - 52))
    || (d == 62 && c == '+' as int)
    || (d == 63 && c == '/' as int)
  }

  /** The 24 bits of group k, with zeros where the bytes have come to their end. */
  function Word(b: Bytes, k: nat): int
    requires 3 * k < |b|
  {
    var x, y, z := b[3 * k], if 3 * k + 1 < |b| then b[3 * k + 1] else 0, if 3 * k + 2 < |b| then b[3 * k + 2] else 0;
    (256 * x as int + y) * 256 + z
  }

  /** Digit j of four, to the base of 64, of the 24 bits. */
  function Digit(word: int, j: nat): (d: int)
    ensures 0 <= d < 64
  {
    (if j == 0 then word / 262144 else if j == 1 then word / 4096 else if j == 2 then word / 64 else word) % 64
  }

  lemma CharStandsFor(d: int)
    requires 0 <= d < 64
    ensures StandsFor(Char(d), d)
  {
  }

  lemma DigitsOf(p: int, q: int, r: int, t: int)
    requires IsSextet(p) && IsSextet(q) && IsSextet(r) && IsSextet(t)
    ensures var w := 262144 * p + 4096 * q + 64 * r + t; Digit(w, 0) == p && Digit(w, 1) == q && Digit(w, 2) == r && Digit(w, 3) == t
  {
    var w := 262144 * p + 4096 * q + 64 * r + t;
    assert w / 262144 == p && w / 4096 == 64 * p + q && w / 64 == 4096 * p + 64 * q + r;
    assert (64 * p + q) % 64 == q && (4096 * p + 64 * q + r) % 64 == r;
  }

  lemma DigitsAreSextets(x: byte, y: byte, z: byte)
    ensures var w := (256 * x as int + y) * 256 + z;
            Digit(w, 0) == Sextet0(x) && Digit(w, 1) == Sextet1(x, y) && Digit(w, 2) == Sextet2(y, z) && Digit(w, 3) == Sextet3(z)
  {
    hide Digit;
    var p, q, r, t := Sextet0(x), Sextet1(x, y), Sextet2(y, z), Sextet3(z);
    Weights(x / 4, x % 4, y / 16, y % 16, z / 64, z % 64);
    assert x == x / 4 * 4 + x % 4 && y == y / 16 * 16 + y % 16 && z == z / 64 * 64 + z % 64;
    hide Sextet0, Sextet1, Sextet2, Sextet3;
    DigitsOf(p, q, r, t);
  }

  lemma Weights(xh: int, xl: int, yh: int, yl: int, zh: int, zl: int)
    ensures (256 * (xh * 4 + xl) + (yh * 16 + yl)) * 256 + (zh * 64 + zl)
         == 262144 * xh + 4096 * (xl * 16 + yh) + 64 * (yl * 4 + zh) + zl
  {
  }

  /** Each group of up to three bytes is written as the digits of its 24 bits, as many as have bits of those bytes in them,
      and padding up to four characters. */
  lemma {:induction false} GroupsAreNumerals(b: Bytes, k: nat, j: nat)
    requires 3 * k < |b| && j < 4
    ensures |Encode64(b)| == (|b| + 2) / 3 * 4
    ensures 4 * k + j < |Encode64(b)|
    ensures if 3 * k + j <= |b| then StandsFor(Encode64(b)[4 * k + j], Digit(Word(b, k), j)) else Encode64(b)[4 * k + j] == '=' as int
    decreases |b|
  {
    hide Encode64, StandsFor, Char, Digit, Sextet0, Sextet1, Sextet2, Sextet3;
    FirstGroup(b, j);
    if |b| > 3 {
      LaterGroups(b);
      GroupsAreNumerals(b[3..], if k == 0 then 0 else k - 1, j);
      if k > 0 {
        assert Word(b[3..], k - 1) == Word(b, k);
        assert Encode64(b)[4..][4 * (k - 1) + j] == Encode64(b)[4 * k + j];
      }
    }
  }

  lemma LaterGroups(b: Bytes)
    requires |b| > 3
    ensures |Encode64(b)| >= 4 && Encode64(b)[4..] == Encode64(b[3..])
  {
    hide Char, Sextet0, Sextet1, Sextet2, Sextet3;
    assert |Group(b[0], b[1], b[2])| == 4;
  }

  lemma FirstCharacters(b: Bytes)
    requires b != []
    ensures var y, z := if |b| > 1 then b[1] else 0, if |b| > 2 then b[2] else 0;
            var e := Encode64(b);
            && |e| >= 4 && (|b| <= 3 ==> |e| == 4) && e[0] == Char(Sextet0(b[0])) && e[1] == Char(Sextet1(b[0], y))
            && e[2] == (if |b| > 1 then Char(Sextet2(y, z)) else PAD) && e[3] == (if |b| > 2 then Char(Sextet3(z)) else PAD)
  {
    hide Char, Sextet0, Sextet1, Sextet2, Sextet3;
    if |b| >= 3 {
      var g := Group(b[0], b[1], b[2]);
      assert |g| == 4 && Encode64(b)[..4] == g;
    }
  }

  lemma FirstGroup(b: Bytes, j: nat)
    requires b != [] && j < 4
    ensures |b| <= 3 ==> |Encode64(b)| == 4
    ensures j < |Encode64(b)|
    ensures if j <= |b| then StandsFor(Encode64(b)[j], Digit(Word(b, 0), j)) else Encode64(b)[j] == '=' as int
  {
    hide Encode64, StandsFor, Char, Digit, Sextet0, Sextet1, Sextet2, Sextet3;
    var y, z := if |b| > 1 then b[1] else 0, if |b| > 2 then b[2] else 0;
    FirstCharacters(b);
    DigitsAreSextets(b[0], y, z);
    CharStandsFor(Sextet0(b[0]));
    CharStandsFor(Sextet1(b[0], y));
    CharStandsFor(Sextet2(y, z));
    CharStandsFor(Sextet3(z));
  }
}

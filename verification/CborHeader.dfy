/** CBOR item headers: one canonical encoding for each major type and argument, and the order it gives to map keys. */
module CborHeader {
  import opened Base
  import opened BigEndianBytes

  const MAJOR_UINT := 0
  const MAJOR_NINT := 1
  const MAJOR_BYTES := 2
  const MAJOR_TEXT := 3
  const MAJOR_ARRAY := 4
  const MAJOR_MAP := 5
  const MAJOR_SIMPLE := 7

  const INFO_UINT8 := 24
  const INFO_UINT16 := 25
  const INFO_UINT32 := 26
  const INFO_UINT64 := 27

  const SIMPLE_FALSE := 20
  const SIMPLE_TRUE := 21
  const SIMPLE_NULL := 22

  const NULL_BYTE: byte := 0xf6

  datatype CborError =
    | InvalidMajorType | InvalidAdditionalInfo | UnexpectedEof | NonCanonical | InvalidUtf8 | TrailingBytes
    | UnexpectedItemCount | UnsupportedType | IntegerOverflow | DuplicateMapKey | InvalidMapKeyOrder
    | UnexpectedNil | UnexpectedNull | MaxDepthExceeded

  /** The additional info that announces the shortest argument. */
  function InfoFor(value: int): int
    requires IsUint64(value)
  {
    if value < 24 then value
    else if value <= 0xff then INFO_UINT8
    else if value <= 0xffff then INFO_UINT16
    else if value <= 0xffff_ffff then INFO_UINT32
    else INFO_UINT64
  }

  /** The bytes of argument that follow the first byte. */
  function Width(info: int): nat {
    if info == INFO_UINT8 then 1
    else if info == INFO_UINT16 then 2
    else if info == INFO_UINT32 then 4
    else if info == INFO_UINT64 then 8
    else 0
  }

  /** encodeLength: the header of an item of this major type with this argument. */
  function Header(major: int, value: int): Bytes
    requires 0 <= major < 8 && IsUint64(value)
  {
    var info := InfoFor(value);
    [(32 * major + info) as byte] + BigEndian(Width(info), value)
  }

  /** A header that was read, and the bytes after it. */
  datatype Head = Head(major: int, value: int, rest: Bytes)

  /** decodeHeader: any header but the shortest for its argument is refused. */
  function ReadHead(s: Bytes): Result<Head, CborError> {
    if s == [] then Err(UnexpectedEof)
    else
      var major, info := s[0] / 32, s[0] % 32;
      var w := Width(info);
      if info > INFO_UINT64 then Err(InvalidAdditionalInfo)
      else if |s| - 1 < w then Err(UnexpectedEof)
      else
        var value := if info < 24 then info else ValueOf(s[1..1 + w]);
        if !IsUint64(value) || InfoFor(value) != info then Err(NonCanonical)
        else Ok(Head(major, value, s[1 + w..]))
  }

  lemma WidthFits(value: int)
    requires IsUint64(value)
    ensures value >= 24 ==> value < Pow256(Width(InfoFor(value)))
    ensures 0 <= InfoFor(value) <= INFO_UINT64 && (value < 24 <==> InfoFor(value) < 24) && (value < 24 ==> InfoFor(value) == value)
  {
    Pow256Values();
  }

  /** Reading back a header gives its parts, whatever follows it. */
  lemma ReadHeadInvertsHeader(major: int, value: int, rest: Bytes)
    requires 0 <= major < 8 && IsUint64(value)
    ensures ReadHead(Header(major, value) + rest) == Ok(Head(major, value, rest))
  {
    var info := InfoFor(value);
    var w := Width(info);
    var arg := BigEndian(w, value);
    WidthFits(value);
    if value >= 24 {
      ValueOfBigEndian(w, value);
    }
    hide InfoFor, Width, BigEndian, ValueOf;
    var s := Header(major, value) + rest;
    assert s == [(32 * major + info) as byte] + (arg + rest);
    assert s[0] / 32 == major && s[0] % 32 == info;
    assert s[1..1 + w] == arg && s[1 + w..] == rest;
  }

  /** Only the canonical header is read: what was read is what Header writes. */
  lemma HeaderInvertsReadHead(s: Bytes)
    requires ReadHead(s).Ok?
    ensures var h := ReadHead(s).value;
            0 <= h.major < 8 && IsUint64(h.value) && s == Header(h.major, h.value) + h.rest && |h.rest| < |s|
  {
    var h := ReadHead(s).value;
    var w := Width(s[0] % 32);
    if h.value >= 24 {
      BigEndianOfValue(s[1..1 + w]);
    } else {
      assert BigEndian(w, h.value) == [];
    }
    assert s == [s[0]] + s[1..1 + w] + s[1 + w..];
  }

  lemma HeaderNotEmpty(major: int, value: int)
    requires 0 <= major < 8 && IsUint64(value)
    ensures |Header(major, value)| >= 1 && Header(major, value)[0] / 32 == major
  {
  }

  // ---- Integers and the order of map keys -------------------------------------------------------

  /** EncodeInt. */
  function EncodeInt(k: int): Bytes
    requires IsInt64(k)
  {
    if k >= 0 then Header(MAJOR_UINT, k) else Header(MAJOR_NINT, -1 - k)
  }

  /** A value that was read, and the bytes after it. */
  datatype Parsed<T> = Parsed(value: T, rest: Bytes)

  /** DecodeInt. */
  function ReadInt(s: Bytes): Result<Parsed<int>, CborError> {
    var h :- ReadHead(s);
    if h.major == MAJOR_UINT then
      if h.value > MAX_INT then Err(IntegerOverflow) else Ok(Parsed(h.value, h.rest))
    else if h.major == MAJOR_NINT then
      if h.value > MAX_INT then Err(IntegerOverflow) else Ok(Parsed(-1 - h.value, h.rest))
    else Err(InvalidMajorType)
  }

  lemma ReadIntInvertsEncodeInt(k: int, rest: Bytes)
    requires IsInt64(k)
    ensures ReadInt(EncodeInt(k) + rest) == Ok(Parsed(k, rest))
  {
    ReadHeadInvertsHeader(if k >= 0 then MAJOR_UINT else MAJOR_NINT, if k >= 0 then k else -1 - k, rest);
  }

  lemma EncodeIntInvertsReadInt(s: Bytes)
    requires ReadInt(s).Ok?
    ensures var r := ReadInt(s).value; IsInt64(r.value) && s == EncodeInt(r.value) + r.rest && |r.rest| < |s|
  {
    HeaderInvertsReadHead(s);
  }

  /** slices.Compare on byte slices: bytewise, a proper prefix first. */
  function Compare(x: Bytes, y: Bytes): int {
    if x == [] && y == [] then 0
    else if x == [] then -1
    else if y == [] then 1
    else if x[0] < y[0] then -1
    else if x[0] > y[0] then 1
    else Compare(x[1..], y[1..])
  }

  /** mapKeyCmp: map keys compare as their encodings do (section 4.2.1 of RFC 8949). */
  function MapKeyCmp(a: int, b: int): int
    requires IsInt64(a) && IsInt64(b)
  {
    Compare(EncodeInt(a), EncodeInt(b))
  }

  /** The place of a key: 0, 1, 2, ..., then -1, -2, -3, ... */
  function KeyRank(k: int): int {
    if k >= 0 then k else TWO_63 - 1 - k
  }

  function Sign(x: int): int {
    if x < 0 then -1 else if x > 0 then 1 else 0
  }

  lemma {:induction false} CompareAppend(x: Bytes, y: Bytes, p: Bytes, q: Bytes)
    requires |x| == |y|
    ensures Compare(x + p, y + q) == if Compare(x, y) != 0 then Compare(x, y) else Compare(p, q)
  {
    if x == [] {
      assert x + p == p && y + q == q;
    } else {
      assert (x + p)[1..] == x[1..] + p && (y + q)[1..] == y[1..] + q;
      CompareAppend(x[1..], y[1..], p, q);
    }
  }

  lemma {:induction false} CompareBigEndian(w: nat, j: nat, k: nat)
    requires j < Pow256(w) && k < Pow256(w)
    ensures Compare(BigEndian(w, j), BigEndian(w, k)) == Sign(j - k)
  {
    if w > 0 {
      CompareBigEndian(w - 1, j / 256, k / 256);
      CompareAppend(BigEndian(w - 1, j / 256), BigEndian(w - 1, k / 256), [j % 256], [k % 256]);
    }
  }

  lemma CompareHeaders(major: int, v: int, major': int, v': int)
    requires 0 <= major <= major' < 8 && IsUint64(v) && IsUint64(v')
    ensures Compare(Header(major, v), Header(major', v')) == if major < major' then -1 else Sign(v - v')
  {
    var x, y := Header(major, v), Header(major', v');
    if major == major' && InfoFor(v) == InfoFor(v') {
      WidthFits(v);
      WidthFits(v');
      var w := Width(InfoFor(v));
      assert x[1..] == BigEndian(w, v) && y[1..] == BigEndian(w, v');
      if v >= 24 {
        CompareBigEndian(w, v, v');
      }
    }
  }

  /** The order of map keys is the intended one: non-negative keys first, then by magnitude; equal only to itself. */
  lemma MapKeyCmpIsRankOrder(a: int, b: int)
    requires IsInt64(a) && IsInt64(b)
    ensures MapKeyCmp(a, b) == Sign(KeyRank(a) - KeyRank(b))
    ensures MapKeyCmp(a, b) == 0 <==> a == b
  {
    var va, vb := if a >= 0 then a else -1 - a, if b >= 0 then b else -1 - b;
    if a < 0 && b >= 0 {
      CompareSwaps(EncodeInt(a), EncodeInt(b));
      CompareHeaders(MAJOR_UINT, vb, MAJOR_NINT, va);
    } else {
      CompareHeaders(if a >= 0 then MAJOR_UINT else MAJOR_NINT, va, if b >= 0 then MAJOR_UINT else MAJOR_NINT, vb);
    }
  }

  lemma {:induction false} CompareSwaps(x: Bytes, y: Bytes)
    ensures Compare(x, y) == -Compare(y, x)
  {
    if x != [] && y != [] {
      CompareSwaps(x[1..], y[1..]);
    }
  }
}

/** The subset of CBOR that Verify accepts: item trees, their one encoding, and the parser that inverts it. */
module CborItem {
  import opened Base
  import opened CborHeader
  import opened CborScalar
  import opened Utf8

  const MAX_DEPTH: nat := 32

  datatype Item =
    | UInt(n: int)
    | NInt(n: int)  // the integer -1 - n
    | Blob(bytes: Bytes)
    | Text(bytes: Bytes)
    | Array(items: seq<Item>)
    | Map(keys: seq<int>, values: seq<Item>)
    | Simple(n: int)  // false, true or null

  // ---- Encoding ---------------------------------------------------------------------------------

  function Max(x: nat, y: nat): nat {
    if x >= y then x else y
  }

  /** The nesting depth: 1 for an item that holds no other. */
  function Height(i: Item): nat
    decreases i, 0
  {
    match i
    case Array(items) => 1 + ItemsHeight(items)
    case Map(_, values) => 1 + ItemsHeight(values)
    case _ => 1
  }

  function ItemsHeight(items: seq<Item>): nat
    decreases items, 1
  {
    if items == [] then 0 else Max(Height(items[0]), ItemsHeight(items[1..]))
  }

  /** Arguments fit their headers, text is UTF-8, map keys are int64 values in strictly increasing order. */
  predicate WellFormed(i: Item)
    decreases i, 0
  {
    match i
    case UInt(n) => IsUint64(n)
    case NInt(n) => IsUint64(n)
    case Blob(b) => |b| <= MAX_INT
    case Text(b) => |b| <= MAX_INT && ValidUtf8(b)
    case Array(items) => IsUint64(|items|) && ItemsWellFormed(items)
    case Map(keys, values) =>
      IsUint64(|keys|) && |keys| == |values| && Increasing(keys, None) && ItemsWellFormed(values)
    case Simple(n) => n in {SIMPLE_FALSE, SIMPLE_TRUE, SIMPLE_NULL}
  }

  predicate ItemsWellFormed(items: seq<Item>)
    decreases items, 1
  {
    items == [] || (WellFormed(items[0]) && ItemsWellFormed(items[1..]))
  }

  /** A key may follow the one before it. */
  predicate Follows(prev: Option<int>, key: int)
    requires IsInt64(key) && (prev.Some? ==> IsInt64(prev.value))
  {
    prev.Some? ==> MapKeyCmp(prev.value, key) < 0
  }

  predicate Increasing(keys: seq<int>, prev: Option<int>)
    requires prev.Some? ==> IsInt64(prev.value)
  {
    keys == [] || (IsInt64(keys[0]) && Follows(prev, keys[0]) && Increasing(keys[1..], Some(keys[0])))
  }

  /** The canonical encoding. */
  function Encode(i: Item): Bytes
    requires WellFormed(i)
    decreases i, 0
  {
    match i
    case UInt(n) => Header(MAJOR_UINT, n)
    case NInt(n) => Header(MAJOR_NINT, n)
    case Blob(b) => Header(MAJOR_BYTES, |b|) + b
    case Text(b) => Header(MAJOR_TEXT, |b|) + b
    case Array(items) => Header(MAJOR_ARRAY, |items|) + EncodeItems(items)
    case Map(keys, values) => Header(MAJOR_MAP, |keys|) + EncodeEntries(keys, values, None)
    case Simple(n) => Header(MAJOR_SIMPLE, n)
  }

  function EncodeItems(items: seq<Item>): Bytes
    requires ItemsWellFormed(items)
    decreases items, 1
  {
    if items == [] then [] else Encode(items[0]) + EncodeItems(items[1..])
  }

  function EncodeEntries(keys: seq<int>, values: seq<Item>, prev: Option<int>): Bytes
    requires prev.Some? ==> IsInt64(prev.value)
    requires |keys| == |values| && Increasing(keys, prev) && ItemsWellFormed(values)
    decreases values, 1
  {
    if keys == [] then []
    else EncodeInt(keys[0]) + (Encode(values[0]) + EncodeEntries(keys[1..], values[1..], Some(keys[0])))
  }

  // ---- Parsing ----------------------------------------------------------------------------------

  /** verifyObject, which also says what it has walked over. */
  function Parse(s: Bytes, depth: nat): Result<Parsed<Item>, CborError>
    decreases depth, 1, 0
  {
    if depth == 0 then Err(MaxDepthExceeded)
    else
      var h :- ReadHead(s);
      HeaderInvertsReadHead(s);
      if h.major == MAJOR_UINT then Ok(Parsed(UInt(h.value), h.rest))
      else if h.major == MAJOR_NINT then Ok(Parsed(NInt(h.value), h.rest))
      else if h.major == MAJOR_BYTES then
        var b :- ReadBytes(h.rest, h.value);
        Ok(Parsed(Blob(b.value), b.rest))
      else if h.major == MAJOR_TEXT then
        var b :- ReadBytes(h.rest, h.value);
        if ValidUtf8(b.value) then Ok(Parsed(Text(b.value), b.rest)) else Err(InvalidUtf8)
      else if h.major == MAJOR_ARRAY then
        var items :- ParseItems(h.rest, depth - 1, h.value);
        Ok(Parsed(Array(items.value), items.rest))
      else if h.major == MAJOR_MAP then
        var entries :- ParseEntries(h.rest, depth - 1, h.value, None);
        Ok(Parsed(Map(entries.value.0, entries.value.1), entries.rest))
      else if h.major == MAJOR_SIMPLE && h.value in {SIMPLE_FALSE, SIMPLE_TRUE, SIMPLE_NULL} then
        Ok(Parsed(Simple(h.value), h.rest))
      else Err(UnsupportedType)
  }

  function ParseItems(s: Bytes, depth: nat, n: nat): Result<Parsed<seq<Item>>, CborError>
    decreases depth, 2, n
  {
    if n == 0 then Ok(Parsed([], s))
    else
      var first :- Parse(s, depth);
      var others :- ParseItems(first.rest, depth, n - 1);
      Ok(Parsed([first.value] + others.value, others.rest))
  }

  function ParseEntries(s: Bytes, depth: nat, n: nat, prev: Option<int>)
    : Result<Parsed<(seq<int>, seq<Item>)>, CborError>
    requires prev.Some? ==> IsInt64(prev.value)
    decreases depth, 2, n
  {
    if n == 0 then Ok(Parsed(([], []), s))
    else
      var key :- ReadInt(s);
      EncodeIntInvertsReadInt(s);
      if !Follows(prev, key.value) then Err(InvalidMapKeyOrder)
      else
        var value :- Parse(key.rest, depth);
        var others :- ParseEntries(value.rest, depth, n - 1, Some(key.value));
        Ok(Parsed(([key.value] + others.value.0, [value.value] + others.value.1), others.rest))
  }

  // ---- Parsing and encoding are inverses --------------------------------------------------------

  lemma {:induction false} ParseInvertsEncode(i: Item, depth: nat, rest: Bytes)
    requires WellFormed(i) && Height(i) <= depth
    ensures Parse(Encode(i) + rest, depth) == Ok(Parsed(i, rest))
    decreases i, 0
  {
    hide Header, ReadHead, InfoFor, ValidUtf8;
    match i
    case UInt(n) => ReadHeadInvertsHeader(MAJOR_UINT, n, rest);
    case NInt(n) => ReadHeadInvertsHeader(MAJOR_NINT, n, rest);
    case Simple(n) => ReadHeadInvertsHeader(MAJOR_SIMPLE, n, rest);
    case Blob(b) =>
      ReadHeadInvertsHeader(MAJOR_BYTES, |b|, b + rest);
      ConcatAssoc(Header(MAJOR_BYTES, |b|), b, rest);
      ReadBytesBack(b, rest);
    case Text(b) =>
      ReadHeadInvertsHeader(MAJOR_TEXT, |b|, b + rest);
      ConcatAssoc(Header(MAJOR_TEXT, |b|), b, rest);
      ReadBytesBack(b, rest);
    case Array(items) =>
      ReadHeadInvertsHeader(MAJOR_ARRAY, |items|, EncodeItems(items) + rest);
      ConcatAssoc(Header(MAJOR_ARRAY, |items|), EncodeItems(items), rest);
      ParseInvertsEncodeItems(items, depth - 1, rest);
    case Map(keys, values) =>
      ReadHeadInvertsHeader(MAJOR_MAP, |keys|, EncodeEntries(keys, values, None) + rest);
      ConcatAssoc(Header(MAJOR_MAP, |keys|), EncodeEntries(keys, values, None), rest);
      ParseInvertsEncodeEntries(keys, values, depth - 1, None, rest);
  }

  lemma {:induction false} ParseInvertsEncodeItems(items: seq<Item>, depth: nat, rest: Bytes)
    requires ItemsWellFormed(items) && ItemsHeight(items) <= depth
    ensures ParseItems(EncodeItems(items) + rest, depth, |items|) == Ok(Parsed(items, rest))
    decreases items, 1
  {
    hide Parse, Encode, Height, WellFormed;
    if items == [] {
      assert [] + rest == rest;
    } else {
      var others := EncodeItems(items[1..]) + rest;
      ConcatAssoc(Encode(items[0]), EncodeItems(items[1..]), rest);
      ParseInvertsEncode(items[0], depth, others);
      ParseInvertsEncodeItems(items[1..], depth, rest);
      assert items == [items[0]] + items[1..];
    }
  }

  lemma {:induction false} ParseInvertsEncodeEntries(keys: seq<int>, values: seq<Item>, depth: nat, prev: Option<int>,
                                                     rest: Bytes)
    requires prev.Some? ==> IsInt64(prev.value)
    requires |keys| == |values| && Increasing(keys, prev) && ItemsWellFormed(values) && ItemsHeight(values) <= depth
    ensures ParseEntries(EncodeEntries(keys, values, prev) + rest, depth, |keys|, prev)
         == Ok(Parsed((keys, values), rest))
    decreases values, 1
  {
    hide Parse, Encode, Height, WellFormed, ReadInt, EncodeInt, MapKeyCmp;
    if keys == [] {
      assert [] + rest == rest;
    } else {
      var k, v := keys[0], values[0];
      var tail := EncodeEntries(keys[1..], values[1..], Some(k));
      ConcatAssoc(EncodeInt(k), Encode(v) + tail, rest);
      ConcatAssoc(Encode(v), tail, rest);
      ReadIntInvertsEncodeInt(k, Encode(v) + (tail + rest));
      ParseInvertsEncode(v, depth, tail + rest);
      ParseInvertsEncodeEntries(keys[1..], values[1..], depth, Some(k), rest);
      assert keys == [k] + keys[1..] && values == [v] + values[1..];
    }
  }

  /** What one call of Parse that succeeds has established. */
  ghost predicate ParsedRight(s: Bytes, depth: nat) {
    match Parse(s, depth)
    case Err(_) => true
    case Ok(p) => WellFormed(p.value) && Height(p.value) <= depth && s == Encode(p.value) + p.rest && |p.rest| < |s|
  }

  ghost predicate ItemsParsedRight(s: Bytes, depth: nat, n: nat) {
    match ParseItems(s, depth, n)
    case Err(_) => true
    case Ok(p) =>
      && ItemsWellFormed(p.value) && ItemsHeight(p.value) <= depth && |p.value| == n
      && s == EncodeItems(p.value) + p.rest && |p.rest| + n <= |s|
  }

  ghost predicate EntriesParsedRight(s: Bytes, depth: nat, n: nat, prev: Option<int>)
    requires prev.Some? ==> IsInt64(prev.value)
  {
    match ParseEntries(s, depth, n, prev)
    case Err(_) => true
    case Ok(p) =>
      && |p.value.0| == |p.value.1| == n && Increasing(p.value.0, prev)
      && ItemsWellFormed(p.value.1) && ItemsHeight(p.value.1) <= depth
      && s == EncodeEntries(p.value.0, p.value.1, prev) + p.rest && |p.rest| + n <= |s|
  }

  lemma {:induction false} EncodeInvertsParse(s: Bytes, depth: nat)
    ensures ParsedRight(s, depth)
    decreases depth, 1, 0
  {
    if depth > 0 && ReadHead(s).Ok? {
      HeaderInvertsReadHead(s);
      var h := ReadHead(s).value;
      hide ParsedRight;
      if h.major == MAJOR_ARRAY {
        EncodeInvertsParseItems(h.rest, depth - 1, h.value);
        ArrayParsedRight(s, depth);
      } else if h.major == MAJOR_MAP {
        EncodeInvertsParseEntries(h.rest, depth - 1, h.value, None);
        MapParsedRight(s, depth);
      } else {
        LeafParsedRight(s, depth);
      }
    }
  }

  lemma ArrayParsedRight(s: Bytes, depth: nat)
    requires depth > 0 && ReadHead(s).Ok? && ReadHead(s).value.major == MAJOR_ARRAY && ReadHead(s).value.value >= 0
    requires ItemsParsedRight(ReadHead(s).value.rest, depth - 1, ReadHead(s).value.value)
    ensures ParsedRight(s, depth)
  {
    HeaderInvertsReadHead(s);
    var h := ReadHead(s).value;
    hide Header, ReadHead, InfoFor;
    match ParseItems(h.rest, depth - 1, h.value)
    case Err(_) =>
    case Ok(items) =>
      ConcatAssoc(Header(MAJOR_ARRAY, h.value), EncodeItems(items.value), items.rest);
      assert Parse(s, depth) == Ok(Parsed(Array(items.value), items.rest));
  }

  lemma MapParsedRight(s: Bytes, depth: nat)
    requires depth > 0 && ReadHead(s).Ok? && ReadHead(s).value.major == MAJOR_MAP && ReadHead(s).value.value >= 0
    requires EntriesParsedRight(ReadHead(s).value.rest, depth - 1, ReadHead(s).value.value, None)
    ensures ParsedRight(s, depth)
  {
    HeaderInvertsReadHead(s);
    var h := ReadHead(s).value;
    hide Header, ReadHead, InfoFor;
    match ParseEntries(h.rest, depth - 1, h.value, None)
    case Err(_) =>
    case Ok(e) =>
      ConcatAssoc(Header(MAJOR_MAP, h.value), EncodeEntries(e.value.0, e.value.1, None), e.rest);
      assert Parse(s, depth) == Ok(Parsed(Map(e.value.0, e.value.1), e.rest));
  }

  lemma LeafParsedRight(s: Bytes, depth: nat)
    requires depth > 0 && ReadHead(s).Ok? && ReadHead(s).value.major !in {MAJOR_ARRAY, MAJOR_MAP}
    ensures ParsedRight(s, depth)
  {
    HeaderInvertsReadHead(s);
    var h := ReadHead(s).value;
    hide Header, ReadHead, InfoFor, ValidUtf8;
    if h.major in {MAJOR_BYTES, MAJOR_TEXT} && h.value <= |h.rest| {
      var b := h.rest[..h.value];
      assert h.rest == b + h.rest[h.value..];
      ConcatAssoc(Header(h.major, |b|), b, h.rest[h.value..]);
    }
  }

  lemma {:induction false} EncodeInvertsParseItems(s: Bytes, depth: nat, n: nat)
    ensures ItemsParsedRight(s, depth, n)
    decreases depth, 2, n
  {
    hide Parse, Encode, Height, WellFormed;
    if n > 0 && ParseItems(s, depth, n).Ok? {
      var first := Parse(s, depth).value;
      EncodeInvertsParse(s, depth);
      EncodeInvertsParseItems(first.rest, depth, n - 1);
      var others := ParseItems(first.rest, depth, n - 1).value;
      assert ([first.value] + others.value)[1..] == others.value;
      ConcatAssoc(Encode(first.value), EncodeItems(others.value), others.rest);
    }
  }

  lemma {:induction false} EncodeInvertsParseEntries(s: Bytes, depth: nat, n: nat, prev: Option<int>)
    requires prev.Some? ==> IsInt64(prev.value)
    ensures EntriesParsedRight(s, depth, n, prev)
    decreases depth, 2, n
  {
    hide Parse, Encode, Height, WellFormed, ReadInt, EncodeInt, MapKeyCmp;
    if n > 0 && ParseEntries(s, depth, n, prev).Ok? {
      var key := ReadInt(s).value;
      EncodeIntInvertsReadInt(s);
      EncodeInvertsParse(key.rest, depth);
      var value := Parse(key.rest, depth).value;
      EncodeInvertsParseEntries(value.rest, depth, n - 1, Some(key.value));
      var others := ParseEntries(value.rest, depth, n - 1, Some(key.value)).value;
      var keys, values := [key.value] + others.value.0, [value.value] + others.value.1;
      assert keys[1..] == others.value.0 && values[1..] == others.value.1;
      var tail := EncodeEntries(others.value.0, others.value.1, Some(key.value));
      ConcatAssoc(Encode(value.value), tail, others.rest);
      ConcatAssoc(EncodeInt(key.value), Encode(value.value) + tail, others.rest);
    }
  }

  /** Verify: nil exactly when the whole input is one item. */
  function Verify(data: Bytes): Option<CborError> {
    match Parse(data, MAX_DEPTH)
    case Err(e) => Some(e)
    case Ok(p) => if p.rest != [] then Some(TrailingBytes) else None
  }

  /** data is the encoding of this item, nested no deeper than Verify allows. */
  ghost predicate IsEncodingOf(data: Bytes, i: Item) {
    WellFormed(i) && Height(i) <= MAX_DEPTH && data == Encode(i)
  }

  /** Verify accepts exactly the canonical encodings, and the item encoded is the only one. */
  lemma VerifyAcceptsExactlyEncodings(data: Bytes)
    ensures Verify(data) == None <==> exists i :: IsEncodingOf(data, i)
    ensures forall i, j :: IsEncodingOf(data, i) && IsEncodingOf(data, j) ==> i == j
  {
    forall i | IsEncodingOf(data, i)
      ensures Parse(data, MAX_DEPTH) == Ok(Parsed(i, []))
    {
      ParseInvertsEncode(i, MAX_DEPTH, []);
      assert Encode(i) + [] == Encode(i);
    }
    if Verify(data) == None {
      EncodeInvertsParse(data, MAX_DEPTH);
      assert IsEncodingOf(data, Parse(data, MAX_DEPTH).value.value);
    }
  }

  /** No encoding is a proper prefix of another: what follows an item never changes how it is read. */
  lemma EncodingsArePrefixFree(i: Item, j: Item, x: Bytes, y: Bytes)
    requires WellFormed(i) && WellFormed(j) && Encode(i) + x == Encode(j) + y
    ensures i == j && x == y
  {
    var d := Max(Height(i), Height(j));
    ParseInvertsEncode(i, d, x);
    ParseInvertsEncode(j, d, y);
  }
}

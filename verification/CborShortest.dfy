/** Headers and items as section 3 of RFC 8949 reads them, whatever width an argument has: what this library writes and
    accepts is the shortest of all such encodings. The numbers of the standard are written out here. */
module CborShortest {
  import opened Base
  import opened BigEndianBytes
  import opened CborHeader
  import opened CborItem

  // ---- Headers ----------------------------------------------------------------------------------

  /** A major type in the upper three bits of the first byte, and an argument in the lower five or in the bytes after it. */
  function AnyHead(s: Bytes): Option<Head> {
    if s == [] then None
    else
      var major, info := s[0] / 32, s[0] % 32;
      if info < 24 then Some(Head(major, info, s[1..]))
      else if info == 24 then WideHead(s, major, 1)
      else if info == 25 then WideHead(s, major, 2)
      else if info == 26 then WideHead(s, major, 4)
      else if info == 27 then WideHead(s, major, 8)
      else None
  }

  function WideHead(s: Bytes, major: int, w: nat): Option<Head>
    requires s != []
  {
    if |s| < 1 + w then None else Some(Head(major, ValueOf(s[1..1 + w]), s[1 + w..]))
  }

  /** The length of the header that was read. */
  function HeadLength(s: Bytes): nat
    requires AnyHead(s).Some?
  {
    |s| - |AnyHead(s).value.rest|
  }

  ghost predicate IsHead(s: Bytes, major: int, value: int) {
    AnyHead(s).Some? && AnyHead(s).value.major == major && AnyHead(s).value.value == value
  }

  /** No header for the same major type and argument is shorter. */
  ghost predicate Shortest(s: Bytes) {
    AnyHead(s).Some? && forall t :: IsHead(t, AnyHead(s).value.major, AnyHead(s).value.value) ==> HeadLength(s) <= HeadLength(t)
  }

  lemma HeaderIsHead(major: int, value: int, rest: Bytes)
    requires 0 <= major < 8 && IsUint64(value)
    ensures AnyHead(Header(major, value) + rest) == Some(Head(major, value, rest))
  {
    ReadHeadInvertsHeader(major, value, rest);
  }

  /** An argument that goes with this additional information needs no wider one. */
  lemma ShortestInfo(info: int, value: int)
    requires 0 <= info < 28 && 0 <= value && (if info < 24 then value == info else value < Pow256(Width(info)))
    ensures IsUint64(value) && Width(InfoFor(value)) <= Width(info)
    ensures Width(InfoFor(value)) == Width(info) ==> InfoFor(value) == info
  {
    Pow256Values();
  }

  lemma HeadParts(s: Bytes)
    requires AnyHead(s).Some?
    ensures var info, h := s[0] % 32, AnyHead(s).value;
            var w := Width(info);
            && info < 28 && |s| >= 1 + w && HeadLength(s) == 1 + w
            && h == Head(s[0] / 32, if info < 24 then info else ValueOf(s[1..1 + w]), s[1 + w..])
  {
    hide ValueOf;
  }

  /** The header written is no longer than any that is read in the same way, and unlike any other that is as long. */
  lemma HeaderIsShortest(s: Bytes)
    requires AnyHead(s).Some?
    ensures var h := AnyHead(s).value;
            && 0 <= h.major < 8 && IsUint64(h.value)
            && |Header(h.major, h.value)| <= HeadLength(s)
            && (|Header(h.major, h.value)| == HeadLength(s) ==> s == Header(h.major, h.value) + h.rest)
  {
    HeadParts(s);
    var h, info := AnyHead(s).value, s[0] % 32;
    var w := Width(info);
    hide AnyHead, HeadLength, InfoFor, BigEndian, ValueOf;
    BigEndianOfValue(s[1..1 + w]);
    assert info < 24 ==> w == 0;
    ShortestInfo(info, h.value);
    assert s == [s[0]] + s[1..1 + w] + s[1 + w..];
    hide Width;
    if Width(InfoFor(h.value)) == w {
      assert info >= 24 ==> BigEndian(w, h.value) == s[1..1 + w];
      assert info < 24 ==> BigEndian(0, h.value) == [] == s[1..1];
    }
  }

  /** Of the headers that can be read at all, decodeHeader accepts the shortest and no other. */
  lemma ReadHeadAcceptsExactlyShortest(s: Bytes, h: Head)
    ensures ReadHead(s) == Ok(h) <==> AnyHead(s) == Some(h) && Shortest(s)
  {
    hide Header;
    if ReadHead(s) == Ok(h) {
      HeaderInvertsReadHead(s);
      HeaderIsHead(h.major, h.value, h.rest);
      hide AnyHead;
      forall t | IsHead(t, h.major, h.value)
        ensures HeadLength(s) <= HeadLength(t)
      {
        HeaderIsShortest(t);
      }
    }
    if AnyHead(s) == Some(h) && Shortest(s) {
      hide AnyHead;
      HeaderIsShortest(s);
      HeaderIsHead(h.major, h.value, []);
      assert IsHead(Header(h.major, h.value) + [], h.major, h.value);
      ReadHeadInvertsHeader(h.major, h.value, h.rest);
    }
  }

  /** And its errors tell the other byte strings apart: those cut off inside a header, those that announce an argument of
      no known width, and those with a longer header than needed. */
  lemma ReadHeadErrors(s: Bytes)
    ensures ReadHead(s) == Err(NonCanonical) <==> AnyHead(s).Some? && !Shortest(s)
    ensures ReadHead(s) == Err(InvalidAdditionalInfo) <==> s != [] && s[0] % 32 >= 28
    ensures ReadHead(s) == Err(UnexpectedEof) <==> AnyHead(s).None? && exists t :: AnyHead(s + t).Some?
  {
    if AnyHead(s).Some? {
      ReadHeadAcceptsExactlyShortest(s, AnyHead(s).value);
    }
    ErrorsByFirstByte(s);
    if s == [] {
      assert AnyHead(s + [0]).Some?;
    } else if s[0] % 32 < 28 {
      assert AnyHead(s + seq(8, _ => 0)).Some?;
    } else {
      assert forall t: Bytes :: (s + t)[0] == s[0];
    }
  }

  lemma ErrorsByFirstByte(s: Bytes)
    ensures ReadHead(s) == Err(InvalidAdditionalInfo) <==> s != [] && s[0] % 32 >= 28
    ensures ReadHead(s) == Err(UnexpectedEof) <==> AnyHead(s).None? && (s == [] || s[0] % 32 < 28)
    ensures ReadHead(s).Err? ==> ReadHead(s).error in {NonCanonical, InvalidAdditionalInfo, UnexpectedEof}
  {
    if AnyHead(s).Some? {
      HeaderIsShortest(s);
    }
  }

  // ---- Items ------------------------------------------------------------------------------------

  /** What is left of s after a header for this major type and argument. */
  function AfterHead(s: Bytes, major: int, value: int): Option<Bytes> {
    match AnyHead(s)
    case None => None
    case Some(h) => if h.major == major && h.value == value then Some(h.rest) else None
  }

  function AfterBytes(s: Bytes, b: Bytes): Option<Bytes> {
    if b <= s then Some(s[|b|..]) else None
  }

  function AfterString(s: Bytes, major: int, b: Bytes): Option<Bytes> {
    match AfterHead(s, major, |b|)
    case None => None
    case Some(t) => AfterBytes(t, b)
  }

  function AfterKey(s: Bytes, key: int): Option<Bytes> {
    if key >= 0 then AfterHead(s, 0, key) else AfterHead(s, 1, -1 - key)
  }

  /** What is left of s after this item. */
  function After(s: Bytes, i: Item): Option<Bytes>
    requires WellFormed(i)
    decreases i, 0
  {
    match i
    case UInt(n) => AfterHead(s, 0, n)
    case NInt(n) => AfterHead(s, 1, n)
    case Blob(b) => AfterString(s, 2, b)
    case Text(b) => AfterString(s, 3, b)
    case Array(items) => (
      match AfterHead(s, 4, |items|)
      case None => None
      case Some(t) => AfterItems(t, items))
    case Map(keys, values) => (
      match AfterHead(s, 5, |keys|)
      case None => None
      case Some(t) => AfterEntries(t, keys, values, None))
    case Simple(n) => AfterBytes(s, [0xe0 + n])
  }

  function AfterItems(s: Bytes, items: seq<Item>): Option<Bytes>
    requires ItemsWellFormed(items)
    decreases items, 1
  {
    if items == [] then Some(s)
    else match After(s, items[0])
      case None => None
      case Some(t) => AfterItems(t, items[1..])
  }

  function AfterEntries(s: Bytes, keys: seq<int>, values: seq<Item>, prev: Option<int>): Option<Bytes>
    requires prev.Some? ==> IsInt64(prev.value)
    requires |keys| == |values| && Increasing(keys, prev) && ItemsWellFormed(values)
    decreases values, 1
  {
    if keys == [] then Some(s)
    else match AfterKey(s, keys[0])
      case None => None
      case Some(t) =>
        match After(t, values[0])
        case None => None
        case Some(u) => AfterEntries(u, keys[1..], values[1..], Some(keys[0]))
  }

  /** b is the shortest way to write what was read from s before rest, and the only one as short. */
  ghost predicate AtMost(b: Bytes, s: Bytes, rest: Bytes) {
    |b| + |rest| <= |s| && (|b| + |rest| == |s| ==> s == b + rest)
  }

  lemma AtMostJoins(b: Bytes, c: Bytes, s: Bytes, mid: Bytes, rest: Bytes)
    requires AtMost(b, s, mid) && AtMost(c, mid, rest)
    ensures AtMost(b + c, s, rest)
  {
    ConcatAssoc(b, c, rest);
  }

  lemma HeadAtMost(s: Bytes, major: int, value: int)
    requires 0 <= major < 8 && IsUint64(value)
    ensures forall t :: AfterHead(s, major, value) == Some(t) ==> AtMost(Header(major, value), s, t)
    ensures forall t :: AfterHead(Header(major, value) + t, major, value) == Some(t)
  {
    if AnyHead(s).Some? {
      HeaderIsShortest(s);
    }
    forall t
      ensures AfterHead(Header(major, value) + t, major, value) == Some(t)
    {
      HeaderIsHead(major, value, t);
    }
  }

  lemma BytesAtMost(s: Bytes, b: Bytes)
    ensures AfterBytes(s, b).Some? ==> AtMost(b, s, AfterBytes(s, b).value)
    ensures forall t: Bytes :: AfterBytes(b + t, b) == Some(t)
  {
    assert b <= s ==> s == b + s[|b|..];
    forall t: Bytes
      ensures AfterBytes(b + t, b) == Some(t)
    {
      assert (b + t)[|b|..] == t;
    }
  }

  lemma StringAtMost(s: Bytes, major: int, b: Bytes)
    requires 0 <= major < 8 && |b| <= MAX_INT && AfterString(s, major, b).Some?
    ensures AtMost(Header(major, |b|) + b, s, AfterString(s, major, b).value)
  {
    hide AnyHead, Header, AfterHead, AfterBytes, AtMost;
    HeadAtMost(s, major, |b|);
    var t := AfterHead(s, major, |b|).value;
    BytesAtMost(t, b);
    AtMostJoins(Header(major, |b|), b, s, t, AfterString(s, major, b).value);
  }

  lemma StringIsRead(major: int, b: Bytes, rest: Bytes)
    requires 0 <= major < 8 && |b| <= MAX_INT
    ensures AfterString(Header(major, |b|) + b + rest, major, b) == Some(rest)
  {
    hide AnyHead, Header, AfterHead, AfterBytes;
    ConcatAssoc(Header(major, |b|), b, rest);
    HeadAtMost([], major, |b|);
    BytesAtMost([], b);
  }

  lemma KeyAtMost(s: Bytes, key: int)
    requires IsInt64(key)
    ensures AfterKey(s, key).Some? ==> AtMost(EncodeInt(key), s, AfterKey(s, key).value)
    ensures forall t :: AfterKey(EncodeInt(key) + t, key) == Some(t)
  {
    hide AfterHead, Header, AtMost;
    HeadAtMost(s, if key >= 0 then 0 else 1, if key >= 0 then key else -1 - key);
  }

  lemma SimpleHeader(n: int)
    requires 0 <= n < 24
    ensures Header(MAJOR_SIMPLE, n) == [0xe0 + n]
  {
  }

  /** Whatever is read as this item is at least as long as its encoding, and nothing else is as short. */
  lemma {:induction false} EncodingIsShortest(s: Bytes, i: Item)
    requires WellFormed(i) && After(s, i).Some?
    ensures AtMost(Encode(i), s, After(s, i).value)
    decreases i, 0
  {
    hide AtMost, AfterHead, AfterString, AfterBytes, Header;
    match i
    case UInt(n) => HeadAtMost(s, 0, n);
    case NInt(n) => HeadAtMost(s, 1, n);
    case Blob(b) => StringAtMost(s, 2, b);
    case Text(b) => StringAtMost(s, 3, b);
    case Simple(n) =>
      SimpleHeader(n);
      BytesAtMost(s, [0xe0 + n]);
    case Array(items) =>
      HeadAtMost(s, 4, |items|);
      var t := AfterHead(s, 4, |items|).value;
      ItemsAreShortest(t, items);
      AtMostJoins(Header(4, |items|), EncodeItems(items), s, t, AfterItems(t, items).value);
    case Map(keys, values) =>
      HeadAtMost(s, 5, |keys|);
      var t := AfterHead(s, 5, |keys|).value;
      EntriesAreShortest(t, keys, values, None);
      AtMostJoins(Header(5, |keys|), EncodeEntries(keys, values, None), s, t, AfterEntries(t, keys, values, None).value);
  }

  lemma {:induction false} ItemsAreShortest(s: Bytes, items: seq<Item>)
    requires ItemsWellFormed(items) && AfterItems(s, items).Some?
    ensures AtMost(EncodeItems(items), s, AfterItems(s, items).value)
    decreases items, 1
  {
    if items == [] {
      assert [] + s == s;
    } else {
      hide AtMost, After, Encode, WellFormed;
      var t := After(s, items[0]).value;
      EncodingIsShortest(s, items[0]);
      ItemsAreShortest(t, items[1..]);
      AtMostJoins(Encode(items[0]), EncodeItems(items[1..]), s, t, AfterItems(s, items).value);
    }
  }

  lemma {:induction false} EntriesAreShortest(s: Bytes, keys: seq<int>, values: seq<Item>, prev: Option<int>)
    requires prev.Some? ==> IsInt64(prev.value)
    requires |keys| == |values| && Increasing(keys, prev) && ItemsWellFormed(values)
    requires AfterEntries(s, keys, values, prev).Some?
    ensures AtMost(EncodeEntries(keys, values, prev), s, AfterEntries(s, keys, values, prev).value)
    decreases values, 1
  {
    if keys == [] {
      assert [] + s == s;
    } else {
      hide AtMost, After, AfterKey, Encode, EncodeInt, WellFormed, Follows;
      var rest, next := AfterEntries(s, keys, values, prev).value, Some(keys[0]);
      var t := AfterKey(s, keys[0]).value;
      var u := After(t, values[0]).value;
      KeyAtMost(s, keys[0]);
      EncodingIsShortest(t, values[0]);
      EntriesAreShortest(u, keys[1..], values[1..], next);
      AtMostJoins(Encode(values[0]), EncodeEntries(keys[1..], values[1..], next), t, u, rest);
      AtMostJoins(EncodeInt(keys[0]), Encode(values[0]) + EncodeEntries(keys[1..], values[1..], next), s, t, rest);
    }
  }

  /** The encoding of an item is read as that item, whatever follows. */
  lemma {:induction false} EncodingIsRead(i: Item, rest: Bytes)
    requires WellFormed(i)
    ensures After(Encode(i) + rest, i) == Some(rest)
    decreases i, 0
  {
    hide AfterHead, AfterString, AfterBytes, Header;
    match i
    case UInt(n) => HeadAtMost([], 0, n);
    case NInt(n) => HeadAtMost([], 1, n);
    case Blob(b) => StringIsRead(2, b, rest);
    case Text(b) => StringIsRead(3, b, rest);
    case Simple(n) =>
      SimpleHeader(n);
      BytesAtMost([], [0xe0 + n]);
    case Array(items) =>
      HeadAtMost([], 4, |items|);
      ConcatAssoc(Header(4, |items|), EncodeItems(items), rest);
      ItemsAreRead(items, rest);
    case Map(keys, values) =>
      HeadAtMost([], 5, |keys|);
      ConcatAssoc(Header(5, |keys|), EncodeEntries(keys, values, None), rest);
      EntriesAreRead(keys, values, None, rest);
  }

  lemma {:induction false} ItemsAreRead(items: seq<Item>, rest: Bytes)
    requires ItemsWellFormed(items)
    ensures AfterItems(EncodeItems(items) + rest, items) == Some(rest)
    decreases items, 1
  {
    if items == [] {
      assert [] + rest == rest;
    } else {
      hide After, Encode, WellFormed;
      var others := EncodeItems(items[1..]);
      ConcatAssoc(Encode(items[0]), others, rest);
      EncodingIsRead(items[0], others + rest);
      ItemsAreRead(items[1..], rest);
    }
  }

  lemma {:induction false} EntriesAreRead(keys: seq<int>, values: seq<Item>, prev: Option<int>, rest: Bytes)
    requires prev.Some? ==> IsInt64(prev.value)
    requires |keys| == |values| && Increasing(keys, prev) && ItemsWellFormed(values)
    ensures AfterEntries(EncodeEntries(keys, values, prev) + rest, keys, values, prev) == Some(rest)
    decreases values, 1
  {
    if keys == [] {
      assert [] + rest == rest;
    } else {
      hide After, AfterKey, Encode, EncodeInt, WellFormed, Follows;
      var first, others := Encode(values[0]), EncodeEntries(keys[1..], values[1..], Some(keys[0]));
      ConcatAssoc(EncodeInt(keys[0]), first + others, rest);
      ConcatAssoc(first, others, rest);
      KeyAtMost([], keys[0]);
      EncodingIsRead(values[0], others + rest);
      EntriesAreRead(keys[1..], values[1..], Some(keys[0]), rest);
    }
  }

  /** s can be read as this item, and nothing shorter can. */
  ghost predicate ShortestFor(s: Bytes, i: Item) {
    WellFormed(i) && After(s, i) == Some([]) && forall t :: After(t, i) == Some([]) ==> |s| <= |t|
  }

  /** Verify accepts exactly the shortest encodings, in the sense of the standard, of items nested at most 32 deep. */
  lemma {:induction false} VerifyAcceptsExactlyShortest(s: Bytes)
    ensures Verify(s) == None <==> exists i :: Height(i) <= 32 && ShortestFor(s, i)
  {
    hide After, Encode, WellFormed, Height, Verify;
    VerifyAcceptsExactlyEncodings(s);
    if i :| IsEncodingOf(s, i) {
      ShortestIsEncoding(s, i);
    }
    if i :| Height(i) <= 32 && ShortestFor(s, i) {
      ShortestIsEncoding(s, i);
      assert IsEncodingOf(s, i);
    }
  }

  lemma {:induction false} ShortestIsEncoding(s: Bytes, i: Item)
    requires WellFormed(i)
    ensures ShortestFor(s, i) <==> s == Encode(i)
  {
    hide After, Encode, WellFormed;
    var b := Encode(i);
    EncodingIsRead(i, []);
    assert b + [] == b;
    forall t | After(t, i) == Some([])
      ensures |b| <= |t| && (|b| == |t| ==> t == b)
    {
      EncodingIsShortest(t, i);
    }
  }
}

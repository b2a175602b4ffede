/** What skipping walks over, exactly: items whose text need not be text, with any items as map keys, in any order. */
module CborLoose {
  import opened Base
  import opened CborHeader
  import opened CborScalar
  import opened CborSkip

  datatype Loose =
    | Number(major: int, value: int)         // an integer, or false, true or null
    | Str(major: int, bytes: Bytes)          // a byte or text string
    | Many(major: int, items: seq<Loose>)    // an array, or a map as keys and values in turn

  /** The count that the header of an array or map announces. */
  function Count(major: int, n: nat): int {
    if major == MAJOR_MAP then n / 2 else n
  }

  predicate WellFormed(i: Loose)
    decreases i, 0
  {
    match i
    case Number(major, value) =>
      || (major in {MAJOR_UINT, MAJOR_NINT} && IsUint64(value))
      || (major == MAJOR_SIMPLE && value in {SIMPLE_FALSE, SIMPLE_TRUE, SIMPLE_NULL})
    case Str(major, b) => major in {MAJOR_BYTES, MAJOR_TEXT} && |b| <= MAX_INT
    case Many(major, items) =>
      && major in {MAJOR_ARRAY, MAJOR_MAP} && (major == MAJOR_MAP ==> |items| % 2 == 0)
      && IsUint64(Count(major, |items|)) && AllWellFormed(items)
  }

  predicate AllWellFormed(items: seq<Loose>)
    decreases items, 1
  {
    items == [] || (WellFormed(items[0]) && AllWellFormed(items[1..]))
  }

  /** Nested no deeper than this; an item that holds no other takes a depth of 1. */
  predicate Within(i: Loose, depth: nat)
    decreases i, 0
  {
    depth > 0 && (i.Many? ==> AllWithin(i.items, depth - 1))
  }

  predicate AllWithin(items: seq<Loose>, depth: nat)
    decreases items, 1
  {
    items == [] || (Within(items[0], depth) && AllWithin(items[1..], depth))
  }

  function Encode(i: Loose): Bytes
    requires WellFormed(i)
    decreases i, 0
  {
    match i
    case Number(major, value) => Header(major, value)
    case Str(major, b) => Header(major, |b|) + b
    case Many(major, items) => Header(major, Count(major, |items|)) + EncodeAll(items)
  }

  function EncodeAll(items: seq<Loose>): Bytes
    requires AllWellFormed(items)
    decreases items, 1
  {
    if items == [] then [] else Encode(items[0]) + EncodeAll(items[1..])
  }

  lemma {:induction false} SkipsEncoding(i: Loose, depth: nat, rest: Bytes)
    requires WellFormed(i) && Within(i, depth)
    ensures Skip(Encode(i) + rest, depth) == Ok(rest)
    decreases i, 0
  {
    hide Header, ReadHead;
    match i
    case Number(major, value) => ReadHeadInvertsHeader(major, value, rest);
    case Str(major, b) =>
      ConcatAssoc(Header(major, |b|), b, rest);
      ReadHeadInvertsHeader(major, |b|, b + rest);
      ReadBytesBack(b, rest);
    case Many(major, items) =>
      var n := Count(major, |items|);
      ConcatAssoc(Header(major, n), EncodeAll(items), rest);
      ReadHeadInvertsHeader(major, n, EncodeAll(items) + rest);
      SkipsAll(items, depth - 1, rest);
  }

  lemma {:induction false} SkipsAll(items: seq<Loose>, depth: nat, rest: Bytes)
    requires AllWellFormed(items) && AllWithin(items, depth)
    ensures SkipMany(EncodeAll(items) + rest, depth, |items|) == Ok(rest)
    decreases items, 1
  {
    hide Skip, Encode, WellFormed, Within;
    if items == [] {
      assert [] + rest == rest;
    } else {
      var others := EncodeAll(items[1..]);
      ConcatAssoc(Encode(items[0]), others, rest);
      SkipsEncoding(items[0], depth, others + rest);
      SkipsAll(items[1..], depth, rest);
    }
  }

  /** i is what was walked over before rest. */
  ghost predicate Walked(s: Bytes, depth: nat, i: Loose, rest: Bytes) {
    WellFormed(i) && Within(i, depth) && s == Encode(i) + rest
  }

  /** The items that the header of an array or map announces. */
  function Announced(major: int, count: nat): nat {
    if major == MAJOR_MAP then 2 * count else count
  }

  lemma {:induction false} ManyWalked(s: Bytes, depth: nat, major: int, count: nat, items: seq<Loose>, rest: Bytes)
    requires depth > 0 && major in {MAJOR_ARRAY, MAJOR_MAP} && IsUint64(count) && |items| == Announced(major, count)
    requires AllWellFormed(items) && AllWithin(items, depth - 1) && s == Header(major, count) + (EncodeAll(items) + rest)
    ensures Walked(s, depth, Many(major, items), rest)
  {
    hide Header, EncodeAll;
    assert Count(major, |items|) == count;
    ConcatAssoc(Header(major, count), EncodeAll(items), rest);
  }

  lemma {:induction false} SkippedString(s: Bytes, depth: nat) returns (i: Loose)
    requires Skip(s, depth).Ok? && ReadHead(s).value.major in {MAJOR_BYTES, MAJOR_TEXT}
    ensures Walked(s, depth, i, Skip(s, depth).value)
  {
    HeaderInvertsReadHead(s);
    var h, rest := ReadHead(s).value, Skip(s, depth).value;
    hide Header, ReadHead;
    var b := h.rest[..h.value];
    i := Str(h.major, b);
    assert h.rest == b + rest;
    ConcatAssoc(Header(h.major, |b|), b, rest);
  }

  lemma {:induction false} SkippedNumber(s: Bytes, depth: nat) returns (i: Loose)
    requires Skip(s, depth).Ok? && ReadHead(s).value.major !in {MAJOR_BYTES, MAJOR_TEXT, MAJOR_ARRAY, MAJOR_MAP}
    ensures Walked(s, depth, i, Skip(s, depth).value)
  {
    HeaderInvertsReadHead(s);
    var h := ReadHead(s).value;
    hide Header, ReadHead;
    i := Number(h.major, h.value);
  }

  lemma {:induction false} SkippedItem(s: Bytes, depth: nat) returns (i: Loose)
    requires Skip(s, depth).Ok?
    ensures Walked(s, depth, i, Skip(s, depth).value)
    decreases depth, 1, 0
  {
    HeaderInvertsReadHead(s);
    var h := ReadHead(s).value;
    hide Header, ReadHead, Walked, AllWellFormed, AllWithin, EncodeAll;
    if h.major in {MAJOR_BYTES, MAJOR_TEXT} {
      i := SkippedString(s, depth);
    } else if h.major in {MAJOR_ARRAY, MAJOR_MAP} {
      var items := SkippedItems(h.rest, depth - 1, Announced(h.major, h.value));
      i := Many(h.major, items);
      ManyWalked(s, depth, h.major, h.value, items, Skip(s, depth).value);
    } else {
      i := SkippedNumber(s, depth);
    }
  }

  lemma {:induction false} SkippedItems(s: Bytes, depth: nat, n: nat) returns (items: seq<Loose>)
    requires SkipMany(s, depth, n).Ok?
    ensures |items| == n && AllWellFormed(items) && AllWithin(items, depth)
    ensures s == EncodeAll(items) + SkipMany(s, depth, n).value
    decreases depth, 2, n
  {
    hide Skip, Encode, WellFormed, Within;
    if n == 0 {
      items := [];
      assert s == [] + s;
    } else {
      var first := SkippedItem(s, depth);
      var others := SkippedItems(Skip(s, depth).value, depth, n - 1);
      items := [first] + others;
      assert items[1..] == others;
      ConcatAssoc(Encode(first), EncodeAll(others), SkipMany(s, depth, n).value);
    }
  }

  /** Skipping succeeds exactly on such items, and stops behind them. */
  lemma {:induction false} SkipAcceptsExactly(s: Bytes, depth: nat, rest: Bytes)
    ensures Skip(s, depth) == Ok(rest) <==> exists i :: Walked(s, depth, i, rest)
  {
    hide Skip;
    if Skip(s, depth) == Ok(rest) {
      var i := SkippedItem(s, depth);
    }
    forall i | Walked(s, depth, i, rest)
      ensures Skip(s, depth) == Ok(rest)
    {
      SkipsEncoding(i, depth, rest);
    }
  }
}

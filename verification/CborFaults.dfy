/** Which error Verify gives: that of the first thing that is wrong, and what is wrong then. */
module CborFaults {
  import opened Base
  import opened CborHeader
  import opened CborItem
  import opened CborShortest
  import opened Utf8

  // ---- What can be wrong in one place -----------------------------------------------------------

  /** No header starts here: the bytes end inside it, it announces an argument of no known width, or it is too long. */
  ghost predicate HeadFault(s: Bytes, e: CborError) {
    match e
    case UnexpectedEof => AnyHead(s).None? && exists t :: AnyHead(s + t).Some?
    case InvalidAdditionalInfo => s != [] && s[0] % 32 >= 28
    case NonCanonical => AnyHead(s).Some? && !Shortest(s)
    case _ => false
  }

  /** An item that starts here is at fault by itself, not by what it holds. */
  ghost predicate ItemFault(s: Bytes, depth: nat, e: CborError) {
    if depth == 0 then e == MaxDepthExceeded
    else if !Shortest(s) then HeadFault(s, e)
    else
      var h := AnyHead(s).value;
      match e
      case UnexpectedEof => h.major in {2, 3} && h.value > Min(|h.rest|, MAX_INT)
      case InvalidUtf8 => h.major == 3 && 0 <= h.value <= Min(|h.rest|, MAX_INT) && !ValidUtf8(h.rest[..h.value])
      case UnsupportedType => h.major == 6 || (h.major == 7 && h.value !in {20, 21, 22})
      case _ => false
  }

  /** A map key that starts here is at fault, given the key before it. */
  ghost predicate KeyFault(s: Bytes, prev: Option<int>, e: CborError) {
    if !Shortest(s) then HeadFault(s, e)
    else
      var h := AnyHead(s).value;
      match e
      case InvalidMajorType => h.major !in {0, 1}
      case IntegerOverflow => h.major in {0, 1} && h.value >= 0x8000_0000_0000_0000
      case InvalidMapKeyOrder =>
        && h.major in {0, 1} && h.value < 0x8000_0000_0000_0000 && prev.Some?
        && !ComesAfter(prev.value, if h.major == 0 then h.value else -1 - h.value)
      case _ => false
  }

  /** The order of map keys: the natural numbers upwards, then the negative ones downwards. */
  predicate ComesAfter(x: int, y: int) {
    if x >= 0 then y > x || y < 0 else y < x
  }

  // ---- Where it is wrong ------------------------------------------------------------------------

  /** Some items follow that are well formed, fewer than announced, and then one in which there is a fault. */
  ghost predicate FaultAfter(s: Bytes, depth: nat, n: int, e: CborError)
    decreases depth, 3
  {
    exists items, u :: FaultAfterThese(s, depth, n, e, items, u)
  }

  ghost predicate FaultAfterThese(s: Bytes, depth: nat, n: int, e: CborError, items: seq<Item>, u: Bytes)
    decreases depth, 2
  {
    && ItemsWellFormed(items) && |items| < n && ItemsHeight(items) <= depth
    && s == EncodeItems(items) + u && FirstFault(u, depth, e)
  }

  /** Some entries follow that are well formed, with increasing keys, and then one with a fault in its key or its value. */
  ghost predicate EntryFaultAfter(s: Bytes, depth: nat, n: int, prev: Option<int>, e: CborError)
    requires prev.Some? ==> IsInt64(prev.value)
    decreases depth, 3
  {
    exists keys, items, u :: EntryFaultAfterThese(s, depth, n, prev, e, keys, items, u)
  }

  ghost predicate EntryFaultAfterThese(s: Bytes, depth: nat, n: int, prev: Option<int>, e: CborError,
                                       keys: seq<int>, items: seq<Item>, u: Bytes)
    requires prev.Some? ==> IsInt64(prev.value)
    decreases depth, 2
  {
    && |keys| == |items| < n && Increasing(keys, prev) && ItemsWellFormed(items) && ItemsHeight(items) <= depth
    && s == EncodeEntries(keys, items, prev) + u
    && EntryFault(u, depth, if keys == [] then prev else Some(keys[|keys| - 1]), e)
  }

  ghost predicate EntryFault(s: Bytes, depth: nat, prev: Option<int>, e: CborError)
    decreases depth, 1
  {
    || KeyFault(s, prev, e)
    || exists key, u :: IsInt64(key) && (prev.Some? ==> ComesAfter(prev.value, key)) && s == EncodeInt(key) + u && FirstFault(u, depth, e)
  }

  /** The first fault in the item that starts here, read at this depth, is this one. */
  ghost predicate FirstFault(s: Bytes, depth: nat, e: CborError)
    decreases depth, 0
  {
    || ItemFault(s, depth, e)
    || (depth > 0 && Shortest(s)
        && var h := AnyHead(s).value;
           || (h.major == 4 && FaultAfter(h.rest, depth - 1, h.value, e))
           || (h.major == 5 && EntryFaultAfter(h.rest, depth - 1, h.value, None, e)))
  }

  // ---- Verify finds the first fault -------------------------------------------------------------

  lemma HeadFaultFound(s: Bytes, e: CborError)
    ensures ReadHead(s) == Err(e) <==> !Shortest(s) && HeadFault(s, e)
    ensures Shortest(s) ==> AnyHead(s).Some?
    ensures Shortest(s) ==> ReadHead(s) == Ok(AnyHead(s).value) && 0 <= AnyHead(s).value.major < 8 && IsUint64(AnyHead(s).value.value)
    ensures ReadHead(s).Ok? ==> Shortest(s)
    ensures ReadHead(s).Err? ==> ReadHead(s).error in {UnexpectedEof, InvalidAdditionalInfo, NonCanonical}
  {
    ReadHeadErrors(s);
    ErrorsByFirstByte(s);
    WideInfoIsNone(s);
    hide AnyHead, ReadHead;
    if AnyHead(s).Some? {
      ReadHeadAcceptsExactlyShortest(s, AnyHead(s).value);
      HeaderIsShortest(s);
    }
    if ReadHead(s).Ok? {
      ReadHeadAcceptsExactlyShortest(s, ReadHead(s).value);
    }
  }

  lemma WideInfoIsNone(s: Bytes)
    ensures s != [] && s[0] % 32 >= 28 ==> AnyHead(s).None?
  {
  }

  lemma KeyFaultFound(s: Bytes, prev: Option<int>, e: CborError)
    requires prev.Some? ==> IsInt64(prev.value)
    ensures ReadInt(s).Ok? ==> IsInt64(ReadInt(s).value.value)
    ensures KeyFault(s, prev, e)
       <==> ReadInt(s) == Err(e) || (e == InvalidMapKeyOrder && ReadInt(s).Ok? && !Follows(prev, ReadInt(s).value.value))
    ensures ReadInt(s) != Err(InvalidMapKeyOrder)
  {
    hide AnyHead, Shortest, HeadFault, MapKeyCmp, ReadHead;
    HeadFaultFound(s, e);
    if ReadInt(s).Ok? && prev.Some? {
      MapKeyCmpIsRankOrder(prev.value, ReadInt(s).value.value);
    }
  }

  /** Verify and the parser of items fail with exactly the first fault. */
  lemma {:induction false} ParseFindsFirstFault(s: Bytes, depth: nat, e: CborError)
    ensures Parse(s, depth) == Err(e) <==> FirstFault(s, depth, e)
    decreases depth, 0, 0
  {
    hide AnyHead, Shortest, ReadHead, HeadFault, ValidUtf8, FaultAfter, EntryFaultAfter, ParseItems, ParseEntries;
    if depth > 0 {
      HeadFaultFound(s, e);
      if Shortest(s) {
        var h := AnyHead(s).value;
        HeaderInvertsReadHead(s);
        if h.major == 4 {
          ItemsFindFault(h.rest, depth - 1, h.value, e);
        } else if h.major == 5 {
          EntriesFindFault(h.rest, depth - 1, h.value, None, e);
        }
      }
    }
  }

  lemma {:induction false} ItemsFindFault(s: Bytes, depth: nat, n: nat, e: CborError)
    ensures ParseItems(s, depth, n) == Err(e) <==> FaultAfter(s, depth, n, e)
    decreases depth, 1, n, 1
  {
    hide Parse, ParseItems, FirstFault, Encode, WellFormed, Height;
    if ParseItems(s, depth, n) == Err(e) {
      var items, u := FaultOfItems(s, depth, n, e);
    }
    if items, u :| FaultAfterThese(s, depth, n, e, items, u) {
      ItemsReachFault(s, depth, n, e, items, u);
    }
  }

  lemma {:induction false} FaultOfItems(s: Bytes, depth: nat, n: nat, e: CborError) returns (items: seq<Item>, u: Bytes)
    requires ParseItems(s, depth, n) == Err(e)
    ensures FaultAfterThese(s, depth, n, e, items, u)
    decreases depth, 1, n, 0
  {
    hide Parse, FirstFault, Encode, WellFormed, Height;
    if Parse(s, depth).Err? {
      ParseFindsFirstFault(s, depth, e);
      items, u := [], s;
      assert [] + s == s;
    } else {
      var first := Parse(s, depth).value;
      EncodeInvertsParse(s, depth);
      items, u := FaultOfItems(first.rest, depth, n - 1, e);
      OneItemBefore(s, depth, n, e, first.value, first.rest, items, u);
      items := [first.value] + items;
    }
  }

  lemma {:induction false} ItemsReachFault(s: Bytes, depth: nat, n: nat, e: CborError, items: seq<Item>, u: Bytes)
    requires FaultAfterThese(s, depth, n, e, items, u)
    ensures ParseItems(s, depth, n) == Err(e)
    decreases depth, 1, n, 0
  {
    hide Parse, FirstFault, Encode, WellFormed, Height;
    if items == [] {
      assert [] + u == u;
      ParseFindsFirstFault(s, depth, e);
    } else {
      var others := EncodeItems(items[1..]) + u;
      ConcatAssoc(Encode(items[0]), EncodeItems(items[1..]), u);
      ParseInvertsEncode(items[0], depth, others);
      ItemsReachFault(others, depth, n - 1, e, items[1..], u);
    }
  }

  lemma {:induction false} OneItemBefore(s: Bytes, depth: nat, n: nat, e: CborError, i: Item, rest: Bytes, items: seq<Item>, u: Bytes)
    requires n > 0 && WellFormed(i) && Height(i) <= depth && s == Encode(i) + rest
    requires FaultAfterThese(rest, depth, n - 1, e, items, u)
    ensures FaultAfterThese(s, depth, n, e, [i] + items, u)
  {
    hide FirstFault, Encode, WellFormed, Height;
    assert ([i] + items)[1..] == items;
    ConcatAssoc(Encode(i), EncodeItems(items), u);
  }

  lemma AfterIsFollows(prev: Option<int>, key: int)
    requires (prev.Some? ==> IsInt64(prev.value)) && IsInt64(key)
    ensures Follows(prev, key) <==> (prev.Some? ==> ComesAfter(prev.value, key))
  {
    hide MapKeyCmp;
    if prev.Some? {
      MapKeyCmpIsRankOrder(prev.value, key);
    }
  }

  /** One entry: a fault in it is a fault in its key, or one in its value. */
  lemma {:induction false} EntryFindsFault(s: Bytes, depth: nat, prev: Option<int>, e: CborError)
    requires prev.Some? ==> IsInt64(prev.value)
    ensures ReadInt(s).Ok? ==> IsInt64(ReadInt(s).value.value)
    ensures EntryFault(s, depth, prev, e)
       <==> ReadInt(s) == Err(e)
            || (ReadInt(s).Ok? && if !Follows(prev, ReadInt(s).value.value) then e == InvalidMapKeyOrder
                                  else Parse(ReadInt(s).value.rest, depth) == Err(e))
    decreases depth, 1, 0
  {
    hide Parse, FirstFault, KeyFault, ReadInt, EncodeInt, Follows;
    KeyFaultFound(s, prev, e);
    if ReadInt(s).Ok? {
      var key := ReadInt(s).value;
      EncodeIntInvertsReadInt(s);
      AfterIsFollows(prev, key.value);
      ParseFindsFirstFault(key.rest, depth, e);
    }
    if key, u :| IsInt64(key) && (prev.Some? ==> ComesAfter(prev.value, key)) && s == EncodeInt(key) + u && FirstFault(u, depth, e) {
      ReadIntInvertsEncodeInt(key, u);
    }
  }

  lemma {:induction false} EntriesFindFault(s: Bytes, depth: nat, n: nat, prev: Option<int>, e: CborError)
    requires prev.Some? ==> IsInt64(prev.value)
    ensures ParseEntries(s, depth, n, prev) == Err(e) <==> EntryFaultAfter(s, depth, n, prev, e)
    decreases depth, 2, n, 1
  {
    hide Parse, ParseEntries, EntryFault, Encode, WellFormed, Height, EncodeInt, Follows;
    if ParseEntries(s, depth, n, prev) == Err(e) {
      var keys, items, u := FaultOfEntries(s, depth, n, prev, e);
    }
    if keys, items, u :| EntryFaultAfterThese(s, depth, n, prev, e, keys, items, u) {
      EntriesReachFault(s, depth, n, prev, e, keys, items, u);
    }
  }

  lemma {:induction false} FaultOfEntries(s: Bytes, depth: nat, n: nat, prev: Option<int>, e: CborError)
    returns (keys: seq<int>, items: seq<Item>, u: Bytes)
    requires (prev.Some? ==> IsInt64(prev.value)) && ParseEntries(s, depth, n, prev) == Err(e)
    ensures EntryFaultAfterThese(s, depth, n, prev, e, keys, items, u)
    decreases depth, 2, n, 0
  {
    hide Parse, EntryFault, Encode, WellFormed, Height, ReadInt, EncodeInt, Follows;
    EntryFindsFault(s, depth, prev, e);
    if EntryFault(s, depth, prev, e) {
      keys, items, u := [], [], s;
      assert [] + s == s;
    } else {
      EncodeIntInvertsReadInt(s);
      var key := ReadInt(s).value;
      var value := Parse(key.rest, depth).value;
      EncodeInvertsParse(key.rest, depth);
      keys, items, u := FaultOfEntries(value.rest, depth, n - 1, Some(key.value), e);
      OneEntryBefore(s, depth, n, prev, e, key.value, value.value, value.rest, keys, items, u);
      keys, items := [key.value] + keys, [value.value] + items;
    }
  }

  lemma {:induction false} EntriesReachFault(s: Bytes, depth: nat, n: nat, prev: Option<int>, e: CborError,
                                             keys: seq<int>, items: seq<Item>, u: Bytes)
    requires (prev.Some? ==> IsInt64(prev.value)) && EntryFaultAfterThese(s, depth, n, prev, e, keys, items, u)
    ensures ParseEntries(s, depth, n, prev) == Err(e)
    decreases depth, 2, n, 0
  {
    hide Parse, EntryFault, Encode, WellFormed, Height, ReadInt, EncodeInt, Follows;
    if keys == [] {
      assert [] + u == u;
      EntryFindsFault(s, depth, prev, e);
    } else {
      var key, next := keys[0], Some(keys[0]);
      var first, others := Encode(items[0]), EncodeEntries(keys[1..], items[1..], next) + u;
      ConcatAssoc(EncodeInt(key), first + EncodeEntries(keys[1..], items[1..], next), u);
      ConcatAssoc(first, EncodeEntries(keys[1..], items[1..], next), u);
      ReadIntInvertsEncodeInt(key, first + others);
      ParseInvertsEncode(items[0], depth, others);
      EntriesReachFault(others, depth, n - 1, next, e, keys[1..], items[1..], u);
    }
  }

  lemma {:induction false} OneEntryBefore(s: Bytes, depth: nat, n: nat, prev: Option<int>, e: CborError, key: int, i: Item, rest: Bytes,
                                          keys: seq<int>, items: seq<Item>, u: Bytes)
    requires (prev.Some? ==> IsInt64(prev.value)) && IsInt64(key) && Follows(prev, key) && WellFormed(i) && Height(i) <= depth
    requires n > 0 && s == EncodeInt(key) + (Encode(i) + rest)
    requires EntryFaultAfterThese(rest, depth, n - 1, Some(key), e, keys, items, u)
    ensures EntryFaultAfterThese(s, depth, n, prev, e, [key] + keys, [i] + items, u)
  {
    hide EntryFault, Encode, WellFormed, Height, EncodeInt, Follows;
    var others := EncodeEntries(keys, items, Some(key));
    assert ([key] + keys)[1..] == keys && ([i] + items)[1..] == items;
    ConcatAssoc(EncodeInt(key), Encode(i) + others, u);
    ConcatAssoc(Encode(i), others, u);
  }

  /** For every byte string, the error of Verify: the first fault in its one item, or that there is something behind it. */
  lemma {:induction false} VerifyFindsFirstFault(s: Bytes, e: CborError)
    ensures Verify(s) == Some(e)
       <==> FirstFault(s, 32, e)
            || (e == TrailingBytes && exists i, x :: WellFormed(i) && Height(i) <= 32 && x != [] && s == Encode(i) + x)
  {
    hide Parse, FirstFault, Encode, WellFormed, Height;
    ParseFindsFirstFault(s, MAX_DEPTH, e);
    if Parse(s, MAX_DEPTH).Ok? {
      EncodeInvertsParse(s, MAX_DEPTH);
    }
    if i, x :| WellFormed(i) && Height(i) <= 32 && x != [] && s == Encode(i) + x {
      ParseInvertsEncode(i, MAX_DEPTH, x);
    }
  }
}

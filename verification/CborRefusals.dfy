/** Which values Marshal refuses and with which error, and what Unmarshal says of bytes that no Marshal wrote. */
module CborRefusals {
  import opened Base
  import opened CborHeader
  import opened CborScalar
  import opened CborFieldOrder
  import opened CborSchema
  import opened CborRoundTrip
  import opened CborFaults
  import opened Utf8

  // ---- Marshal ----------------------------------------------------------------------------------

  /** All text is UTF-8, and nil stands only in fields with the optional tag. */
  predicate NothingRefused(v: Value, s: Schema, optional: bool)
    requires HasType(v, s)
    decreases v
  {
    match v
    case Text(b) => ValidUtf8(b)
    case Nil => optional
    case Some_(x) => NothingRefused(x, s.elem, false)
    case Ref(x) => NothingRefused(x, s.elem, false)
    case Struct(values) => forall i :: 0 <= i < |values| ==> NothingRefused(values[i], s.fields[i].schema, s.fields[i].optional)
    case _ => true
  }

  /** Field j of a struct is written before field i. */
  predicate WrittenBefore(s: Schema, j: nat, i: nat)
    requires s.SArray? || (s.SMap? && j < |s.keys| && i < |s.keys|)
  {
    if s.SArray? then j < i
    else if s.keys[j] >= 0 then s.keys[i] > s.keys[j] || s.keys[i] < 0
    else s.keys[i] < s.keys[j]
  }

  /** The first thing to refuse, in the order in which the fields are written, is refused with this error. */
  ghost predicate Refused(v: Value, s: Schema, optional: bool, e: CborError)
    requires SchemaOk(s) && HasType(v, s)
    decreases v
  {
    match v
    case Text(b) => e == InvalidUtf8 && !ValidUtf8(b)
    case Nil => e == UnexpectedNil && !optional
    case Some_(x) => Refused(x, s.elem, false, e)
    case Ref(x) => Refused(x, s.elem, false, e)
    case Struct(values) =>
      exists i :: 0 <= i < |values| && Refused(values[i], s.fields[i].schema, s.fields[i].optional, e)
                  && forall j :: 0 <= j < |values| && WrittenBefore(s, j, i) ==>
                       NothingRefused(values[j], s.fields[j].schema, s.fields[j].optional)
    case _ => false
  }

  /** Of each field of a struct, whether there is nothing in it to refuse, and whether it is refused with this error. */
  ghost predicate Judged(values: seq<Value>, s: Schema, e: CborError, fine: seq<bool>, bad: seq<bool>) {
    && (s.SArray? || s.SMap?) && SchemaOk(s) && HasType(Struct(values), s) && |fine| == |bad| == |values|
    && forall i :: 0 <= i < |values| ==>
         && fine[i] == NothingRefused(values[i], s.fields[i].schema, s.fields[i].optional)
         && bad[i] == Refused(values[i], s.fields[i].schema, s.fields[i].optional, e)
  }

  ghost function FineFlags(values: seq<Value>, s: Schema): seq<bool>
    requires (s.SArray? || s.SMap?) && HasType(Struct(values), s)
  {
    seq(|values|, i requires 0 <= i < |values| => NothingRefused(values[i], s.fields[i].schema, s.fields[i].optional))
  }

  ghost function BadFlags(values: seq<Value>, s: Schema, e: CborError): seq<bool>
    requires (s.SArray? || s.SMap?) && SchemaOk(s) && HasType(Struct(values), s)
  {
    seq(|values|, i requires 0 <= i < |values| => Refused(values[i], s.fields[i].schema, s.fields[i].optional, e))
  }

  /** Marshal refuses exactly these values, each with the error of the first thing to refuse. */
  lemma {:induction false} EncodeRefusesExactly(v: Value, s: Schema, optional: bool, e: CborError)
    requires SchemaOk(s) && HasType(v, s)
    ensures Encode(v, s, optional).Ok? <==> NothingRefused(v, s, optional)
    ensures Encode(v, s, optional) == Err(e) <==> Refused(v, s, optional, e)
    decreases s, 2, 0
  {
    if s.SOption? || s.SPtr? {
      hide ValidUtf8, Header, SortedOrder, EncodeFields, EncodeEntries;
      if v.Some_? || v.Ref? {
        EncodeRefusesExactly(v.value, s.elem, false, e);
      }
    } else if s.SArray? {
      ArrayRefused(v, s, optional, e);
    } else if s.SMap? {
      MapRefused(v, s, optional, e);
    } else {
      ScalarRefused(v, s, optional, e);
    }
  }

  lemma {:induction false} ScalarRefused(v: Value, s: Schema, optional: bool, e: CborError)
    requires SchemaOk(s) && HasType(v, s) && !s.SOption? && !s.SPtr? && !s.SArray? && !s.SMap?
    ensures Encode(v, s, optional).Ok? <==> NothingRefused(v, s, optional)
    ensures Encode(v, s, optional) == Err(e) <==> Refused(v, s, optional, e)
  {
    hide ValidUtf8, Header, EncodeInt;
  }

  lemma {:induction false} ArrayRefused(v: Value, s: Schema, optional: bool, e: CborError)
    requires SchemaOk(s) && HasType(v, s) && s.SArray?
    ensures Encode(v, s, optional).Ok? <==> NothingRefused(v, s, optional)
    ensures Encode(v, s, optional) == Err(e) <==> Refused(v, s, optional, e)
    decreases s, 1, |s.fields| + 1
  {
    var fine, bad := FineFlags(v.values, s), BadFlags(v.values, s, e);
    assert Judged(v.values, s, e, fine, bad);
    FieldsRefuseExactly(v.values, s, 0, e, fine, bad);
    ArrayEncodes(v, s, optional);
    hide Encode, EncodeFields, HasType, SchemaOk;
    ArrayJudged(v, s, optional, e, fine, bad);
  }

  lemma {:induction false} ArrayEncodes(v: Value, s: Schema, optional: bool)
    requires SchemaOk(s) && HasType(v, s) && s.SArray?
    ensures match EncodeFields(v.values, s, 0)
            case Ok(_) => Encode(v, s, optional).Ok?
            case Err(e) => Encode(v, s, optional) == Err(e)
  {
    hide Header, EncodeFields;
  }

  lemma {:induction false} ArrayJudged(v: Value, s: Schema, optional: bool, e: CborError, fine: seq<bool>, bad: seq<bool>)
    requires s.SArray? && v.Struct? && Judged(v.values, s, e, fine, bad) && HasType(v, s)
    ensures NothingRefused(v, s, optional) <==> AllFrom(fine, 0)
    ensures Refused(v, s, optional, e) <==> FirstBad(fine, bad, 0)
  {
    hide HasType, SchemaOk;
    if i :| 0 <= i < |bad| && bad[i] && forall j :: 0 <= j < i ==> fine[j] {
      assert forall j :: 0 <= j < |fine| && WrittenBefore(s, j, i) ==> fine[j];
    }
  }

  predicate AllFrom(fine: seq<bool>, i: nat) {
    forall k :: i <= k < |fine| ==> fine[k]
  }

  /** From position i on, the first field that is not fine is bad. */
  ghost predicate FirstBad(fine: seq<bool>, bad: seq<bool>, i: nat) {
    |fine| == |bad| && exists k :: i <= k < |bad| && bad[k] && forall j :: i <= j < k ==> fine[j]
  }

  lemma {:induction false} FieldsRefuseExactly(values: seq<Value>, s: Schema, i: nat, e: CborError, fine: seq<bool>, bad: seq<bool>)
    requires s.SArray? && Judged(values, s, e, fine, bad) && i <= |values|
    ensures TypedFrom(values, s, i)
    ensures EncodeFields(values, s, i).Ok? <==> AllFrom(fine, i)
    ensures EncodeFields(values, s, i) == Err(e) <==> FirstBad(fine, bad, i)
    decreases s, 1, |values| - i
  {
    hide Encode, NothingRefused, Refused;
    if i < |values| {
      EncodeRefusesExactly(values[i], s.fields[i].schema, s.fields[i].optional, e);
      FieldsRefuseExactly(values, s, i + 1, e, fine, bad);
      assert bad[i] ==> FirstBad(fine, bad, i);
    }
  }

  lemma {:induction false} MapRefused(v: Value, s: Schema, optional: bool, e: CborError)
    requires SchemaOk(s) && HasType(v, s) && s.SMap?
    ensures Encode(v, s, optional).Ok? <==> NothingRefused(v, s, optional)
    ensures Encode(v, s, optional) == Err(e) <==> Refused(v, s, optional, e)
    decreases s, 1, |s.fields| + 1
  {
    var fine, bad := FineFlags(v.values, s), BadFlags(v.values, s, e);
    assert Judged(v.values, s, e, fine, bad);
    hide NothingRefused, Refused;
    var order := SortedOrder(s.keys);
    SortedOrderIsOrdered(s.keys);
    EntriesRefuseExactly(v.values, s, order, e, fine, bad);
    MapEncodes(v, s, optional);
    hide Encode, EncodeEntries, SchemaOk, SortedOrder;
    InKeyOrder(s, order, fine, bad);
    MapJudged(v, s, optional, e, fine, bad);
  }

  lemma {:induction false} MapEncodes(v: Value, s: Schema, optional: bool)
    requires SchemaOk(s) && HasType(v, s) && s.SMap?
    ensures match EncodeEntries(v.values, s, SortedOrder(s.keys))
            case Ok(_) => Encode(v, s, optional).Ok?
            case Err(e) => Encode(v, s, optional) == Err(e)
  {
    hide Header, EncodeEntries, SortedOrder;
  }

  lemma {:induction false} MapJudged(v: Value, s: Schema, optional: bool, e: CborError, fine: seq<bool>, bad: seq<bool>)
    requires s.SMap? && v.Struct? && Judged(v.values, s, e, fine, bad) && HasType(v, s) && |s.keys| == |v.values|
    ensures NothingRefused(v, s, optional) <==> AllFrom(fine, 0)
    ensures Refused(v, s, optional, e) <==> BadByKey(s, fine, bad)
  {
    hide HasType, SchemaOk, WrittenBefore;
  }

  ghost predicate BadByKey(s: Schema, fine: seq<bool>, bad: seq<bool>)
    requires s.SMap? && |s.keys| == |fine| == |bad|
  {
    exists i :: 0 <= i < |bad| && bad[i] && forall j :: 0 <= j < |fine| && WrittenBefore(s, j, i) ==> fine[j]
  }

  /** The flags at these positions. */
  function At(flags: seq<bool>, order: seq<nat>): (r: seq<bool>)
    requires forall i :: 0 <= i < |order| ==> order[i] < |flags|
    ensures |r| == |order|
  {
    seq(|order|, k requires 0 <= k < |order| => flags[order[k]])
  }

  lemma {:induction false} EntriesRefuseExactly(values: seq<Value>, s: Schema, order: seq<nat>, e: CborError,
                                                fine: seq<bool>, bad: seq<bool>)
    requires s.SMap? && Judged(values, s, e, fine, bad) && forall i :: 0 <= i < |order| ==> order[i] < |values|
    ensures TypedAt(values, s, order)
    ensures EncodeEntries(values, s, order).Ok? <==> AllFrom(At(fine, order), 0)
    ensures EncodeEntries(values, s, order) == Err(e) <==> FirstBad(At(fine, order), At(bad, order), 0)
    decreases s, 1, |order|
  {
    hide Encode, NothingRefused, Refused, EncodeInt;
    if order != [] {
      var j, tail := order[0], order[1..];
      EncodeRefusesExactly(values[j], s.fields[j].schema, s.fields[j].optional, e);
      EntriesRefuseExactly(values, s, tail, e, fine, bad);
      assert At(fine, order) == [fine[j]] + At(fine, tail) && At(bad, order) == [bad[j]] + At(bad, tail);
      FirstOrLater(fine[j], bad[j], At(fine, tail), At(bad, tail));
      hide FirstBad, AllFrom, At;
    }
  }

  lemma FirstOrLater(f: bool, b: bool, fine: seq<bool>, bad: seq<bool>)
    requires |fine| == |bad|
    ensures AllFrom([f] + fine, 0) <==> f && AllFrom(fine, 0)
    ensures FirstBad([f] + fine, [b] + bad, 0) <==> b || (f && FirstBad(fine, bad, 0))
  {
    AllAreFine(f, fine);
    if FirstBad([f] + fine, [b] + bad, 0) {
      FirstIsBad(f, b, fine, bad);
    }
    if b || (f && FirstBad(fine, bad, 0)) {
      BadIsFirst(f, b, fine, bad);
    }
  }

  lemma AllAreFine(f: bool, fine: seq<bool>)
    ensures AllFrom([f] + fine, 0) <==> f && AllFrom(fine, 0)
  {
    var x := [f] + fine;
    assert forall k :: 0 <= k < |fine| ==> x[k + 1] == fine[k];
    if AllFrom(x, 0) {
      assert x[0];
    }
  }

  lemma FirstIsBad(f: bool, b: bool, fine: seq<bool>, bad: seq<bool>)
    requires |fine| == |bad| && FirstBad([f] + fine, [b] + bad, 0)
    ensures b || (f && FirstBad(fine, bad, 0))
  {
    var x, y := [f] + fine, [b] + bad;
    var k :| 0 <= k < |y| && y[k] && forall j :: 0 <= j < k ==> x[j];
    if k > 0 {
      assert x[0] && bad[k - 1];
      forall j | 0 <= j < k - 1
        ensures fine[j]
      {
        assert x[j + 1];
      }
    }
  }

  lemma BadIsFirst(f: bool, b: bool, fine: seq<bool>, bad: seq<bool>)
    requires |fine| == |bad| && (b || (f && FirstBad(fine, bad, 0)))
    ensures FirstBad([f] + fine, [b] + bad, 0)
  {
    var x, y := [f] + fine, [b] + bad;
    if b {
      assert y[0];
    } else {
      var k :| 0 <= k < |bad| && bad[k] && forall j :: 0 <= j < k ==> fine[j];
      assert y[k + 1];
      forall j | 0 <= j < k + 1
        ensures x[j]
      {
        assert j > 0 ==> fine[j - 1];
      }
    }
  }

  /** In a map the order in which the fields are written is that of their keys. */
  lemma InKeyOrder(s: Schema, order: seq<nat>, fine: seq<bool>, bad: seq<bool>)
    requires s.SMap? && KeysOk(s.keys) && Ordered(s.keys, order) && |order| == |s.keys| == |fine| == |bad|
    ensures AllFrom(At(fine, order), 0) <==> AllFrom(fine, 0)
    ensures FirstBad(At(fine, order), At(bad, order), 0) <==> BadByKey(s, fine, bad)
  {
    OrderedIsComplete(s.keys, order);
    forall k, j | 0 <= k < |order| && 0 <= j < |order|
      ensures j < k <==> WrittenBefore(s, order[j], order[k])
    {
      EarlierIsBefore(s, order, j, k);
    }
    hide WrittenBefore, Ordered, KeysOk;
    if AllFrom(At(fine, order), 0) {
      forall i: nat | i < |fine|
        ensures fine[i]
      {
        var k := PlaceOf(order, i);
        assert At(fine, order)[k];
      }
    }
    if FirstBad(At(fine, order), At(bad, order), 0) {
      BadIsFirstByKey(s, order, fine, bad);
    }
    if i :| 0 <= i < |bad| && bad[i] && forall j :: 0 <= j < |fine| && WrittenBefore(s, j, i) ==> fine[j] {
      var k := PlaceOf(order, i);
      assert At(bad, order)[k] && forall j :: 0 <= j < k ==> At(fine, order)[j] == fine[order[j]];
    }
  }

  lemma BadIsFirstByKey(s: Schema, order: seq<nat>, fine: seq<bool>, bad: seq<bool>)
    requires s.SMap? && |order| == |s.keys| == |fine| == |bad| && (forall i :: 0 <= i < |order| ==> order[i] < |fine|)
    requires forall x: nat :: x < |s.keys| ==> x in order
    requires forall k, j :: 0 <= k < |order| && 0 <= j < |order| ==> (j < k <==> WrittenBefore(s, order[j], order[k]))
    requires FirstBad(At(fine, order), At(bad, order), 0)
    ensures BadByKey(s, fine, bad)
  {
    hide WrittenBefore;
    var f, b := At(fine, order), At(bad, order);
    var k :| 0 <= k < |b| && b[k] && forall j :: 0 <= j < k ==> f[j];
    forall i: nat | i < |fine| && WrittenBefore(s, i, order[k])
      ensures fine[i]
    {
      var j := PlaceOf(order, i);
      assert f[j];
    }
  }

  lemma PlaceOf(order: seq<nat>, i: nat) returns (k: nat)
    requires i in order
    ensures k < |order| && order[k] == i
  {
    k :| 0 <= k < |order| && order[k] == i;
  }

  lemma EarlierIsBefore(s: Schema, order: seq<nat>, j: nat, k: nat)
    requires s.SMap? && KeysOk(s.keys) && Ordered(s.keys, order) && j < |order| && k < |order|
    ensures j < k <==> WrittenBefore(s, order[j], order[k])
  {
  }

  // ---- Unmarshal --------------------------------------------------------------------------------

  /** What Unmarshal says of an encoding with something behind it. */
  lemma {:induction false} TrailingIsRefused(v: Value, s: Schema, x: Bytes)
    requires SchemaOk(s) && Encodable(v, s, false) && Unambiguous(SPtr(s), false) && x != []
    ensures Unmarshal(Marshal(v, s).value + x, s) == Err(TrailingBytes)
  {
    hide Decode, Encode, HasType, RawsAreItems, Unambiguous, SchemaOk, Unmarshal;
    RefIsEncodable(v, s);
    DecodeInvertsEncode(Ref(v), SPtr(s), false, x);
    TrailingIsSeen(Marshal(v, s).value + x, s, v, x);
  }

  lemma {:induction false} TrailingIsSeen(d: Bytes, s: Schema, v: Value, x: Bytes)
    requires SchemaOk(s) && Decode(d, SPtr(s), false) == Ok(Parsed(Ref(v), x)) && x != []
    ensures Unmarshal(d, s) == Err(TrailingBytes)
  {
    hide Decode;
  }

  /** And of null, where the type is no Option. */
  lemma {:induction false} NullIsRefused(s: Schema, x: Bytes)
    requires SchemaOk(s)
    ensures !s.SOption? ==> Unmarshal([0xf6] + x, s) == Err(UnexpectedNull)
  {
    hide Encode, HasType, RawsAreItems, Unambiguous;
  }

  lemma {:induction false} RefIsEncodable(v: Value, s: Schema)
    requires SchemaOk(s) && Encodable(v, s, false)
    ensures SchemaOk(SPtr(s)) && Encodable(Ref(v), SPtr(s), false) && Encode(Ref(v), SPtr(s), false) == Encode(v, s, false)
  {
  }

  /** A struct whose header announces another number of fields. */
  lemma {:induction false} CountIsRefused(s: Schema, n: nat, optional: bool, x: Bytes)
    requires SchemaOk(s) && (s.SArray? || s.SMap?) && n <= MAX_INT && n != |s.fields|
    ensures Decode(Header(if s.SArray? then 4 else 5, n) + x, s, optional) == Err(UnexpectedItemCount)
  {
    hide Header, DecodeFields, DecodeEntries, ReadArgument;
    ReadArgumentBack(if s.SArray? then 4 else 5, n, x);
  }

  /** After any entries as they should be: a key that comes again, one that is out of order, and one that no field has. */
  lemma {:induction false} KeyIsRefused(values: seq<Value>, s: Schema, order: seq<nat>, key: int, rest: Bytes, optional: bool)
    requires s.SMap? && SchemaOk(s) && Unambiguous(s, false) && TypedAt(values, s, order) && RawsAt(values, order)
    requires Ordered(s.keys, order) && |order| < |s.fields| && EncodeEntries(values, s, order).Ok? && IsInt64(key)
    ensures var d := Header(5, |s.fields|) + (EncodeEntries(values, s, order).value + (EncodeInt(key) + rest));
            var last := LastKey(None, s.keys, order);
            && (last == Some(key) ==> Decode(d, s, optional) == Err(DuplicateMapKey))
            && (last.Some? && last != Some(key) && !ComesAfter(last.value, key) ==> Decode(d, s, optional) == Err(InvalidMapKeyOrder))
            && ((last.Some? ==> ComesAfter(last.value, key)) && key !in s.keys ==> Decode(d, s, optional) == Err(UnsupportedType))
  {
    hide Encode, MapKeyCmp, EncodeInt, ReadInt, Header, ReadArgument, EncodeEntries, PositionOf;
    var n := |s.fields| - |order|;
    var before, after := EncodeEntries(values, s, order).value, EncodeInt(key) + rest;
    ReadArgumentBack(5, |s.fields|, before + after);
    EntriesReadBack(values, s, order, None, Blank(|s.fields|), n, after);
    ReadIntInvertsEncodeInt(key, rest);
    if order != [] {
      MapKeyCmpIsRankOrder(s.keys[order[|order| - 1]], key);
    }
  }
}

/** Marshal and Unmarshal are exact inverses, for the schemas where that can be. */
module CborRoundTrip {
  import opened Base
  import opened CborHeader
  import opened CborScalar
  import opened CborSkip
  import opened CborFieldOrder
  import opened CborSchema
  import opened Utf8

  /** Every Raw inside holds one item. */
  ghost predicate RawsAreItems(v: Value)
    decreases v
  {
    match v
    case RawItem(b) => IsOneItem(b)
    case Some_(x) => RawsAreItems(x)
    case Ref(x) => RawsAreItems(x)
    case Struct(values) => forall i :: 0 <= i < |values| ==> RawsAreItems(values[i])
    case _ => true
  }

  /** v can be encoded, and each Raw in it is what a decoder could have put there. */
  ghost predicate Encodable(v: Value, s: Schema, optional: bool)
    requires SchemaOk(s)
  {
    HasType(v, s) && RawsAreItems(v) && Encode(v, s, optional).Ok?
  }

  /** Some value of the type encodes as null (see NullableExactly). */
  predicate Nullable(s: Schema, optional: bool) {
    match s
    case SBytes => optional
    case SRaw => true
    case SNull => true
    case SOption(_) => true
    case SPtr(e) => optional || Nullable(e, false)
    case _ => false
  }

  /** No two values share an encoding, and pointers are one deep: nothing nullable is inside an Option or behind a
      pointer, except an Option behind a pointer that cannot be nil. */
  predicate Unambiguous(s: Schema, optional: bool)
    decreases s
  {
    match s
    case SOption(e) => Unambiguous(e, false) && !Nullable(e, false)
    case SPtr(e) => Unambiguous(e, false) && !e.SPtr? && (if e.SOption? then !optional else !Nullable(e, false))
    case SArray(fields) => forall i :: 0 <= i < |fields| ==> Unambiguous(fields[i].schema, fields[i].optional)
    case SMap(_, fields) => forall i :: 0 <= i < |fields| ==> Unambiguous(fields[i].schema, fields[i].optional)
    case _ => true
  }

  /** Only a value of a nullable type is written as anything that starts like null, and only a Raw can be written as
      nothing. */
  lemma {:induction false} StartsWithNull(v: Value, s: Schema, optional: bool)
    requires SchemaOk(s) && HasType(v, s) && Encode(v, s, optional).Ok?
    ensures var b := Encode(v, s, optional).value;
            (PeekNull(b) ==> Nullable(s, optional)) && (RawsAreItems(v) ==> b != [])
    decreases s
  {
    match s
    case SRaw =>
      if RawsAreItems(v) {
        OneItemSkips(v.bytes, []);
      }
    case SOption(e) => if v.Some_? { StartsWithNull(v.value, e, false); }
    case SPtr(e) => if v.Ref? { StartsWithNull(v.value, e, false); }
    case SInt => HeaderNotEmpty(if v.n >= 0 then MAJOR_UINT else MAJOR_NINT, if v.n >= 0 then v.n else -1 - v.n);
    case _ =>
  }

  // ---- Decoding undoes encoding -----------------------------------------------------------------

  /** The decoder reads v back from its encoding, whatever follows. */
  ghost predicate ReadsBack(v: Value, s: Schema, optional: bool, rest: Bytes)
    requires SchemaOk(s) && Encodable(v, s, optional)
  {
    Decode(Encode(v, s, optional).value + rest, s, optional) == Ok(Parsed(v, rest))
  }

  predicate IsScalar(s: Schema) {
    !s.SOption? && !s.SPtr? && !s.SArray? && !s.SMap?
  }

  lemma {:induction false} ScalarReadsBack(v: Value, s: Schema, optional: bool, rest: Bytes)
    requires SchemaOk(s) && Encodable(v, s, optional) && IsScalar(s)
    ensures ReadsBack(v, s, optional, rest)
  {
    var b := Encode(v, s, optional).value;
    StartsWithNull(v, s, optional);
    assert (b + rest)[0] == b[0];
    match s
    case SBool => assert (b + rest)[1..] == rest;
    case SUint => ReadArgumentBack(MAJOR_UINT, v.n, rest);
    case SInt => ReadIntInvertsEncodeInt(v.n, rest);
    case SText => TextReadBack(v.bytes, rest);
    case SBytes =>
      if v.Blob? {
        BlobReadBack(v.bytes, rest);
      } else {
        assert (b + rest)[1..] == rest;
      }
    case SFixed(n) => BlobReadBack(v.bytes, rest);
    case SRaw =>
      OneItemSkips(v.bytes, rest);
      assert (b + rest)[..|b|] == b;
    case SUnit => ReadArgumentBack(MAJOR_ARRAY, 0, rest);
    case SNull => assert (b + rest)[1..] == rest;
  }

  lemma {:induction false} OptionReadsBack(v: Value, s: Schema, optional: bool, rest: Bytes)
    requires SchemaOk(s) && Encodable(v, s, optional) && s.SOption?
    requires v.Some_? ==> !Nullable(s.elem, false) && ReadsBack(v.value, s.elem, false, rest)
    ensures ReadsBack(v, s, optional, rest)
  {
    var b := Encode(v, s, optional).value;
    if v.Some_? {
      StartsWithNull(v.value, s.elem, false);
      assert (b + rest)[0] == b[0];
    } else {
      assert (b + rest)[1..] == rest;
    }
  }

  lemma {:induction false} PtrReadsBack(v: Value, s: Schema, optional: bool, rest: Bytes)
    requires SchemaOk(s) && Encodable(v, s, optional) && s.SPtr? && !s.elem.SPtr?
    requires if s.elem.SOption? then !optional else !Nullable(s.elem, false)
    requires v.Ref? ==> ReadsBack(v.value, s.elem, false, rest)
    ensures ReadsBack(v, s, optional, rest)
  {
    var b := Encode(v, s, optional).value;
    if v.Ref? {
      StartsWithNull(v.value, s.elem, false);
      assert (b + rest)[0] == b[0];
    } else {
      assert (b + rest)[1..] == rest;
    }
  }

  lemma {:induction false} ArrayReadsBack(v: Value, s: Schema, optional: bool, rest: Bytes)
    requires SchemaOk(s) && Encodable(v, s, optional) && s.SArray?
    requires DecodeFields(EncodeFields(v.values, s, 0).value + rest, s, 0) == Ok(Parsed(v.values, rest))
    ensures ReadsBack(v, s, optional, rest)
  {
    hide Header, DecodeFields, EncodeFields;
    var body := EncodeFields(v.values, s, 0).value;
    ConcatAssoc(Header(MAJOR_ARRAY, |s.fields|), body, rest);
    ReadArgumentBack(MAJOR_ARRAY, |s.fields|, body + rest);
  }

  lemma {:induction false} MapReadsBack(v: Value, s: Schema, optional: bool, rest: Bytes)
    requires SchemaOk(s) && Encodable(v, s, optional) && s.SMap?
    requires var body := EncodeEntries(v.values, s, SortedOrder(s.keys)).value;
             DecodeEntries(body + rest, s, |s.fields|, None, Blank(|s.fields|)) == Ok(Parsed(v.values, rest))
    ensures ReadsBack(v, s, optional, rest)
  {
    hide Header, DecodeEntries, EncodeEntries, SortedOrder, KeysOk;
    var body := EncodeEntries(v.values, s, SortedOrder(s.keys)).value;
    ConcatAssoc(Header(MAJOR_MAP, |s.fields|), body, rest);
    ReadArgumentBack(MAJOR_MAP, |s.fields|, body + rest);
  }

  /** Whatever is encoded is decoded to itself, and the decoder stops where the encoding ends. */
  lemma {:induction false} DecodeInvertsEncode(v: Value, s: Schema, optional: bool, rest: Bytes)
    requires SchemaOk(s) && Unambiguous(s, optional) && Encodable(v, s, optional)
    ensures ReadsBack(v, s, optional, rest)
    decreases s, 2, 0
  {
    hide ReadsBack;
    if s.SOption? {
      if v.Some_? {
        DecodeInvertsEncode(v.value, s.elem, false, rest);
      }
      OptionReadsBack(v, s, optional, rest);
    } else if s.SPtr? {
      if v.Ref? {
        DecodeInvertsEncode(v.value, s.elem, false, rest);
      }
      PtrReadsBack(v, s, optional, rest);
    } else if s.SArray? {
      FieldsReadBack(v.values, s, 0, rest);
      ArrayReadsBack(v, s, optional, rest);
    } else if s.SMap? {
      EntriesOfMapReadBack(v.values, s, rest);
      MapReadsBack(v, s, optional, rest);
    } else {
      ScalarReadsBack(v, s, optional, rest);
    }
  }

  lemma {:induction false} EntriesOfMapReadBack(values: seq<Value>, s: Schema, rest: Bytes)
    requires s.SMap? && SchemaOk(s) && Unambiguous(s, false) && Encodable(Struct(values), s, false)
    ensures var body := EncodeEntries(values, s, SortedOrder(s.keys)).value;
            DecodeEntries(body + rest, s, |s.fields|, None, Blank(|s.fields|)) == Ok(Parsed(values, rest))
    decreases s, 1, |s.fields| + 1
  {
    hide DecodeEntries, EncodeEntries, SortedOrder;
    SortedOrderIsOrdered(s.keys);
    AllEntriesReadBack(values, s, SortedOrder(s.keys), rest);
    AllFilled(values, s.keys, Blank(|s.fields|));
  }

  lemma {:induction false} FieldIsRead(s: Schema, i: nat, first: Bytes, x: Value, more: Bytes, values: seq<Value>, rest: Bytes)
    requires s.SArray? && SchemaOk(s) && i < |s.fields|
    requires Decode(first + more, s.fields[i].schema, s.fields[i].optional) == Ok(Parsed(x, more))
    requires DecodeFields(more, s, i + 1) == Ok(Parsed(values, rest))
    ensures DecodeFields(first + more, s, i) == Ok(Parsed([x] + values, rest))
  {
    hide Decode;
  }

  lemma {:induction false} FirstField(values: seq<Value>, s: Schema, i: nat, rest: Bytes)
    requires s.SArray? && SchemaOk(s) && TypedFrom(values, s, i) && i < |values| && EncodeFields(values, s, i).Ok?
    ensures EncodeFields(values, s, i).value + rest
         == Encode(values[i], s.fields[i].schema, s.fields[i].optional).value + (EncodeFields(values, s, i + 1).value + rest)
  {
    hide Encode;
    var f := s.fields[i];
    ConcatAssoc(Encode(values[i], f.schema, f.optional).value, EncodeFields(values, s, i + 1).value, rest);
  }

  lemma {:induction false} FieldsReadBack(values: seq<Value>, s: Schema, i: nat, rest: Bytes)
    requires s.SArray? && SchemaOk(s) && Unambiguous(s, false) && HasType(Struct(values), s) && RawsAreItems(Struct(values))
    requires i <= |values| && EncodeFields(values, s, i).Ok?
    ensures DecodeFields(EncodeFields(values, s, i).value + rest, s, i) == Ok(Parsed(values[i..], rest))
    decreases s, 1, |values| - i
  {
    hide Encode, Decode;
    if i < |values| {
      var f := s.fields[i];
      var more := EncodeFields(values, s, i + 1).value + rest;
      FirstField(values, s, i, rest);
      DecodeInvertsEncode(values[i], f.schema, f.optional, more);
      FieldsReadBack(values, s, i + 1, rest);
      hide EncodeFields, DecodeFields;
      FieldIsRead(s, i, Encode(values[i], f.schema, f.optional).value, values[i], more, values[i + 1..], rest);
      assert values[i..] == [values[i]] + values[i + 1..];
    } else {
      assert values[i..] == [] && [] + rest == rest;
    }
  }

  /** The fields set so far, and those at the positions that are still to come. */
  function Filled(cur: seq<Value>, values: seq<Value>, order: seq<nat>): (r: seq<Value>)
    requires |cur| == |values| && forall i :: 0 <= i < |order| ==> order[i] < |values|
    ensures |r| == |cur|
    decreases |order|
  {
    if order == [] then cur else Filled(cur[order[0] := values[order[0]]], values, order[1..])
  }

  lemma {:induction false} FilledAt(cur: seq<Value>, values: seq<Value>, order: seq<nat>, x: nat)
    requires |cur| == |values| && (forall i :: 0 <= i < |order| ==> order[i] < |values|) && x < |values|
    ensures Filled(cur, values, order)[x] == if x in order || cur[x] == values[x] then values[x] else cur[x]
    decreases |order|
  {
    if order != [] {
      assert order == [order[0]] + order[1..];
      FilledAt(cur[order[0] := values[order[0]]], values, order[1..], x);
    }
  }

  /** No field of a map struct is left out. */
  lemma {:induction false} AllFilled(values: seq<Value>, keys: seq<int>, cur: seq<Value>)
    requires KeysOk(keys) && |values| == |cur| == |keys|
    ensures Filled(cur, values, SortedOrder(keys)) == values
  {
    var order := SortedOrder(keys);
    SortedOrderIsOrdered(keys);
    OrderedIsComplete(keys, order);
    forall x: nat | x < |values|
      ensures Filled(cur, values, order)[x] == values[x]
    {
      FilledAt(cur, values, order, x);
    }
  }

  /** A key that comes after the one before it and belongs to a field is accepted. */
  lemma {:induction false} KeyAccepted(prev: Option<int>, keys: seq<int>, j: nat)
    requires KeysOk(keys) && j < |keys|
    requires prev.Some? ==> IsInt64(prev.value) && KeyRank(prev.value) < KeyRank(keys[j])
    ensures CheckKey(prev, keys[j], keys) == Ok(j)
  {
    hide MapKeyCmp;
    if prev.Some? {
      MapKeyCmpIsRankOrder(prev.value, keys[j]);
    }
    assert keys[j] in keys;
  }

  ghost predicate RawsAt(values: seq<Value>, order: seq<nat>) {
    forall i :: 0 <= i < |order| && order[i] < |values| ==> RawsAreItems(values[order[i]])
  }

  /** The first of these keys may follow the one before. */
  ghost predicate Starts(prev: Option<int>, keys: seq<int>, order: seq<nat>)
    requires KeysOk(keys) && Ordered(keys, order)
  {
    prev.Some? ==> IsInt64(prev.value) && (order != [] ==> KeyRank(prev.value) < KeyRank(keys[order[0]]))
  }

  lemma {:induction false} NothingLeftToRead(d: Bytes, s: Schema, prev: Option<int>, cur: seq<Value>)
    requires s.SMap? && SchemaOk(s) && |cur| == |s.fields| && (prev.Some? ==> IsInt64(prev.value))
    ensures DecodeEntries(d, s, 0, prev, cur) == Ok(Parsed(cur, d))
  {
  }

  /** One entry: its key is accepted and its value read. */
  lemma {:induction false} EntryIsRead(s: Schema, j: nat, prev: Option<int>, cur: seq<Value>, n: nat, first: Bytes, x: Value, more: Bytes)
    requires s.SMap? && SchemaOk(s) && j < |s.keys| && |cur| == |s.fields| && n > 0
    requires prev.Some? ==> IsInt64(prev.value) && KeyRank(prev.value) < KeyRank(s.keys[j])
    requires Decode(first + more, s.fields[j].schema, s.fields[j].optional) == Ok(Parsed(x, more))
    ensures DecodeEntries(EncodeInt(s.keys[j]) + (first + more), s, n, prev, cur)
         == DecodeEntries(more, s, n - 1, Some(s.keys[j]), cur[j := x])
  {
    KeyAccepted(prev, s.keys, j);
    ReadIntInvertsEncodeInt(s.keys[j], first + more);
    hide Decode, MapKeyCmp, CheckKey, EncodeInt, ReadInt;
  }

  /** Some entries as they should be, and the rest of a map behind them. */
  lemma {:induction false} EntriesReadBack(values: seq<Value>, s: Schema, order: seq<nat>, prev: Option<int>, cur: seq<Value>,
                                           n: nat, rest: Bytes)
    requires s.SMap? && SchemaOk(s) && Unambiguous(s, false) && TypedAt(values, s, order) && RawsAt(values, order)
    requires Ordered(s.keys, order) && Starts(prev, s.keys, order) && |cur| == |values|
    requires EncodeEntries(values, s, order).Ok?
    ensures var last := LastKey(prev, s.keys, order);
            && (last.Some? ==> IsInt64(last.value))
            && DecodeEntries(EncodeEntries(values, s, order).value + rest, s, |order| + n, prev, cur)
               == DecodeEntries(rest, s, n, last, Filled(cur, values, order))
    decreases s, 1, |order|, 1
  {
    hide Encode, Decode, EncodeInt, DecodeEntries, HasType, SchemaOk, Unambiguous, RawsAreItems;
    if order == [] {
      assert [] + rest == rest;
    } else {
      var j, tail := order[0], order[1..];
      OneEntryReadBack(values, s, order, prev, cur, n, rest);
      OthersStart(s, order);
      LastKeyOfTail(prev, s.keys, order);
      assert Filled(cur, values, order) == Filled(cur[j := values[j]], values, tail);
      hide Filled, LastKey, EncodeEntries;
      EntriesReadBack(values, s, tail, Some(s.keys[j]), cur[j := values[j]], n, rest);
    }
  }

  lemma {:induction false} OthersStart(s: Schema, order: seq<nat>)
    requires s.SMap? && SchemaOk(s) && Ordered(s.keys, order) && order != []
    ensures IsInt64(s.keys[order[0]]) && Ordered(s.keys, order[1..]) && Starts(Some(s.keys[order[0]]), s.keys, order[1..])
  {
    assert order == [order[0]] + order[1..];
    assert KeysOk(s.keys);
  }

  /** The first of the entries is read, and then the others from what is behind it. */
  lemma {:induction false} OneEntryReadBack(values: seq<Value>, s: Schema, order: seq<nat>, prev: Option<int>, cur: seq<Value>,
                                            n: nat, rest: Bytes)
    requires s.SMap? && SchemaOk(s) && Unambiguous(s, false) && TypedAt(values, s, order) && RawsAt(values, order)
    requires Ordered(s.keys, order) && Starts(prev, s.keys, order) && |cur| == |values|
    requires order != [] && EncodeEntries(values, s, order).Ok?
    ensures var j, tail := order[0], order[1..];
            && TypedAt(values, s, tail) && EncodeEntries(values, s, tail).Ok?
            && DecodeEntries(EncodeEntries(values, s, order).value + rest, s, |order| + n, prev, cur)
               == DecodeEntries(EncodeEntries(values, s, tail).value + rest, s, |tail| + n, Some(s.keys[j]), cur[j := values[j]])
    decreases s, 1, |order|, 0
  {
    hide Encode, Decode, EncodeInt, DecodeEntries;
    var j := order[0];
    var f, more := s.fields[j], EncodeEntries(values, s, order[1..]).value + rest;
    DecodeInvertsEncode(values[j], f.schema, f.optional, more);
    FirstEntry(values, s, order, rest);
    hide EncodeEntries;
    EntryIsRead(s, j, prev, cur, |order| + n, Encode(values[j], f.schema, f.optional).value, values[j], more);
  }

  lemma {:induction false} FirstEntry(values: seq<Value>, s: Schema, order: seq<nat>, rest: Bytes)
    requires s.SMap? && SchemaOk(s) && TypedAt(values, s, order) && order != [] && EncodeEntries(values, s, order).Ok?
    ensures var j, tail := order[0], order[1..];
            var first := Encode(values[j], s.fields[j].schema, s.fields[j].optional).value;
            EncodeEntries(values, s, order).value + rest
            == EncodeInt(s.keys[j]) + (first + (EncodeEntries(values, s, tail).value + rest))
  {
    hide Encode, EncodeInt;
    var j, tail := order[0], order[1..];
    var first := Encode(values[j], s.fields[j].schema, s.fields[j].optional).value;
    var others := EncodeEntries(values, s, tail).value;
    ConcatAssoc(EncodeInt(s.keys[j]), first + others, rest);
    ConcatAssoc(first, others, rest);
  }

  lemma {:induction false} AllEntriesReadBack(values: seq<Value>, s: Schema, order: seq<nat>, rest: Bytes)
    requires s.SMap? && SchemaOk(s) && Unambiguous(s, false) && TypedAt(values, s, order) && RawsAt(values, order)
    requires Ordered(s.keys, order) && EncodeEntries(values, s, order).Ok?
    ensures DecodeEntries(EncodeEntries(values, s, order).value + rest, s, |order|, None, Blank(|values|))
         == Ok(Parsed(Filled(Blank(|values|), values, order), rest))
    decreases s, 1, |order|, 2
  {
    hide DecodeEntries, EncodeEntries, Unambiguous, Ordered, RawsAt;
    StartsAnywhere(s.keys, order);
    EntriesReadBack(values, s, order, None, Blank(|values|), 0, rest);
    NothingLeftToRead(rest, s, LastKey(None, s.keys, order), Filled(Blank(|values|), values, order));
  }

  lemma StartsAnywhere(keys: seq<int>, order: seq<nat>)
    requires KeysOk(keys) && Ordered(keys, order)
    ensures Starts(None, keys, order)
  {
  }

  /** The last of these keys, or the one before them when there are none. */
  function LastKey(prev: Option<int>, keys: seq<int>, order: seq<nat>): Option<int>
    requires forall i :: 0 <= i < |order| ==> order[i] < |keys|
  {
    if order == [] then prev else Some(keys[order[|order| - 1]])
  }

  lemma LastKeyOfTail(prev: Option<int>, keys: seq<int>, order: seq<nat>)
    requires order != [] && forall i :: 0 <= i < |order| ==> order[i] < |keys|
    ensures LastKey(Some(keys[order[0]]), keys, order[1..]) == LastKey(prev, keys, order)
  {
  }

  // ---- Encoding undoes decoding -----------------------------------------------------------------

  /** v is what the bytes before rest say, and they are its one encoding. */
  ghost predicate Canonical(d: Bytes, s: Schema, optional: bool, v: Value, rest: Bytes)
    requires SchemaOk(s)
  {
    Encodable(v, s, optional) && d == Encode(v, s, optional).value + rest
  }

  lemma {:induction false} ScalarCanonical(d: Bytes, s: Schema, optional: bool)
    requires SchemaOk(s) && IsScalar(s) && Decode(d, s, optional).Ok?
    ensures var p := Decode(d, s, optional).value; Canonical(d, s, optional, p.value, p.rest)
  {
    hide Header, EncodeInt, ReadText, ReadBlob, ReadFixed, ReadInt, ReadArgument, ValidUtf8, IsOneItem;
    var p := Decode(d, s, optional).value;
    match s
    case SBool => assert d == [d[0]] + p.rest;
    case SUint => ReadArgumentOnly(d, MAJOR_UINT);
    case SInt => EncodeIntInvertsReadInt(d);
    case SText => StringsOnly(d);
    case SBytes =>
      StringsOnly(d);
      if PeekNull(d) {
        assert d == [d[0]] + p.rest;
      }
    case SFixed(n) => StringsOnly(d);
    case SRaw => SkippedIsOneItem(d);
    case SUnit => ReadArgumentOnly(d, MAJOR_ARRAY);
    case SNull => assert d == [d[0]] + p.rest;
  }

  /** Whatever is decoded, by any schema, was written in the one way the encoder writes it. */
  lemma {:induction false} EncodeInvertsDecode(d: Bytes, s: Schema, optional: bool)
    requires SchemaOk(s) && Decode(d, s, optional).Ok?
    ensures var p := Decode(d, s, optional).value; Canonical(d, s, optional, p.value, p.rest)
    decreases s, 2, 0
  {
    var p := Decode(d, s, optional).value;
    match s
    case SOption(e) =>
      if PeekNull(d) {
        assert d == [d[0]] + p.rest;
      } else {
        EncodeInvertsDecode(d, e, false);
      }
    case SPtr(e) =>
      if !e.SOption? && PeekNull(d) {
        assert d == [d[0]] + p.rest;
      } else {
        EncodeInvertsDecode(d, e, false);
      }
    case SArray(fields) => ArrayCanonical(d, s, optional);
    case SMap(keys, fields) => MapCanonical(d, s, optional);
    case _ => ScalarCanonical(d, s, optional);
  }

  /** Of an unambiguous type, the values read back are exactly those in which every Raw holds one item. */
  lemma {:induction false} ReadsBackExactly(v: Value, s: Schema, optional: bool, rest: Bytes)
    requires SchemaOk(s) && Unambiguous(s, optional) && HasType(v, s) && Encode(v, s, optional).Ok?
    ensures Decode(Encode(v, s, optional).value + rest, s, optional) == Ok(Parsed(v, rest)) <==> RawsAreItems(v)
    decreases s, 3
  {
    hide Decode, Encode, HasType, RawsAreItems, Unambiguous, SchemaOk;
    var d := Encode(v, s, optional).value + rest;
    if RawsAreItems(v) {
      DecodeInvertsEncode(v, s, optional, rest);
    }
    if Decode(d, s, optional) == Ok(Parsed(v, rest)) {
      EncodeInvertsDecode(d, s, optional);
    }
  }

  lemma {:induction false} ArrayCanonical(d: Bytes, s: Schema, optional: bool)
    requires SchemaOk(s) && s.SArray? && Decode(d, s, optional).Ok?
    ensures var p := Decode(d, s, optional).value; Canonical(d, s, optional, p.value, p.rest)
    decreases s, 1, |s.fields| + 1
  {
    hide Header, DecodeFields, EncodeFields, ReadArgument, Canonical;
    var p := Decode(d, s, optional).value;
    ReadArgumentOnly(d, MAJOR_ARRAY);
    var n := ReadArgument(d, MAJOR_ARRAY).value;
    FieldsCanonical(n.rest, s, 0, p.value.values);
    ArrayAssembles(d, s, optional, p.value.values, p.rest);
  }

  lemma {:induction false} ArrayAssembles(d: Bytes, s: Schema, optional: bool, values: seq<Value>, rest: Bytes)
    requires SchemaOk(s) && s.SArray?
    requires TypedFrom(values, s, 0) && (forall k :: 0 <= k < |values| ==> RawsAreItems(values[k])) && EncodeFields(values, s, 0).Ok?
    requires d == Header(MAJOR_ARRAY, |s.fields|) + (EncodeFields(values, s, 0).value + rest)
    ensures Canonical(d, s, optional, Struct(values), rest)
  {
    hide Header, EncodeFields;
    ConcatAssoc(Header(MAJOR_ARRAY, |s.fields|), EncodeFields(values, s, 0).value, rest);
  }

  lemma {:induction false} FieldsCanonical(d: Bytes, s: Schema, i: nat, values: seq<Value>)
    requires s.SArray? && SchemaOk(s) && |values| == |s.fields| && i <= |values|
    requires DecodeFields(d, s, i).Ok? && DecodeFields(d, s, i).value.value == values[i..]
    ensures TypedFrom(values, s, i) && (forall k :: i <= k < |values| ==> RawsAreItems(values[k]))
    ensures EncodeFields(values, s, i).Ok? && d == EncodeFields(values, s, i).value + DecodeFields(d, s, i).value.rest
    decreases s, 1, |values| - i
  {
    var rest := DecodeFields(d, s, i).value.rest;
    if i < |values| {
      var f := s.fields[i];
      EncodeInvertsDecode(d, f.schema, f.optional);
      var first := Decode(d, f.schema, f.optional).value;
      var others := DecodeFields(first.rest, s, i + 1).value.value;
      assert values[i] == ([first.value] + others)[0] && values[i + 1..] == ([first.value] + others)[1..];
      FieldsCanonical(first.rest, s, i + 1, values);
      ConcatAssoc(Encode(values[i], f.schema, f.optional).value, EncodeFields(values, s, i + 1).value, rest);
    } else {
      assert d == [] + d;
    }
  }

  lemma {:induction false} MapCanonical(d: Bytes, s: Schema, optional: bool)
    requires SchemaOk(s) && s.SMap? && Decode(d, s, optional).Ok?
    ensures var p := Decode(d, s, optional).value; Canonical(d, s, optional, p.value, p.rest)
    decreases s, 1, |s.fields| + 1
  {
    hide Header, SortedOrder, Ordered, EncodeEntries, DecodeEntries, ReadArgument, Canonical, Starts, TypedAt, RawsAt, Untouched;
    var p := Decode(d, s, optional).value;
    ReadArgumentOnly(d, MAJOR_MAP);
    var n := ReadArgument(d, MAJOR_MAP).value;
    var order := EntriesCanonical(n.rest, s, |s.fields|, None, Blank(|s.fields|));
    SortedOrderIsOrdered(s.keys);
    OrderedIsUnique(s.keys, order, SortedOrder(s.keys));
    MapAssembles(d, s, optional, p.value.values, p.rest);
  }

  lemma {:induction false} MapAssembles(d: Bytes, s: Schema, optional: bool, values: seq<Value>, rest: Bytes)
    requires SchemaOk(s) && s.SMap?
    requires var order := SortedOrder(s.keys);
             && TypedAt(values, s, order) && RawsAt(values, order) && EncodeEntries(values, s, order).Ok?
             && d == Header(MAJOR_MAP, |s.fields|) + (EncodeEntries(values, s, order).value + rest)
    ensures Canonical(d, s, optional, Struct(values), rest)
  {
    hide Header, SortedOrder, EncodeEntries, Ordered;
    var order := SortedOrder(s.keys);
    SortedOrderIsOrdered(s.keys);
    OrderedIsComplete(s.keys, order);
    forall x: nat | x < |values|
      ensures HasType(values[x], s.fields[x].schema) && RawsAreItems(values[x])
    {
      assert x in order;
    }
    ConcatAssoc(Header(MAJOR_MAP, |s.fields|), EncodeEntries(values, s, order).value, rest);
  }

  ghost predicate Untouched(values: seq<Value>, cur: seq<Value>, order: seq<nat>) {
    |values| == |cur| && forall x :: 0 <= x < |cur| && x !in order ==> values[x] == cur[x]
  }

  /** The fields at the positions in order were read from d, in that order; values has them and cur's other fields. */
  ghost predicate EntriesRight(d: Bytes, s: Schema, prev: Option<int>, cur: seq<Value>, p: Parsed<seq<Value>>, order: seq<nat>)
    requires s.SMap? && SchemaOk(s)
  {
    && Ordered(s.keys, order) && Starts(prev, s.keys, order)
    && TypedAt(p.value, s, order) && RawsAt(p.value, order) && Untouched(p.value, cur, order)
    && EncodeEntries(p.value, s, order).Ok? && d == EncodeEntries(p.value, s, order).value + p.rest
  }

  /** The positions that a run of the loop over a map's entries sets, in the order it sets them. */
  lemma {:induction false} EntriesCanonical(d: Bytes, s: Schema, n: nat, prev: Option<int>, cur: seq<Value>)
    returns (order: seq<nat>)
    requires s.SMap? && SchemaOk(s) && |cur| == |s.fields| && (prev.Some? ==> IsInt64(prev.value))
    requires DecodeEntries(d, s, n, prev, cur).Ok?
    ensures |order| == n && EntriesRight(d, s, prev, cur, DecodeEntries(d, s, n, prev, cur).value, order)
    decreases s, 1, n
  {
    hide Decode, Canonical, EntriesRight, CheckKey, KeyRank;
    if n == 0 {
      order := [];
      NoEntries(d, s, prev, cur);
    } else {
      var j := NextKey(d, prev, s.keys);
      var key := ReadInt(d).value;
      var f := s.fields[j];
      hide EncodeInt, ReadInt;
      EncodeInvertsDecode(key.rest, f.schema, f.optional);
      var x := Decode(key.rest, f.schema, f.optional).value;
      var tail := EntriesCanonical(x.rest, s, n - 1, Some(key.value), cur[j := x.value]);
      order := [j] + tail;
      EntryJoins(d, key.rest, s, prev, cur, x, j, DecodeEntries(d, s, n, prev, cur).value, tail);
    }
  }

  lemma {:induction false} NoEntries(d: Bytes, s: Schema, prev: Option<int>, cur: seq<Value>)
    requires s.SMap? && SchemaOk(s) && |cur| == |s.fields| && (prev.Some? ==> IsInt64(prev.value))
    ensures EntriesRight(d, s, prev, cur, Parsed(cur, d), [])
  {
    assert d == [] + d;
  }

  /** An entry was read from d, which leaves d', and its value from d', which leaves what the other entries were read from. */
  lemma {:induction false} EntryJoins(d: Bytes, d': Bytes, s: Schema, prev: Option<int>, cur: seq<Value>, x: Parsed<Value>,
                                      j: nat, p: Parsed<seq<Value>>, tail: seq<nat>)
    requires s.SMap? && SchemaOk(s) && j < |s.fields| == |cur|
    requires (prev.Some? ==> IsInt64(prev.value) && KeyRank(prev.value) < KeyRank(s.keys[j])) && d == EncodeInt(s.keys[j]) + d'
    requires Canonical(d', s.fields[j].schema, s.fields[j].optional, x.value, x.rest)
    requires EntriesRight(x.rest, s, Some(s.keys[j]), cur[j := x.value], p, tail)
    ensures EntriesRight(d, s, prev, cur, p, [j] + tail)
  {
    hide Canonical, Ordered, Starts, TypedAt, RawsAt, Untouched, EncodeEntries, KeyRank, EncodeInt;
    OrderJoins(prev, s.keys, j, tail);
    ValuesJoin(p.value, cur, d', x, s, j, tail);
    BytesJoin(p.value, d, d', x, s, j, tail, p.rest);
  }

  /** The next key of a map, which belongs to the field at position j. */
  lemma {:induction false} NextKey(d: Bytes, prev: Option<int>, keys: seq<int>) returns (j: nat)
    requires ReadInt(d).Ok? && (prev.Some? ==> IsInt64(prev.value))
    requires IsInt64(ReadInt(d).value.value) ==> CheckKey(prev, ReadInt(d).value.value, keys).Ok?
    ensures var key := ReadInt(d).value;
            && IsInt64(key.value) && d == EncodeInt(key.value) + key.rest && j < |keys| && keys[j] == key.value
            && CheckKey(prev, key.value, keys) == Ok(j)
            && (prev.Some? ==> KeyRank(prev.value) < KeyRank(keys[j]))
  {
    EncodeIntInvertsReadInt(d);
    var key := ReadInt(d).value;
    j := CheckKey(prev, key.value, keys).value;
    if prev.Some? {
      MapKeyCmpIsRankOrder(prev.value, key.value);
    }
  }

  /** The bytes of an entry and of those after it. */
  lemma {:induction false} BytesJoin(values: seq<Value>, d: Bytes, d': Bytes, x: Parsed<Value>, s: Schema, j: nat, tail: seq<nat>, rest: Bytes)
    requires s.SMap? && SchemaOk(s) && j < |s.fields| == |values| && values[j] == x.value
    requires TypedAt(values, s, [j] + tail) && TypedAt(values, s, tail)
    requires Canonical(d', s.fields[j].schema, s.fields[j].optional, x.value, x.rest)
    requires EncodeEntries(values, s, tail).Ok? && x.rest == EncodeEntries(values, s, tail).value + rest
    requires d == EncodeInt(s.keys[j]) + d'
    ensures var order := [j] + tail;
            EncodeEntries(values, s, order).Ok? && d == EncodeEntries(values, s, order).value + rest
  {
    hide EncodeInt, TypedAt, HasType, RawsAreItems;
    var f := s.fields[j];
    assert ([j] + tail)[1..] == tail;
    var first, others := Encode(x.value, f.schema, f.optional).value, EncodeEntries(values, s, tail).value;
    ConcatAssoc(first, others, rest);
    ConcatAssoc(EncodeInt(s.keys[j]), first + others, rest);
  }

  lemma {:induction false} OrderJoins(prev: Option<int>, keys: seq<int>, j: nat, tail: seq<nat>)
    requires KeysOk(keys) && j < |keys| && Ordered(keys, tail) && Starts(Some(keys[j]), keys, tail)
    requires prev.Some? ==> IsInt64(prev.value) && KeyRank(prev.value) < KeyRank(keys[j])
    ensures j !in tail && Ordered(keys, [j] + tail) && Starts(prev, keys, [j] + tail)
  {
    forall x | x in tail
      ensures x < |keys| && KeyRank(keys[j]) < KeyRank(keys[x])
    {
      var i :| 0 <= i < |tail| && tail[i] == x;
      assert i > 0 ==> KeyRank(keys[tail[0]]) < KeyRank(keys[tail[i]]);
    }
    hide KeyRank;
    OrderedCons(keys, j, tail);
  }

  lemma {:induction false} ValuesJoin(values: seq<Value>, cur: seq<Value>, d: Bytes, x: Parsed<Value>, s: Schema, j: nat, tail: seq<nat>)
    requires s.SMap? && SchemaOk(s) && j < |s.fields| == |cur| && j !in tail
    requires TypedAt(values, s, tail) && RawsAt(values, tail) && Untouched(values, cur[j := x.value], tail)
    requires Canonical(d, s.fields[j].schema, s.fields[j].optional, x.value, x.rest)
    ensures |values| == |s.fields| && values[j] == x.value
    ensures var order := [j] + tail; TypedAt(values, s, order) && RawsAt(values, order) && Untouched(values, cur, order)
  {
    hide HasType, RawsAreItems;
  }
}

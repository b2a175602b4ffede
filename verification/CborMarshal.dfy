/** What Unmarshal accepts, and exactly which types survive the round trip through Marshal. */
module CborMarshal {
  import opened Base
  import opened CborHeader
  import opened CborScalar
  import opened CborSkip
  import opened CborFieldOrder
  import opened CborSchema
  import opened CborRoundTrip

  /** Unmarshal reads one value, to the end; the pointer to it that Unmarshal is given stops null from being read. */
  lemma {:induction false} UnmarshalReadsOne(data: Bytes, s: Schema, v: Value)
    requires SchemaOk(s) && !s.SPtr?
    ensures Unmarshal(data, s) == Ok(v)
       <==> (s.SOption? || !PeekNull(data)) && Decode(data, s, false) == Ok(Parsed(v, []))
  {
    hide HasType;
  }

  /** Unmarshal yields v from data just when data is what Marshal makes of v. The one exception is the null check on
      the pointer that Unmarshal is given: unless the target is an Option, data must not be null. */
  lemma {:induction false} UnmarshalAcceptsExactlyMarshal(data: Bytes, s: Schema, v: Value)
    requires SchemaOk(s) && Unambiguous(s, false) && !s.SPtr?
    ensures Unmarshal(data, s) == Ok(v)
       <==> HasType(v, s) && RawsAreItems(v) && Marshal(v, s) == Ok(data) && (s.SOption? || !PeekNull(data))
  {
    hide ReadsBack, Canonical, Decode, Encode, Unmarshal;
    UnmarshalReadsOne(data, s, v);
    assert data + [] == data;
    if Decode(data, s, false) == Ok(Parsed(v, [])) {
      EncodeInvertsDecode(data, s, false);
      CanonicalParts(data, s, false, v, []);
      var b := Encode(v, s, false).value;
      assert b + [] == b;
    }
    if HasType(v, s) && RawsAreItems(v) && Marshal(v, s) == Ok(data) {
      DecodeInvertsEncode(v, s, false, []);
      ReadBack(v, s, false, []);
    }
  }

  /** Nothing but the canonical encoding of its result is ever accepted, whatever the type. */
  lemma {:induction false} UnmarshalAcceptsOnlyMarshal(data: Bytes, s: Schema)
    requires SchemaOk(s) && Unmarshal(data, s).Ok?
    ensures var v := Unmarshal(data, s).value; HasType(v, s) && RawsAreItems(v) && Marshal(v, s) == Ok(data)
  {
    EncodeInvertsDecode(data, SPtr(s), false);
    var v := Unmarshal(data, s).value;
    assert Encode(Ref(v), SPtr(s), false) == Encode(v, s, false);
    var b := Encode(v, s, false).value;
    assert b + [] == b;
  }

  /** b is the encoding of v. */
  ghost predicate EncodesTo(v: Value, s: Schema, b: Bytes) {
    SchemaOk(s) && Encodable(v, s, false) && Encode(v, s, false) == Ok(b)
  }

  /** Two values of an unambiguous type never share an encoding. */
  lemma {:induction false} MarshalIsInjective(v: Value, w: Value, s: Schema, b: Bytes)
    requires Unambiguous(s, false) && EncodesTo(v, s, b) && EncodesTo(w, s, b)
    ensures v == w
  {
    hide Encode, Decode, HasType, RawsAreItems, SchemaOk, Unambiguous;
    DecodeInvertsEncode(v, s, false, []);
    DecodeInvertsEncode(w, s, false, []);
  }

  /** That each Raw holds one item is needed: where one Raw ends and the next begins does not show. */
  lemma {:induction false} RawsCanCollide(x: Bytes, y: Bytes, z: Bytes, s: Schema)
    requires s == SArray([Field(SRaw, false), Field(SRaw, false)])
    ensures var v, w := Struct([RawItem(x + y), RawItem(z)]), Struct([RawItem(x), RawItem(y + z)]);
            && SchemaOk(s) && Unambiguous(s, false) && HasType(v, s) && HasType(w, s)
            && Marshal(v, s).Ok? && Marshal(v, s) == Marshal(w, s) && (y != [] ==> v != w)
  {
    TwoRaws(x + y, z, s);
    TwoRaws(x, y + z, s);
    hide Encode, HasType;
    ConcatAssoc(x, y, z);
    var v, w := Struct([RawItem(x + y), RawItem(z)]), Struct([RawItem(x), RawItem(y + z)]);
    assert v.values[0] == w.values[0] ==> |x + y| == |x|;
  }

  lemma {:induction false} TwoRaws(x: Bytes, y: Bytes, s: Schema)
    requires s == SArray([Field(SRaw, false), Field(SRaw, false)])
    ensures var v := Struct([RawItem(x), RawItem(y)]);
            SchemaOk(s) && HasType(v, s) && Marshal(v, s) == Ok(Header(MAJOR_ARRAY, 2) + (x + y))
  {
    hide Header;
    var values := [RawItem(x), RawItem(y)];
    assert EncodeFields(values, s, 2) == Ok([]) && y + [] == y;
    assert EncodeFields(values, s, 1) == Ok(y);
    assert EncodeFields(values, s, 0) == Ok(x + y);
  }

  lemma {:induction false} CanonicalParts(d: Bytes, s: Schema, optional: bool, v: Value, rest: Bytes)
    requires SchemaOk(s) && Canonical(d, s, optional, v, rest)
    ensures Encodable(v, s, optional) && d == Encode(v, s, optional).value + rest
  {
  }

  lemma {:induction false} ReadBack(v: Value, s: Schema, optional: bool, rest: Bytes)
    requires SchemaOk(s) && Encodable(v, s, optional)
    ensures ReadsBack(v, s, optional, rest)
       <==> Decode(Encode(v, s, optional).value + rest, s, optional) == Ok(Parsed(v, rest))
  {
  }

  // ---- Every type has values, and every nullable one has a null ---------------------------------

  function Default(s: Schema): Value
    requires SchemaOk(s)
    decreases s
  {
    match s
    case SBool => Bool(false)
    case SUint => Uint(0)
    case SInt => Int(0)
    case SText => Text([])
    case SBytes => Blob([])
    case SFixed(n) => Blob(seq(n, _ => 0))
    case SRaw => RawItem([0])
    case SUnit => Unit
    case SNull => Null
    case SOption(_) => None_
    case SPtr(e) => Ref(Default(e))
    case SArray(fields) => Struct(seq(|fields|, i requires 0 <= i < |fields| => Default(fields[i].schema)))
    case SMap(_, fields) => Struct(seq(|fields|, i requires 0 <= i < |fields| => Default(fields[i].schema)))
  }

  lemma {:induction false} DefaultIsEncodable(s: Schema, optional: bool)
    requires SchemaOk(s)
    ensures Encodable(Default(s), s, optional)
    decreases s
  {
    match s
    case SRaw => ByteIsItem(0);
    case SPtr(e) => DefaultIsEncodable(e, false);
    case SArray(fields) =>
      forall i | 0 <= i < |fields|
        ensures Encodable(Default(s).values[i], fields[i].schema, fields[i].optional)
      {
        DefaultIsEncodable(fields[i].schema, fields[i].optional);
      }
      StructIsEncodable(Default(s).values, s, optional);
    case SMap(_, fields) =>
      forall i | 0 <= i < |fields|
        ensures Encodable(Default(s).values[i], fields[i].schema, fields[i].optional)
      {
        DefaultIsEncodable(fields[i].schema, fields[i].optional);
      }
      StructIsEncodable(Default(s).values, s, optional);
    case _ =>
  }

  lemma {:induction false} ByteIsItem(b: byte)
    requires b == 0 || b == NULL_BYTE
    ensures IsOneItem([b])
  {
    assert [b][1..] == [];
    var h := ReadHead([b]).value;
    assert h.rest == [];
  }

  ghost predicate FieldsEncodable(values: seq<Value>, s: Schema)
    requires SchemaOk(s) && (s.SArray? || s.SMap?)
  {
    |values| == |s.fields|
    && forall i :: 0 <= i < |values| ==> Encodable(values[i], s.fields[i].schema, s.fields[i].optional)
  }

  /** v can be written, whatever its Raws hold. */
  ghost predicate Writable(v: Value, s: Schema, optional: bool)
    requires SchemaOk(s)
  {
    HasType(v, s) && Encode(v, s, optional).Ok?
  }

  ghost predicate FieldsWritable(values: seq<Value>, s: Schema)
    requires SchemaOk(s) && (s.SArray? || s.SMap?)
  {
    |values| == |s.fields|
    && forall i :: 0 <= i < |values| ==> Writable(values[i], s.fields[i].schema, s.fields[i].optional)
  }

  lemma {:induction false} StructIsEncodable(values: seq<Value>, s: Schema, optional: bool)
    requires SchemaOk(s) && (s.SArray? || s.SMap?) && FieldsEncodable(values, s)
    ensures Encodable(Struct(values), s, optional)
  {
    StructIsWritable(values, s, optional);
  }

  lemma {:induction false} StructIsWritable(values: seq<Value>, s: Schema, optional: bool)
    requires SchemaOk(s) && (s.SArray? || s.SMap?) && FieldsWritable(values, s)
    ensures Writable(Struct(values), s, optional)
  {
    if s.SArray? {
      FieldsEncode(values, s, 0);
    } else {
      EntriesEncode(values, s, SortedOrder(s.keys));
    }
  }

  lemma {:induction false} FieldsEncode(values: seq<Value>, s: Schema, i: nat)
    requires SchemaOk(s) && s.SArray? && FieldsWritable(values, s) && i <= |values|
    ensures EncodeFields(values, s, i).Ok?
    decreases |values| - i
  {
    if i < |values| {
      FieldsEncode(values, s, i + 1);
    }
  }

  lemma {:induction false} EntriesEncode(values: seq<Value>, s: Schema, order: seq<nat>)
    requires SchemaOk(s) && s.SMap? && FieldsWritable(values, s)
    requires forall i :: 0 <= i < |order| ==> order[i] < |values|
    ensures EncodeEntries(values, s, order).Ok?
    decreases |order|
  {
    if order != [] {
      EntriesEncode(values, s, order[1..]);
    }
  }

  function NullValue(s: Schema, optional: bool): Value
    requires Nullable(s, optional)
    decreases s
  {
    match s
    case SBytes => Nil
    case SRaw => RawItem([NULL_BYTE])
    case SNull => Null
    case SOption(_) => None_
    case SPtr(e) => if optional then Nil else Ref(NullValue(e, false))
  }

  lemma {:induction false} NullValueEncodesAsNull(s: Schema, optional: bool)
    requires SchemaOk(s) && Nullable(s, optional)
    ensures var v := NullValue(s, optional); Encodable(v, s, optional) && Encode(v, s, optional) == Ok([NULL_BYTE])
    decreases s
  {
    match s
    case SRaw => ByteIsItem(NULL_BYTE);
    case SPtr(e) => if !optional { NullValueEncodesAsNull(e, false); }
    case _ =>
  }

  /** Nullable is exactly what it says. */
  lemma {:induction false} NullableExactly(s: Schema, optional: bool)
    requires SchemaOk(s)
    ensures Nullable(s, optional)
       <==> exists v :: Encodable(v, s, optional) && PeekNull(Encode(v, s, optional).value)
  {
    if Nullable(s, optional) {
      NullValueEncodesAsNull(s, optional);
    }
    forall v | Encodable(v, s, optional)
      ensures PeekNull(Encode(v, s, optional).value) ==> Nullable(s, optional)
    {
      StartsWithNull(v, s, optional);
    }
  }

  // ---- An ambiguous type has a value that is not read back --------------------------------------

  /** v can be encoded, but is not what the decoder makes of it. */
  ghost predicate Misread(v: Value, s: Schema, optional: bool)
    requires SchemaOk(s)
  {
    Encodable(v, s, optional) && forall rest :: !ReadsBack(v, s, optional, rest)
  }

  lemma {:induction false} MisreadInside(v: Value, s: Schema, optional: bool)
    requires SchemaOk(s) && (s.SOption? || s.SPtr?) && Misread(v, s.elem, false)
    ensures Misread(if s.SOption? then Some_(v) else Ref(v), s, optional)
  {
    var w := if s.SOption? then Some_(v) else Ref(v);
    forall rest
      ensures !ReadsBack(w, s, optional, rest)
    {
      assert !ReadsBack(v, s.elem, false, rest);
    }
  }

  lemma {:induction false} NullIsMisread(s: Schema, optional: bool)
    requires SchemaOk(s) && (s.SOption? || (s.SPtr? && !s.elem.SOption?)) && Nullable(s.elem, false)
    ensures var v := NullValue(s.elem, false); Misread(if s.SOption? then Some_(v) else Ref(v), s, optional)
  {
    NullValueEncodesAsNull(s.elem, false);
    assert forall rest: Bytes :: PeekNull([NULL_BYTE] + rest);
  }

  /** If a struct is read back then so is each of its fields. */
  lemma {:induction false} FieldReadBack(values: seq<Value>, s: Schema, i: nat, k: nat, rest: Bytes) returns (after: Bytes)
    requires SchemaOk(s) && s.SArray? && FieldsEncodable(values, s) && i <= k < |values| && EncodeFields(values, s, i).Ok?
    requires DecodeFields(EncodeFields(values, s, i).value + rest, s, i) == Ok(Parsed(values[i..], rest))
    ensures ReadsBack(values[k], s.fields[k].schema, s.fields[k].optional, after)
    decreases k - i
  {
    var f := s.fields[i];
    var d := EncodeFields(values, s, i).value + rest;
    var first := Decode(d, f.schema, f.optional).value;
    var b, others := Encode(values[i], f.schema, f.optional).value, EncodeFields(values, s, i + 1).value;
    var tail := DecodeFields(first.rest, s, i + 1).value;
    assert values[i..][0] == ([first.value] + tail.value)[0];
    assert values[i + 1..] == values[i..][1..] == ([first.value] + tail.value)[1..] == tail.value;
    EncodeInvertsDecode(d, f.schema, f.optional);
    ConcatAssoc(b, others, rest);
    Cancel(b, first.rest, others + rest);
    if k == i {
      after := others + rest;
    } else {
      after := FieldReadBack(values, s, i + 1, k, rest);
    }
  }

  lemma {:induction false} Cancel(a: Bytes, x: Bytes, y: Bytes)
    requires a + x == a + y
    ensures x == y
  {
    assert (a + x)[|a|..] == x && (a + y)[|a|..] == y;
  }

  /** The key of the first entry is read back, and leaves the rest. */
  lemma {:induction false} EntryKey(key: int, b: Bytes, others: Bytes, rest: Bytes)
    requires IsInt64(key)
    ensures ReadInt(EncodeInt(key) + (b + others) + rest) == Ok(Parsed(key, b + (others + rest)))
  {
    hide EncodeInt, ReadInt;
    ConcatAssoc(EncodeInt(key), b + others, rest);
    ConcatAssoc(b, others, rest);
    ReadIntInvertsEncodeInt(key, b + (others + rest));
  }

  /** A field once set is not set again by the entries after it. */
  lemma {:induction false} FieldKept(d: Bytes, s: Schema, cur: seq<Value>, x: Value, j: nat, p: Parsed<seq<Value>>, later: seq<nat>)
    requires s.SMap? && SchemaOk(s) && j < |s.fields| == |cur|
    requires EntriesRight(d, s, Some(s.keys[j]), cur[j := x], p, later)
    ensures |p.value| == |cur| && p.value[j] == x
  {
    hide Ordered, Starts, TypedAt, RawsAt, EncodeEntries, KeyRank;
    OrderJoins(None, s.keys, j, later);
  }

  lemma {:induction false} EntryReadBack(values: seq<Value>, s: Schema, order: seq<nat>, prev: Option<int>, cur: seq<Value>,
                                         k: nat, rest: Bytes)
    returns (after: Bytes)
    requires SchemaOk(s) && s.SMap? && FieldsEncodable(values, s) && TypedAt(values, s, order) && k in order && |cur| == |values|
    requires (prev.Some? ==> IsInt64(prev.value)) && EncodeEntries(values, s, order).Ok?
    requires DecodeEntries(EncodeEntries(values, s, order).value + rest, s, |order|, prev, cur) == Ok(Parsed(values, rest))
    ensures k < |values| && ReadsBack(values[k], s.fields[k].schema, s.fields[k].optional, after)
    decreases |order|
  {
    hide Decode, Encode, CheckKey, HasType, RawsAreItems, EntriesRight, EncodeInt, ReadInt;
    var j, tail := order[0], order[1..];
    assert order == [j] + tail;
    var f, key := s.fields[j], s.keys[j];
    var d := EncodeEntries(values, s, order).value + rest;
    var b, others := Encode(values[j], f.schema, f.optional).value, EncodeEntries(values, s, tail).value;
    EntryKey(key, b, others, rest);
    assert CheckKey(prev, key, s.keys) == Ok(j);
    var d' := b + (others + rest);
    var x := Decode(d', f.schema, f.optional).value;
    var later := EntriesCanonical(x.rest, s, |tail|, Some(key), cur[j := x.value]);
    FieldKept(x.rest, s, cur, x.value, j, Parsed(values, rest), later);
    EncodeInvertsDecode(d', f.schema, f.optional);
    Cancel(b, x.rest, others + rest);
    if k == j {
      after := others + rest;
    } else {
      after := EntryReadBack(values, s, tail, Some(key), cur[j := x.value], k, rest);
    }
  }

  /** A struct with a field that is misread is misread. */
  lemma {:induction false} FieldIsMisread(values: seq<Value>, s: Schema, optional: bool, k: nat)
    requires SchemaOk(s) && (s.SArray? || s.SMap?) && FieldsEncodable(values, s) && k < |values|
    requires Misread(values[k], s.fields[k].schema, s.fields[k].optional)
    ensures Misread(Struct(values), s, optional)
  {
    StructIsEncodable(values, s, optional);
    forall rest
      ensures !ReadsBack(Struct(values), s, optional, rest)
    {
      if ReadsBack(Struct(values), s, optional, rest) {
        if s.SArray? {
          ArrayContents(values, s, optional, rest);
          var after := FieldReadBack(values, s, 0, k, rest);
        } else {
          MapContents(values, s, optional, rest);
          SortedOrderIsOrdered(s.keys);
          OrderedIsComplete(s.keys, SortedOrder(s.keys));
          var after := EntryReadBack(values, s, SortedOrder(s.keys), None, Blank(|s.fields|), k, rest);
        }
      }
    }
  }

  lemma {:induction false} ArrayContents(values: seq<Value>, s: Schema, optional: bool, rest: Bytes)
    requires SchemaOk(s) && s.SArray? && Encodable(Struct(values), s, optional) && ReadsBack(Struct(values), s, optional, rest)
    ensures DecodeFields(EncodeFields(values, s, 0).value + rest, s, 0) == Ok(Parsed(values, rest)) && values[0..] == values
  {
    hide Header, DecodeFields, EncodeFields;
    var body := EncodeFields(values, s, 0).value;
    ConcatAssoc(Header(MAJOR_ARRAY, |s.fields|), body, rest);
    ReadArgumentBack(MAJOR_ARRAY, |s.fields|, body + rest);
  }

  lemma {:induction false} MapContents(values: seq<Value>, s: Schema, optional: bool, rest: Bytes)
    requires SchemaOk(s) && s.SMap? && Encodable(Struct(values), s, optional) && ReadsBack(Struct(values), s, optional, rest)
    ensures TypedAt(values, s, SortedOrder(s.keys)) && EncodeEntries(values, s, SortedOrder(s.keys)).Ok?
    ensures var body := EncodeEntries(values, s, SortedOrder(s.keys)).value;
            DecodeEntries(body + rest, s, |s.fields|, None, Blank(|s.fields|)) == Ok(Parsed(values, rest))
  {
    hide Header, DecodeEntries, EncodeEntries, SortedOrder;
    var body := EncodeEntries(values, s, SortedOrder(s.keys)).value;
    ConcatAssoc(Header(MAJOR_MAP, |s.fields|), body, rest);
    ReadArgumentBack(MAJOR_MAP, |s.fields|, body + rest);
  }

  lemma {:induction false} MisreadValue(s: Schema, optional: bool) returns (v: Value)
    requires SchemaOk(s) && !Unambiguous(s, optional)
    ensures Misread(v, s, optional)
    decreases s
  {
    match s
    case SOption(e) =>
      if Nullable(e, false) {
        NullIsMisread(s, optional);
        v := Some_(NullValue(e, false));
      } else {
        var x := MisreadValue(e, false);
        MisreadInside(x, s, optional);
        v := Some_(x);
      }
    case SPtr(e) =>
      if e.SPtr? {
        DefaultIsEncodable(s, optional);
        v := Default(s);
      } else if e.SOption? && optional {
        v := Nil;
        assert forall rest: Bytes :: PeekNull([NULL_BYTE] + rest);
      } else if !e.SOption? && Nullable(e, false) {
        NullIsMisread(s, optional);
        v := Ref(NullValue(e, false));
      } else {
        var x := MisreadValue(e, false);
        MisreadInside(x, s, optional);
        v := Ref(x);
      }
    case SArray(fields) =>
      v := MisreadStruct(s, optional);
    case SMap(_, fields) =>
      v := MisreadStruct(s, optional);
  }

  lemma {:induction false} MisreadStruct(s: Schema, optional: bool) returns (v: Value)
    requires SchemaOk(s) && (s.SArray? || s.SMap?) && !Unambiguous(s, optional)
    ensures Misread(v, s, optional)
    decreases s, 0
  {
    var k :| 0 <= k < |s.fields| && !Unambiguous(s.fields[k].schema, s.fields[k].optional);
    var x := MisreadValue(s.fields[k].schema, s.fields[k].optional);
    var values := Default(s).values[k := x];
    forall i | 0 <= i < |s.fields|
      ensures Encodable(values[i], s.fields[i].schema, s.fields[i].optional)
    {
      DefaultIsEncodable(s.fields[i].schema, s.fields[i].optional);
    }
    FieldIsMisread(values, s, optional, k);
    v := Struct(values);
  }

  /** Marshal followed by Unmarshal gives back every value of a type just when the type, behind the pointer that
      Unmarshal takes, is unambiguous. */
  lemma {:induction false} RoundTripsExactly(s: Schema)
    requires SchemaOk(s)
    ensures (forall v :: Encodable(v, s, false) ==> Unmarshal(Marshal(v, s).value, s) == Ok(v))
       <==> Unambiguous(SPtr(s), false)
  {
    if Unambiguous(SPtr(s), false) {
      forall v | Encodable(v, s, false)
        ensures Unmarshal(Marshal(v, s).value, s) == Ok(v)
      {
        StartsWithNull(v, s, false);
        UnmarshalAcceptsExactlyMarshal(Marshal(v, s).value, s, v);
      }
    } else {
      var w := MisreadValue(SPtr(s), false);
      var v := w.value;
      var b := Marshal(v, s).value;
      assert b + [] == b && !ReadsBack(w, SPtr(s), false, []);
    }
  }

  // ---- Raws ------------------------------------------------------------------------------------

  /** A type with no Raw in it. */
  predicate RawFree(s: Schema)
    decreases s
  {
    match s
    case SRaw => false
    case SOption(e) => RawFree(e)
    case SPtr(e) => RawFree(e)
    case SArray(fields) => forall i :: 0 <= i < |fields| ==> RawFree(fields[i].schema)
    case SMap(_, fields) => forall i :: 0 <= i < |fields| ==> RawFree(fields[i].schema)
    case _ => true
  }

  lemma {:induction false} NoRawsAreItems(v: Value, s: Schema)
    requires SchemaOk(s) && RawFree(s) && HasType(v, s)
    ensures RawsAreItems(v)
    decreases s
  {
    match s
    case SOption(e) => if v.Some_? { NoRawsAreItems(v.value, e); }
    case SPtr(e) => if v.Ref? { NoRawsAreItems(v.value, e); }
    case SArray(fields) =>
      forall i | 0 <= i < |fields|
        ensures RawsAreItems(v.values[i])
      {
        NoRawsAreItems(v.values[i], fields[i].schema);
      }
    case SMap(_, fields) =>
      forall i | 0 <= i < |fields|
        ensures RawsAreItems(v.values[i])
      {
        NoRawsAreItems(v.values[i], fields[i].schema);
      }
    case _ =>
  }

  /** A type with a Raw has a value that can be written although a Raw in it holds nothing at all. */
  lemma {:induction false} EmptyRaw(s: Schema, optional: bool) returns (v: Value)
    requires SchemaOk(s) && !RawFree(s)
    ensures Writable(v, s, optional) && !RawsAreItems(v)
    decreases s
  {
    match s
    case SRaw =>
      v := RawItem([]);
      if IsOneItem([]) {
        OneItemSkips([], []);
      }
    case SOption(e) =>
      var x := EmptyRaw(e, false);
      v := Some_(x);
    case SPtr(e) =>
      var x := EmptyRaw(e, false);
      v := Ref(x);
    case SArray(fields) => v := EmptyRawInStruct(s, optional);
    case SMap(_, fields) => v := EmptyRawInStruct(s, optional);
  }

  lemma {:induction false} EmptyRawInStruct(s: Schema, optional: bool) returns (v: Value)
    requires SchemaOk(s) && (s.SArray? || s.SMap?) && !RawFree(s)
    ensures Writable(v, s, optional) && !RawsAreItems(v)
    decreases s, 0
  {
    var k :| 0 <= k < |s.fields| && !RawFree(s.fields[k].schema);
    var x := EmptyRaw(s.fields[k].schema, s.fields[k].optional);
    var values := Default(s).values[k := x];
    forall i | 0 <= i < |s.fields|
      ensures Writable(values[i], s.fields[i].schema, s.fields[i].optional)
    {
      DefaultIsEncodable(s.fields[i].schema, s.fields[i].optional);
    }
    StructIsWritable(values, s, optional);
    v := Struct(values);
    assert !RawsAreItems(v.values[k]);
  }

  /** Whatever its Raws hold, every value of a type that can be marshalled is given back just when the type, behind the
      pointer that Unmarshal takes, is unambiguous and has no Raw in it. */
  lemma {:induction false} EveryValueRoundTripsExactly(s: Schema)
    requires SchemaOk(s)
    ensures (forall v :: Writable(v, s, false) ==> Unmarshal(Marshal(v, s).value, s) == Ok(v))
       <==> Unambiguous(SPtr(s), false) && RawFree(s)
  {
    hide Unambiguous, RawFree, Encode, HasType, RawsAreItems, Unmarshal;
    RoundTripsExactly(s);
    if Unambiguous(SPtr(s), false) && RawFree(s) {
      forall v | Writable(v, s, false)
        ensures Unmarshal(Marshal(v, s).value, s) == Ok(v)
      {
        NoRawsAreItems(v, s);
      }
    }
    if RawFree(s) {
      assert forall v :: Encodable(v, s, false) ==> Writable(v, s, false);
    } else {
      var v := EmptyRaw(s, false);
      if Unmarshal(Marshal(v, s).value, s) == Ok(v) {
        UnmarshalAcceptsOnlyMarshal(Marshal(v, s).value, s);
      }
    }
  }
}

/** encodeValue and decodeValue as they run: one appends to an Encoder, the other moves a Decoder's cursor. */
module CborReflect {
  import opened Base
  import opened CborHeader
  import opened CborScalar
  import opened CborSkip
  import opened CborFieldOrder
  import opened CborSchema
  import opened CborCodec
  import CborItem

  // ---- Encoding ---------------------------------------------------------------------------------

  /** What was written is what the specification says; after an error the buffer is not used. */
  ghost predicate Wrote(spec: Result<Bytes, CborError>, error: Option<CborError>, before: Bytes, after: Bytes) {
    match spec
    case Ok(b) => error == None && after == before + b
    case Err(e) => error == Some(e)
  }

  /** What is to be written is what has been, then rest. */
  ghost predicate Continues(whole: Result<Bytes, CborError>, done: Bytes, rest: Result<Bytes, CborError>) {
    whole == match rest
             case Ok(b) => Ok(done + b)
             case Err(e) => Err(e)
  }

  lemma ContinuesStart(whole: Result<Bytes, CborError>)
    ensures Continues(whole, [], whole)
  {
    assert forall b: Bytes :: [] + b == b;
  }

  lemma ContinuesEnd(whole: Result<Bytes, CborError>, done: Bytes)
    requires Continues(whole, done, Ok([]))
    ensures whole == Ok(done)
  {
    assert done + [] == done;
  }

  lemma {:induction false} FieldStep(values: seq<Value>, s: Schema, i: nat, whole: Result<Bytes, CborError>, done: Bytes)
    requires s.SArray? && SchemaOk(s) && TypedFrom(values, s, i) && i < |values|
    requires Continues(whole, done, EncodeFields(values, s, i))
    ensures var first := Encode(values[i], s.fields[i].schema, s.fields[i].optional);
            && (first.Err? ==> whole == Err(first.error))
            && (first.Ok? ==> Continues(whole, done + first.value, EncodeFields(values, s, i + 1)))
  {
    hide Encode, HasType;
    if EncodeFields(values, s, i).Ok? {
      var f := s.fields[i];
      ConcatAssoc(done, Encode(values[i], f.schema, f.optional).value, EncodeFields(values, s, i + 1).value);
    }
  }

  lemma {:induction false} EntryStep(values: seq<Value>, s: Schema, order: seq<nat>, whole: Result<Bytes, CborError>, done: Bytes)
    requires s.SMap? && SchemaOk(s) && TypedAt(values, s, order) && order != []
    requires Continues(whole, done, EncodeEntries(values, s, order))
    ensures var j := order[0];
            var first := Encode(values[j], s.fields[j].schema, s.fields[j].optional);
            && (first.Err? ==> whole == Err(first.error))
            && (first.Ok? ==> Continues(whole, done + EncodeInt(s.keys[j]) + first.value, EncodeEntries(values, s, order[1..])))
  {
    hide Encode, HasType, EncodeInt;
    if EncodeEntries(values, s, order).Ok? {
      var j := order[0];
      var f, key := s.fields[j], EncodeInt(s.keys[j]);
      var first, others := Encode(values[j], f.schema, f.optional).value, EncodeEntries(values, s, order[1..]).value;
      ConcatAssoc(key, first, others);
      ConcatAssoc(done, key, first);
      ConcatAssoc(done, key + first, others);
    }
  }

  /** encodeValue. */
  method EncodeValue(enc: Encoder, v: Value, s: Schema, optional: bool) returns (error: Option<CborError>)
    requires SchemaOk(s) && HasType(v, s)
    modifies enc
    ensures Wrote(Encode(v, s, optional), error, old(enc.buf), enc.buf)
    decreases s, 2, 0
  {
    hide Header, CborHeader.EncodeInt, EncodeFields, EncodeEntries, SortedOrder;
    error := None;
    match s
    case SBool => enc.EncodeBool(v.b);
    case SUint => enc.EncodeUint(v.n);
    case SInt => enc.EncodeInt(v.n);
    case SText => error := enc.EncodeText(v.bytes);
    case SBytes =>
      if v.Nil? {
        error := EncodeNil(enc, optional);
      } else {
        enc.EncodeBytes(v.bytes);
      }
    case SFixed(_) => enc.EncodeBytes(v.bytes);
    case SRaw => enc.buf := enc.buf + v.bytes;
    case SUnit => enc.EncodeLength(MAJOR_ARRAY, 0);
    case SNull => enc.EncodeNull();
    case SOption(e) =>
      if v.None_? {
        enc.EncodeNull();
      } else {
        error := EncodeValue(enc, v.value, e, false);
      }
    case SPtr(e) =>
      if v.Nil? {
        error := EncodeNil(enc, optional);
      } else {
        error := EncodeValue(enc, v.value, e, false);
      }
    case SArray(_) => error := EncodeArray(enc, v, s);
    case SMap(_, _) => error := EncodeMap(enc, v, s);
  }

  /** A nil slice or pointer, which only the optional tag allows. */
  method EncodeNil(enc: Encoder, optional: bool) returns (error: Option<CborError>)
    modifies enc
    ensures Wrote(if optional then Ok([NULL_BYTE]) else Err(UnexpectedNil), error, old(enc.buf), enc.buf)
  {
    if !optional {
      return Some(UnexpectedNil);
    }
    enc.EncodeNull();
    error := None;
  }

  method EncodeArray(enc: Encoder, v: Value, s: Schema) returns (error: Option<CborError>)
    requires s.SArray? && SchemaOk(s) && HasType(v, s)
    modifies enc
    ensures Wrote(Encode(v, s, false), error, old(enc.buf), enc.buf)
    decreases s, 1
  {
    hide Header, Encode, EncodeFields, Continues;
    var values, fields := v.values, s.fields;
    ghost var whole := EncodeFields(values, s, 0);
    ghost var start, done: Bytes := Header(MAJOR_ARRAY, |fields|), [];
    enc.EncodeLength(MAJOR_ARRAY, |fields|);
    ContinuesStart(whole);
    assert enc.buf == old(enc.buf) + start + [];
    var i := 0;
    while i < |values|
      invariant 0 <= i <= |values|
      invariant enc.buf == old(enc.buf) + start + done && Continues(whole, done, EncodeFields(values, s, i))
    {
      FieldStep(values, s, i, whole, done);
      ghost var b := Encode(values[i], fields[i].schema, fields[i].optional);
      error := EncodeValue(enc, values[i], fields[i].schema, fields[i].optional);
      if error != None {
        ArrayEncodes(v, s, whole);
        return;
      }
      ConcatAssoc(old(enc.buf) + start, done, b.value);
      done := done + b.value;
      i := i + 1;
    }
    NoFields(values, s);
    ContinuesEnd(whole, done);
    ArrayEncodes(v, s, whole);
    ConcatAssoc(old(enc.buf), start, done);
    error := None;
  }

  lemma {:induction false} NoFields(values: seq<Value>, s: Schema)
    requires s.SArray? && SchemaOk(s) && TypedFrom(values, s, |values|)
    ensures EncodeFields(values, s, |values|) == Ok([])
  {
  }

  lemma {:induction false} ArrayEncodes(v: Value, s: Schema, fields: Result<Bytes, CborError>)
    requires s.SArray? && SchemaOk(s) && HasType(v, s) && fields == EncodeFields(v.values, s, 0)
    ensures fields.Err? ==> Encode(v, s, false) == Err(fields.error)
    ensures fields.Ok? ==> Encode(v, s, false) == Ok(Header(MAJOR_ARRAY, |s.fields|) + fields.value)
  {
    hide Header, EncodeFields;
  }

  method EncodeMap(enc: Encoder, v: Value, s: Schema) returns (error: Option<CborError>)
    requires s.SMap? && SchemaOk(s) && HasType(v, s)
    modifies enc
    ensures Wrote(Encode(v, s, false), error, old(enc.buf), enc.buf)
    decreases s, 1
  {
    hide Header, Encode, EncodeEntries, Continues, SortedOrder, CborHeader.EncodeInt;
    var values, fields, order := v.values, s.fields, SortedOrder(s.keys);
    ghost var whole := EncodeEntries(values, s, order);
    ghost var start, done: Bytes := Header(MAJOR_MAP, |fields|), [];
    enc.EncodeLength(MAJOR_MAP, |fields|);
    ContinuesStart(whole);
    assert enc.buf == old(enc.buf) + start + [] && order[0..] == order;
    var i := 0;
    while i < |order|
      invariant 0 <= i <= |order|
      invariant enc.buf == old(enc.buf) + start + done && Continues(whole, done, EncodeEntries(values, s, order[i..]))
    {
      assert order[i..][0] == order[i] && order[i..][1..] == order[i + 1..];
      EntryStep(values, s, order[i..], whole, done);
      var j := order[i];
      ghost var key, b := CborHeader.EncodeInt(s.keys[j]), Encode(values[j], fields[j].schema, fields[j].optional);
      enc.EncodeInt(s.keys[j]);
      ConcatAssoc(old(enc.buf) + start, done, key);
      error := EncodeValue(enc, values[j], fields[j].schema, fields[j].optional);
      if error != None {
        MapEncodes(v, s, whole);
        return;
      }
      ConcatAssoc(old(enc.buf) + start, done + key, b.value);
      done := done + key + b.value;
      i := i + 1;
    }
    NoEntries(values, s);
    ContinuesEnd(whole, done);
    MapEncodes(v, s, whole);
    ConcatAssoc(old(enc.buf), start, done);
    error := None;
  }

  lemma {:induction false} NoEntries(values: seq<Value>, s: Schema)
    requires s.SMap? && SchemaOk(s) && TypedAt(values, s, [])
    ensures EncodeEntries(values, s, []) == Ok([])
  {
  }

  lemma {:induction false} MapEncodes(v: Value, s: Schema, entries: Result<Bytes, CborError>)
    requires s.SMap? && SchemaOk(s) && HasType(v, s) && entries == EncodeEntries(v.values, s, SortedOrder(s.keys))
    ensures entries.Err? ==> Encode(v, s, false) == Err(entries.error)
    ensures entries.Ok? ==> Encode(v, s, false) == Ok(Header(MAJOR_MAP, |s.fields|) + entries.value)
  {
    hide Header, EncodeEntries, SortedOrder;
  }

  /** Marshal. */
  method Marshal(v: Value, s: Schema) returns (r: Result<Bytes, CborError>)
    requires SchemaOk(s) && HasType(v, s)
    ensures r == CborSchema.Marshal(v, s)
  {
    var enc := new Encoder();
    var error := EncodeValue(enc, v, s, false);
    assert forall b: Bytes :: [] + b == b;
    r := if error == None then Ok(enc.buf) else Err(error.value);
  }

  // ---- Decoding ---------------------------------------------------------------------------------

  /** What was read, and where the cursor is left, is what the specification says. */
  ghost predicate Read<T>(spec: Result<Parsed<T>, CborError>, r: Result<T, CborError>, rest: Bytes) {
    match spec
    case Ok(p) => r == Ok(p.value) && rest == p.rest
    case Err(e) => r == Err(e)
  }

  ghost predicate MovedOn(dec: Decoder, from: nat)
    reads dec
  {
    dec.Valid() && from <= dec.pos
  }

  /** decodeValue: a pointer is followed, unless there is null to make it nil. */
  method DecodeValue(dec: Decoder, s: Schema, optional: bool) returns (r: Result<Value, CborError>)
    requires dec.Valid() && SchemaOk(s)
    modifies dec
    ensures MovedOn(dec, old(dec.pos)) && Read(Decode(old(dec.Rest()), s, optional), r, dec.Rest())
    decreases s, 3
  {
    if !s.SPtr? {
      r := DecodeKind(dec, s, optional);
      return;
    }
    if !s.elem.SOption? && dec.PeekNull() {
      r := DecodeNil(dec, optional);
      return;
    }
    if s.elem.SPtr? {
      return Err(UnsupportedType);
    }
    var v :- DecodeKind(dec, s.elem, false);
    r := Ok(Ref(v));
  }

  /** Null, where only the optional tag allows it. */
  method DecodeNil(dec: Decoder, optional: bool) returns (r: Result<Value, CborError>)
    requires dec.Valid() && dec.PeekNull()
    modifies dec
    ensures MovedOn(dec, old(dec.pos))
    ensures Read(if optional then Ok(Parsed(Nil, old(dec.Rest())[1..])) else Err(UnexpectedNull), r, dec.Rest())
  {
    if !optional {
      return Err(UnexpectedNull);
    }
    var error := dec.DecodeNull();
    r := Ok(Nil);
  }

  /** The switch on the kind of the value. */
  method DecodeKind(dec: Decoder, s: Schema, optional: bool) returns (r: Result<Value, CborError>)
    requires dec.Valid() && SchemaOk(s) && !s.SPtr?
    modifies dec
    ensures MovedOn(dec, old(dec.pos)) && Read(Decode(old(dec.Rest()), s, optional), r, dec.Rest())
    decreases s, 2
  {
    hide ReadBool, ReadArgument, ReadInt, ReadText, ReadBlob, ReadFixed, DecodeRaw;
    match s
    case SBool =>
      var b :- dec.DecodeBool();
      r := Ok(Bool(b));
    case SUint =>
      var n :- dec.DecodeArgument(MAJOR_UINT);
      r := Ok(Uint(n));
    case SInt =>
      var n :- dec.DecodeInt();
      r := Ok(Int(n));
    case SText =>
      var b :- dec.DecodeText();
      r := Ok(Text(b));
    case SBytes =>
      if dec.PeekNull() {
        r := DecodeNil(dec, optional);
      } else {
        var b :- dec.DecodeBytes();
        r := Ok(Blob(b));
      }
    case SFixed(n) =>
      var b :- dec.DecodeBytesFixed(n);
      r := Ok(Blob(b));
    case SRaw => r := DecodeRawItem(dec);
    case SUnit =>
      var n :- dec.DecodeArgument(MAJOR_ARRAY);
      r := if n != 0 then Err(UnexpectedItemCount) else Ok(Unit);
    case SNull =>
      var error := dec.DecodeNull();
      r := if error == None then Ok(Null) else Err(error.value);
    case SOption(e) =>
      if dec.PeekNull() {
        var error := dec.DecodeNull();
        r := Ok(None_);
      } else {
        var v :- DecodeValue(dec, e, false);
        r := Ok(Some_(v));
      }
    case SArray(_) => r := DecodeArray(dec, s);
    case SMap(_, _) => r := DecodeMap(dec, s);
  }

  method DecodeRawItem(dec: Decoder) returns (r: Result<Value, CborError>)
    requires dec.Valid()
    modifies dec
    ensures MovedOn(dec, old(dec.pos)) && Read(DecodeRaw(old(dec.Rest())), r, dec.Rest())
  {
    hide Skip, IsOneItem;
    var start := dec.pos;
    ghost var d := dec.Rest();
    var error := SkipObject(dec, CborItem.MAX_DEPTH);
    if error != None {
      return Err(error.value);
    }
    assert d[..|d| - |dec.Rest()|] == dec.data[start..dec.pos];
    r := Ok(RawItem(dec.data[start..dec.pos]));
  }

  /** What the loop over an array's fields will yield, if it has yielded done and rest is still to come. */
  ghost predicate FieldsToCome(whole: Result<Parsed<seq<Value>>, CborError>, done: seq<Value>,
                               rest: Result<Parsed<seq<Value>>, CborError>) {
    whole == match rest
             case Ok(p) => Ok(Parsed(done + p.value, p.rest))
             case Err(e) => Err(e)
  }

  lemma {:induction false} NextField(d: Bytes, s: Schema, i: nat, whole: Result<Parsed<seq<Value>>, CborError>, done: seq<Value>)
    requires s.SArray? && SchemaOk(s) && i < |s.fields| && FieldsToCome(whole, done, DecodeFields(d, s, i))
    ensures var first := Decode(d, s.fields[i].schema, s.fields[i].optional);
            && (first.Err? ==> whole == Err(first.error))
            && (first.Ok? ==> FieldsToCome(whole, done + [first.value.value], DecodeFields(first.value.rest, s, i + 1)))
  {
    hide Decode;
    if DecodeFields(d, s, i).Ok? {
      var first := Decode(d, s.fields[i].schema, s.fields[i].optional).value;
      ConcatAssoc(done, [first.value], DecodeFields(first.rest, s, i + 1).value.value);
    }
  }

  method DecodeArray(dec: Decoder, s: Schema) returns (r: Result<Value, CborError>)
    requires dec.Valid() && SchemaOk(s) && s.SArray?
    modifies dec
    ensures MovedOn(dec, old(dec.pos)) && Read(Decode(old(dec.Rest()), s, false), r, dec.Rest())
    decreases s, 1
  {
    hide ReadArgument, FieldsToCome;
    var fields := s.fields;
    var length :- dec.DecodeArgument(MAJOR_ARRAY);
    if ToInt64(length) != |fields| {
      return Err(UnexpectedItemCount);
    }
    ghost var whole := DecodeFields(dec.Rest(), s, 0);
    var values: seq<Value> := [];
    AllToCome(whole);
    var i := 0;
    while i < |fields|
      invariant 0 <= i <= |fields| && MovedOn(dec, old(dec.pos))
      invariant FieldsToCome(whole, values, DecodeFields(dec.Rest(), s, i))
    {
      hide Decode;
      NextField(dec.Rest(), s, i, whole, values);
      ghost var first := Decode(dec.Rest(), fields[i].schema, fields[i].optional);
      var v :- DecodeValue(dec, fields[i].schema, fields[i].optional);
      values := values + [v];
      i := i + 1;
    }
    NoneToCome(whole, values, dec.Rest());
    r := Ok(Struct(values));
  }

  lemma AllToCome(whole: Result<Parsed<seq<Value>>, CborError>)
    ensures FieldsToCome(whole, [], whole)
  {
    assert forall values: seq<Value> :: [] + values == values;
  }

  lemma {:induction false} NoneToCome(whole: Result<Parsed<seq<Value>>, CborError>, done: seq<Value>, rest: Bytes)
    requires FieldsToCome(whole, done, Ok(Parsed([], rest)))
    ensures whole == Ok(Parsed(done, rest))
  {
    assert done + [] == done;
  }

  /** keyToField: the position of the field with each key. */
  method BuildLookup(keys: seq<int>) returns (keyToField: map<int, nat>)
    requires KeysOk(keys)
    ensures forall key :: key in keyToField <==> key in keys
    ensures forall key :: key in keyToField ==> keyToField[key] < |keys| && keys[keyToField[key]] == key
  {
    keyToField := map[];
    var i := 0;
    while i < |keys|
      invariant 0 <= i <= |keys|
      invariant forall key :: key in keyToField <==> key in keys[..i]
      invariant forall key :: key in keyToField ==> keyToField[key] < |keys| && keys[keyToField[key]] == key
    {
      keyToField := keyToField[keys[i] := i];
      assert keys[..i + 1] == keys[..i] + [keys[i]];
      i := i + 1;
    }
    assert keys[..i] == keys;
  }

  method DecodeMap(dec: Decoder, s: Schema) returns (r: Result<Value, CborError>)
    requires dec.Valid() && SchemaOk(s) && s.SMap?
    modifies dec
    ensures MovedOn(dec, old(dec.pos)) && Read(Decode(old(dec.Rest()), s, false), r, dec.Rest())
    decreases s, 1
  {
    hide ReadArgument, ReadInt, MapKeyCmp, CheckKey;
    var keys, fields := s.keys, s.fields;
    var keyToField := BuildLookup(keys);
    var length :- dec.DecodeArgument(MAJOR_MAP);
    if ToInt64(length) != |fields| {
      return Err(UnexpectedItemCount);
    }
    ghost var whole := DecodeEntries(dec.Rest(), s, |fields|, None, Blank(|fields|));
    var values := Blank(|fields|);
    var prevKey: Option<int> := None;
    var i := 0;
    while i < length
      invariant 0 <= i <= length == |fields| == |values| && MovedOn(dec, old(dec.pos))
      invariant prevKey.Some? ==> IsInt64(prevKey.value)
      invariant whole == DecodeEntries(dec.Rest(), s, length - i, prevKey, values)
    {
      hide Decode;
      var key :- dec.DecodeInt();
      CheckedKey(prevKey, key, keys);
      if prevKey.Some? {
        var cmp := MapKeyCmp(prevKey.value, key);
        if cmp == 0 {
          return Err(DuplicateMapKey);
        } else if cmp > 0 {
          return Err(InvalidMapKeyOrder);
        }
      }
      prevKey := Some(key);
      if key !in keyToField {
        return Err(UnsupportedType);
      }
      var j := keyToField[key];
      var v :- DecodeValue(dec, fields[j].schema, fields[j].optional);
      values := values[j := v];
      i := i + 1;
    }
    r := Ok(Struct(values));
  }

  lemma CheckedKey(prev: Option<int>, key: int, keys: seq<int>)
    requires IsInt64(key) && (prev.Some? ==> IsInt64(prev.value)) && KeysOk(keys)
    ensures var cmp := if prev.Some? then MapKeyCmp(prev.value, key) else -1;
            && (cmp == 0 ==> CheckKey(prev, key, keys) == Err(DuplicateMapKey))
            && (cmp > 0 ==> CheckKey(prev, key, keys) == Err(InvalidMapKeyOrder))
            && (cmp < 0 && key !in keys ==> CheckKey(prev, key, keys) == Err(UnsupportedType))
            && (cmp < 0 ==> forall j :: 0 <= j < |keys| && keys[j] == key ==> CheckKey(prev, key, keys) == Ok(j))
  {
    hide MapKeyCmp;
  }

  /** Unmarshal. */
  method Unmarshal(data: Bytes, s: Schema) returns (r: Result<Value, CborError>)
    requires |data| <= MAX_INT && SchemaOk(s)
    ensures r == CborSchema.Unmarshal(data, s)
  {
    var dec := new Decoder(data);
    var v :- DecodeValue(dec, SPtr(s), false);
    var error := dec.Finish();
    r := if error == None then Ok(v.value) else Err(error.value);
  }
}

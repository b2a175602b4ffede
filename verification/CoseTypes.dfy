/** The CBOR types of COSE_Sign1 and COSE_Encrypt0 (sections 4.2 and 5.2 of RFC 9052), and their values. */
module CoseTypes {
  import opened Base
  import opened CborHeader
  import opened CborSchema
  import opened CborRoundTrip
  import opened CborFieldOrder
  import opened CborMarshal
  import opened CoseSuite
  import opened Utf8

  const DOMAIN_PREFIX: Bytes := [100, 97, 114, 107, 45, 98, 105, 111, 45, 118, 49, 58]  // dark-bio-v1:
  const SIGNATURE1: Bytes := [83, 105, 103, 110, 97, 116, 117, 114, 101, 49]
  const ENCRYPT0: Bytes := [69, 110, 99, 114, 121, 112, 116, 48]

  const ALGORITHM_XDSA := -70000
  const ALGORITHM_XHPKE := -70001
  const HEADER_TIMESTAMP := -70002

  // ---- The message types ------------------------------------------------------------------------

  function Plain(s: Schema): Field {
    Field(s, false)
  }

  function CritHeader(): Schema {
    SArray([Plain(SInt)])
  }

  function SigHeaderType(): Schema {
    SMap([1, 2, 4, HEADER_TIMESTAMP], [Plain(SInt), Plain(CritHeader()), Plain(SFixed(FINGERPRINT_SIZE)), Plain(SInt)])
  }

  function EncHeaderType(): Schema {
    SMap([1, 4], [Plain(SInt), Plain(SFixed(FINGERPRINT_SIZE))])
  }

  function EmptyHeader(): Schema {
    SMap([], [])
  }

  function EncapKeyHeader(): Schema {
    SMap([-4], [Plain(SBytes)])
  }

  function Sign1Type(): Schema {
    SArray([Plain(SBytes), Plain(EmptyHeader()), Field(SBytes, true), Plain(SFixed(SIGNATURE_SIZE))])
  }

  function Encrypt0Type(): Schema {
    SArray([Plain(SBytes), Plain(EncapKeyHeader()), Plain(SBytes)])
  }

  function SigStructureType(): Schema {
    SArray([Plain(SText), Plain(SBytes), Plain(SBytes), Plain(SBytes)])
  }

  function EncStructureType(): Schema {
    SArray([Plain(SText), Plain(SBytes), Plain(SBytes)])
  }

  function SigAadType(): Schema {
    SArray([Plain(SBytes), Plain(SRaw)])
  }

  ghost predicate TypeOk(s: Schema) {
    SchemaOk(s) && Unambiguous(s, false)
  }

  ghost predicate FieldOk(f: Field) {
    SchemaOk(f.schema) && Unambiguous(f.schema, f.optional)
  }

  lemma {:induction false} ArrayTypeOk(fields: seq<Field>)
    requires |fields| <= MAX_INT && forall i :: 0 <= i < |fields| ==> FieldOk(fields[i])
    ensures TypeOk(SArray(fields))
  {
  }

  lemma {:induction false} MapTypeOk(keys: seq<int>, fields: seq<Field>)
    requires |keys| == |fields| <= MAX_INT && KeysOk(keys) && forall i :: 0 <= i < |fields| ==> FieldOk(fields[i])
    ensures TypeOk(SMap(keys, fields))
  {
  }

  lemma {:induction false} PartsOk()
    ensures FieldOk(Plain(SInt)) && FieldOk(Plain(SText)) && FieldOk(Plain(SBytes)) && FieldOk(Plain(SRaw))
    ensures FieldOk(Field(SBytes, true))
    ensures FieldOk(Plain(SFixed(FINGERPRINT_SIZE))) && FieldOk(Plain(SFixed(SIGNATURE_SIZE)))
    ensures KeysOk([1, 2, 4, HEADER_TIMESTAMP]) && KeysOk([1, 4]) && KeysOk([-4]) && KeysOk([])
  {
  }

  lemma {:induction false} TypesOk()
    ensures TypeOk(CritHeader()) && TypeOk(SigHeaderType()) && TypeOk(EncHeaderType())
    ensures TypeOk(Sign1Type()) && TypeOk(Encrypt0Type())
    ensures TypeOk(SigStructureType()) && TypeOk(EncStructureType()) && TypeOk(SigAadType())
    ensures TypeOk(EmptyHeader()) && TypeOk(EncapKeyHeader())
  {
    hide SchemaOk, Unambiguous, KeysOk, FieldOk;
    var int_, text, bytes, raw := Plain(SInt), Plain(SText), Plain(SBytes), Plain(SRaw);
    var kid, payload, signature := Plain(SFixed(FINGERPRINT_SIZE)), Field(SBytes, true), Plain(SFixed(SIGNATURE_SIZE));
    PartsOk();
    ArrayTypeOk([int_]);
    PlainOk(CritHeader());
    MapTypeOk([1, 2, 4, HEADER_TIMESTAMP], [int_, Plain(CritHeader()), kid, int_]);
    MapTypeOk([1, 4], [int_, kid]);
    MapTypeOk([], []);
    PlainOk(EmptyHeader());
    ArrayTypeOk([bytes, Plain(EmptyHeader()), payload, signature]);
    MapTypeOk([-4], [bytes]);
    PlainOk(EncapKeyHeader());
    ArrayTypeOk([bytes, Plain(EncapKeyHeader()), bytes]);
    ArrayTypeOk([text, bytes, bytes, bytes]);
    ArrayTypeOk([text, bytes, bytes]);
    ArrayTypeOk([bytes, raw]);
  }

  lemma {:induction false} PlainOk(s: Schema)
    requires TypeOk(s)
    ensures FieldOk(Plain(s))
  {
  }

  // ---- Encoding that cannot fail ----------------------------------------------------------------

  /** Lengths that leave room for the headers around them in a slice. */
  const MAX_FIELD: nat := 0x1000_0000_0000_0000

  predicate Fits(b: Bytes) {
    |b| <= MAX_FIELD
  }

  lemma HeaderIsShort(major: int, value: int)
    requires 0 <= major < 8 && IsUint64(value)
    ensures |Header(major, value)| <= 9
  {
  }

  /** v encodes as s, so a panic for failing to is never reached. */
  ghost predicate Encodes(v: Value, s: Schema) {
    SchemaOk(s) && Encodable(v, s, false)
  }

  lemma {:induction false} StructEncodes(values: seq<Value>, s: Schema)
    requires (s.SArray? || s.SMap?) && TypeOk(s) && |values| == |s.fields|
    requires forall i :: 0 <= i < |values| ==>
               SchemaOk(s.fields[i].schema) && Encodable(values[i], s.fields[i].schema, s.fields[i].optional)
    ensures Encodes(Struct(values), s)
  {
    hide Encodable;
    StructIsEncodable(values, s, false);
  }

  /** One entry, of a key and a field, before others. */
  lemma {:induction false} EntryIsShort(values: seq<Value>, s: Schema, order: seq<nat>, bound: nat)
    requires SchemaOk(s) && s.SMap? && TypedAt(values, s, order) && order != []
    requires EncodeEntries(values, s, order[1..]).Ok?
    requires var f := s.fields[order[0]];
             var b := Encode(values[order[0]], f.schema, f.optional); b.Ok? && |b.value| <= bound
    ensures EncodeEntries(values, s, order).Ok?
    ensures |EncodeEntries(values, s, order).value| <= 9 + bound + |EncodeEntries(values, s, order[1..]).value|
  {
    hide Encode, HasType, EncodeInt;
    KeyIsShort(s.keys[order[0]]);
  }

  /** At these positions there are fields that encode in a bounded length. */
  ghost predicate ShortAt(values: seq<Value>, s: Schema, order: seq<nat>, bound: nat)
    requires SchemaOk(s) && s.SMap? && TypedAt(values, s, order)
  {
    forall i :: 0 <= i < |order| ==>
      var b := Encode(values[order[i]], s.fields[order[i]].schema, s.fields[order[i]].optional); b.Ok? && |b.value| <= bound
  }

  lemma {:induction false} ShortAtTail(values: seq<Value>, s: Schema, order: seq<nat>, bound: nat)
    requires SchemaOk(s) && s.SMap? && TypedAt(values, s, order) && order != [] && ShortAt(values, s, order, bound)
    ensures TypedAt(values, s, order[1..]) && ShortAt(values, s, order[1..], bound)
    ensures var f := s.fields[order[0]]; var b := Encode(values[order[0]], f.schema, f.optional); b.Ok? && |b.value| <= bound
  {
    hide Encode, HasType;
  }

  /** Fields of a bounded length make a map struct of a bounded length. */
  lemma {:induction false} EntriesAreShort(values: seq<Value>, s: Schema, order: seq<nat>, bound: nat)
    requires SchemaOk(s) && s.SMap? && TypedAt(values, s, order) && ShortAt(values, s, order, bound)
    ensures EncodeEntries(values, s, order).Ok? && |EncodeEntries(values, s, order).value| <= Room(|order|, bound)
    decreases |order|
  {
    if order == [] {
    } else {
      ShortAtTail(values, s, order, bound);
      hide Encode, HasType, TypedAt, EncodeEntries, ShortAt, SchemaOk, Room;
      EntriesAreShort(values, s, order[1..], bound);
      EntryIsShort(values, s, order, bound);
      RoomForOneMore(|order| - 1, bound);
    }
  }

  /** The space that n entries take at most: a key of up to nine bytes each, and a field. */
  function Room(n: nat, bound: nat): nat {
    n * (9 + bound)
  }

  lemma RoomForOneMore(n: nat, bound: nat)
    ensures Room(n + 1, bound) == Room(n, bound) + 9 + bound
  {
  }

  lemma KeyIsShort(k: int)
    requires IsInt64(k)
    ensures |EncodeInt(k)| <= 9
  {
  }

  // ---- Protected headers ------------------------------------------------------------------------

  function CritValue(): Value {
    Struct([Int(HEADER_TIMESTAMP)])
  }

  function SigHeader(kid: Fingerprint, timestamp: int): Value {
    Struct([Int(ALGORITHM_XDSA), CritValue(), CborSchema.Blob(kid), Int(timestamp)])
  }

  function EncHeader(kid: Fingerprint): Value {
    Struct([Int(ALGORITHM_XHPKE), CborSchema.Blob(kid)])
  }

  lemma {:induction false} PartsEncode(k: int, b: Bytes)
    requires IsInt64(k) && |b| <= MAX_INT
    ensures Encodes(Int(k), SInt) && |Encode(Int(k), SInt, false).value| <= 9
    ensures SchemaOk(SBytes) && Encodable(CborSchema.Blob(b), SBytes, false) && Encodable(CborSchema.Blob(b), SBytes, true)
    ensures Encodes(CborSchema.Blob(b), SFixed(|b|)) && |Encode(CborSchema.Blob(b), SFixed(|b|), false).value| <= 9 + |b|
    ensures Encodable(Nil, SBytes, true)
  {
    KeyIsShort(k);
    HeaderIsShort(MAJOR_BYTES, |b|);
  }

  lemma {:induction false} CritEncodes()
    ensures Encodes(CritValue(), CritHeader()) && |Encode(CritValue(), CritHeader(), false).value| <= 18
  {
    TypesOk();
    PartsEncode(HEADER_TIMESTAMP, []);
    StructEncodes(CritValue().values, CritHeader());
    var values, s := CritValue().values, CritHeader();
    assert EncodeFields(values, s, 1) == Ok([]);
    HeaderIsShort(MAJOR_ARRAY, 1);
  }

  lemma {:induction false} SigHeaderEncodes(kid: Fingerprint, timestamp: int)
    requires IsInt64(timestamp)
    ensures Encodes(SigHeader(kid, timestamp), SigHeaderType())
    ensures |Encode(SigHeader(kid, timestamp), SigHeaderType(), false).value| <= 1000
  {
    hide Encodable, SchemaOk, Unambiguous, Encode, KeysOk, SortedOrder;
    TypesOk();
    PartsEncode(ALGORITHM_XDSA, kid);
    PartsEncode(timestamp, kid);
    CritEncodes();
    StructEncodes(SigHeader(kid, timestamp).values, SigHeaderType());
    MapIsShort(SigHeader(kid, timestamp).values, SigHeaderType(), 50);
  }

  lemma {:induction false} EncHeaderEncodes(kid: Fingerprint)
    ensures Encodes(EncHeader(kid), EncHeaderType())
    ensures |Encode(EncHeader(kid), EncHeaderType(), false).value| <= 1000
  {
    hide Encodable, SchemaOk, Unambiguous, Encode, KeysOk, SortedOrder;
    TypesOk();
    PartsEncode(ALGORITHM_XHPKE, kid);
    StructEncodes(EncHeader(kid).values, EncHeaderType());
    MapIsShort(EncHeader(kid).values, EncHeaderType(), 50);
  }

  lemma {:induction false} MapIsShort(values: seq<Value>, s: Schema, bound: nat)
    requires SchemaOk(s) && s.SMap? && FieldsEncodable(values, s) && Encodable(Struct(values), s, false)
    requires forall i :: 0 <= i < |values| ==> |Encode(values[i], s.fields[i].schema, s.fields[i].optional).value| <= bound
    ensures |Encode(Struct(values), s, false).value| <= 9 + |values| * (9 + bound)
  {
    SortedOrderIsOrdered(s.keys);
    EntriesAreShort(values, s, SortedOrder(s.keys), bound);
    HeaderIsShort(MAJOR_MAP, |s.fields|);
  }

  // ---- Structures that are signed or authenticated ----------------------------------------------

  lemma {:induction false} AsciiIsUtf8(s: Bytes)
    requires forall i :: 0 <= i < |s| ==> s[i] < 0x80
    ensures ValidUtf8(s)
    decreases |s|
  {
    if s != [] {
      AsciiIsUtf8(s[1..]);
    }
  }

  lemma {:induction false} ContextEncodes(context: Bytes)
    requires |context| <= MAX_INT && forall i :: 0 <= i < |context| ==> context[i] < 0x80
    ensures SchemaOk(SText) && Encodable(Text(context), SText, false)
  {
    AsciiIsUtf8(context);
  }

  function SigStructure(protected: Bytes, aad: Bytes, payload: Bytes): Value {
    Struct([Text(SIGNATURE1), CborSchema.Blob(protected), CborSchema.Blob(aad), CborSchema.Blob(payload)])
  }

  lemma {:induction false} SigStructureEncodes(protected: Bytes, aad: Bytes, payload: Bytes)
    requires |protected| <= MAX_INT && |aad| <= MAX_INT && |payload| <= MAX_INT
    ensures Encodes(SigStructure(protected, aad, payload), SigStructureType())
  {
    hide Encodable, SchemaOk, Unambiguous, Encode;
    TypesOk();
    ContextEncodes(SIGNATURE1);
    PartsEncode(0, protected);
    PartsEncode(0, aad);
    PartsEncode(0, payload);
    StructEncodes(SigStructure(protected, aad, payload).values, SigStructureType());
  }

  function EncStructure(protected: Bytes, aad: Bytes): Value {
    Struct([Text(ENCRYPT0), CborSchema.Blob(protected), CborSchema.Blob(aad)])
  }

  lemma {:induction false} EncStructureEncodes(protected: Bytes, aad: Bytes)
    requires |protected| <= MAX_INT && |aad| <= MAX_INT
    ensures Encodes(EncStructure(protected, aad), EncStructureType())
  {
    hide Encodable, SchemaOk, Unambiguous, Encode;
    TypesOk();
    ContextEncodes(ENCRYPT0);
    PartsEncode(0, protected);
    PartsEncode(0, aad);
    StructEncodes(EncStructure(protected, aad).values, EncStructureType());
  }

  function SigAad(info: Bytes, auth: Bytes): Value {
    Struct([CborSchema.Blob(info), RawItem(auth)])
  }

  lemma {:induction false} SigAadFields(info: Bytes, auth: Bytes)
    requires |info| <= MAX_INT && |auth| <= MAX_INT
    ensures SchemaOk(SigAadType()) && HasType(SigAad(info, auth), SigAadType())
    ensures EncodeFields(SigAad(info, auth).values, SigAadType(), 0) == Ok((Header(MAJOR_BYTES, |info|) + info) + auth)
  {
    hide Header;
    var values, s := SigAad(info, auth).values, SigAadType();
    assert EncodeFields(values, s, 2) == Ok([]);
    assert auth + [] == auth;
    assert EncodeFields(values, s, 1) == Ok(auth);
  }

  /** The domain and the message to authenticate, which is passed through as it is. */
  lemma {:induction false} SigAadEncodes(info: Bytes, auth: Bytes)
    requires |info| <= MAX_FIELD + 12 && |auth| <= MAX_FIELD
    ensures SchemaOk(SigAadType()) && HasType(SigAad(info, auth), SigAadType())
    ensures Encode(SigAad(info, auth), SigAadType(), false)
         == Ok(Header(MAJOR_ARRAY, 2) + ((Header(MAJOR_BYTES, |info|) + info) + auth))
    ensures |Encode(SigAad(info, auth), SigAadType(), false).value| <= MAX_INT
  {
    hide SchemaOk, Unambiguous, KeysOk, EncodeFields, Header;
    TypesOk();
    SigAadFields(info, auth);
    HeaderIsShort(MAJOR_ARRAY, 2);
    HeaderIsShort(MAJOR_BYTES, |info|);
  }

  // ---- Messages ---------------------------------------------------------------------------------

  /** A COSE_Sign1; a detached payload is null. */
  function Sign1(protected: Bytes, payload: Option<Bytes>, signature: Signature): Value {
    Struct([CborSchema.Blob(protected), Struct([]),
            if payload.Some? then CborSchema.Blob(payload.value) else Nil, CborSchema.Blob(signature)])
  }

  lemma {:induction false} Sign1Encodes(protected: Bytes, payload: Option<Bytes>, signature: Signature)
    requires |protected| <= MAX_INT && (payload.Some? ==> |payload.value| <= MAX_INT)
    ensures Encodes(Sign1(protected, payload, signature), Sign1Type())
  {
    hide Encodable, SchemaOk, Unambiguous, Encode;
    TypesOk();
    PartsEncode(0, protected);
    PartsEncode(0, if payload.Some? then payload.value else []);
    PartsEncode(0, signature);
    StructEncodes([], EmptyHeader());
    StructEncodes(Sign1(protected, payload, signature).values, Sign1Type());
  }

  lemma {:induction false} EmptyHeaderShape(v: Value)
    requires SchemaOk(EmptyHeader()) && Encodable(v, EmptyHeader(), false)
    ensures v == Struct([])
  {
    assert v.values == [];
  }

  lemma {:induction false} PartShapes(v: Value, n: nat)
    requires n <= MAX_INT
    ensures SchemaOk(SBytes) && SchemaOk(SFixed(n))
    ensures Encodable(v, SBytes, false) ==> v.Blob? && |v.bytes| <= MAX_INT
    ensures Encodable(v, SBytes, true) ==> v.Nil? || (v.Blob? && |v.bytes| <= MAX_INT)
    ensures Encodable(v, SFixed(n), false) ==> v.Blob? && |v.bytes| == n
  {
  }

  lemma {:induction false} IsStruct(v: Value, s: Schema)
    requires s.SArray? && SchemaOk(s) && Encodable(v, s, false)
    ensures v.Struct? && |v.values| == |s.fields|
  {
  }

  /** Any value of the type that encodes is a message. */
  lemma {:induction false} Sign1Shape(v: Value)
    requires SchemaOk(Sign1Type()) && Encodable(v, Sign1Type(), false)
    ensures v.values[0].Blob? && |v.values[0].bytes| <= MAX_INT && |v.values[3].bytes| == SIGNATURE_SIZE
    ensures var payload := v.values[2];
            && (payload.Nil? || (payload.Blob? && |payload.bytes| <= MAX_INT))
            && v == Sign1(v.values[0].bytes, if payload.Nil? then None else Some(payload.bytes), v.values[3].bytes)
  {
    hide Encodable, SchemaOk;
    IsStruct(v, Sign1Type());
    FieldsAreEncodable(v, Sign1Type());
    var values := v.values;
    PartShapes(values[0], 0);
    PartShapes(values[2], 0);
    PartShapes(values[3], SIGNATURE_SIZE);
    TypesOk();
    EmptyHeaderShape(values[1]);
    var payload := if values[2].Nil? then None else Some(values[2].bytes);
    assert values == Sign1(values[0].bytes, payload, values[3].bytes).values;
  }

  /** The fields of an array struct that encodes, encode. */
  lemma {:induction false} FieldsAreEncodable(v: Value, s: Schema)
    requires s.SArray? && SchemaOk(s) && Encodable(v, s, false)
    ensures |v.values| == |s.fields|
    ensures forall i :: 0 <= i < |v.values| ==> Encodable(v.values[i], s.fields[i].schema, s.fields[i].optional)
  {
    EachFieldEncodes(v.values, s, 0);
  }

  lemma {:induction false} EachFieldEncodes(values: seq<Value>, s: Schema, i: nat)
    requires s.SArray? && SchemaOk(s) && TypedFrom(values, s, i) && i <= |values| && EncodeFields(values, s, i).Ok?
    ensures forall k :: i <= k < |values| ==> Encode(values[k], s.fields[k].schema, s.fields[k].optional).Ok?
    decreases |values| - i
  {
    if i < |values| {
      EachFieldEncodes(values, s, i + 1);
    }
  }

  /** A COSE_Encrypt0. */
  function Encrypt0(protected: Bytes, encapKey: Bytes, ciphertext: Bytes): Value {
    Struct([CborSchema.Blob(protected), Struct([CborSchema.Blob(encapKey)]), CborSchema.Blob(ciphertext)])
  }

  lemma {:induction false} Encrypt0Encodes(protected: Bytes, encapKey: Bytes, ciphertext: Bytes)
    requires |protected| <= MAX_INT && |encapKey| <= MAX_INT && |ciphertext| <= MAX_INT
    ensures Encodes(Encrypt0(protected, encapKey, ciphertext), Encrypt0Type())
  {
    hide Encodable, SchemaOk, Unambiguous, Encode;
    TypesOk();
    PartsEncode(0, protected);
    PartsEncode(0, encapKey);
    PartsEncode(0, ciphertext);
    StructEncodes([CborSchema.Blob(encapKey)], EncapKeyHeader());
    StructEncodes(Encrypt0(protected, encapKey, ciphertext).values, Encrypt0Type());
  }

  lemma {:induction false} Encrypt0Shape(v: Value)
    requires SchemaOk(Encrypt0Type()) && Encodable(v, Encrypt0Type(), false)
    ensures v.values[0].Blob? && |v.values[0].bytes| <= MAX_INT
    ensures v.values[1].values[0].Blob? && |v.values[1].values[0].bytes| <= MAX_INT
    ensures v.values[2].Blob? && |v.values[2].bytes| <= MAX_INT
    ensures v == Encrypt0(v.values[0].bytes, v.values[1].values[0].bytes, v.values[2].bytes)
  {
    hide Encodable, SchemaOk;
    IsStruct(v, Encrypt0Type());
    FieldsAreEncodable(v, Encrypt0Type());
    var values := v.values;
    PartShapes(values[0], 0);
    PartShapes(values[2], 0);
    TypesOk();
    EncapKeyShape(values[1]);
    assert values[1].values == [values[1].values[0]];
    assert values == Encrypt0(values[0].bytes, values[1].values[0].bytes, values[2].bytes).values;
  }

  lemma {:induction false} EncapKeyShape(v: Value)
    requires SchemaOk(EncapKeyHeader()) && Encodable(v, EncapKeyHeader(), false)
    ensures v.Struct? && |v.values| == 1 && v.values[0].Blob? && |v.values[0].bytes| <= MAX_INT
  {
    var order := SortedOrder([-4]);
    assert order == [0];
  }
}

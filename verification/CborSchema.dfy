/** Type-directed encoding: the Go types that Marshal and Unmarshal support, as schemas, and their values. */
module CborSchema {
  import opened Base
  import opened CborHeader
  import opened CborScalar
  import opened CborSkip
  import opened CborFieldOrder
  import opened Utf8
  import CborItem

  datatype Schema =
    | SBool | SUint | SInt | SText
    | SBytes                         // []byte
    | SFixed(n: nat)                 // [n]byte
    | SRaw                           // Raw
    | SUnit | SNull
    | SOption(elem: Schema)          // Option[T]
    | SPtr(elem: Schema)             // *T
    | SArray(fields: seq<Field>)     // struct with the array tag
    | SMap(keys: seq<int>, fields: seq<Field>)  // struct with key tags

  /** A struct field; the optional tag lets a nil slice or pointer stand for null. */
  datatype Field = Field(schema: Schema, optional: bool)

  datatype Value =
    | Bool(b: bool) | Uint(n: int) | Int(n: int) | Text(bytes: Bytes)
    | Blob(bytes: Bytes)             // a non-nil []byte, or an array
    | Nil                            // a nil []byte or pointer
    | RawItem(bytes: Bytes)
    | Unit | Null
    | None_ | Some_(value: Value)
    | Ref(value: Value)
    | Struct(values: seq<Value>)
    | Unset                          // a struct field that nothing was decoded into

  /** What any Go type has: counts that fit an int, and here also distinct keys, which mapFields does not check. */
  predicate SchemaOk(s: Schema)
    decreases s
  {
    match s
    case SFixed(n) => n <= MAX_INT
    case SOption(e) => SchemaOk(e)
    case SPtr(e) => SchemaOk(e)
    case SArray(fields) =>
      |fields| <= MAX_INT && forall i :: 0 <= i < |fields| ==> SchemaOk(fields[i].schema)
    case SMap(keys, fields) =>
      && |keys| == |fields| <= MAX_INT && KeysOk(keys)
      && forall i :: 0 <= i < |fields| ==> SchemaOk(fields[i].schema)
    case _ => true
  }

  /** v is a value of the Go type. */
  predicate HasType(v: Value, s: Schema)
    decreases s
  {
    match s
    case SBool => v.Bool?
    case SUint => v.Uint? && IsUint64(v.n)
    case SInt => v.Int? && IsInt64(v.n)
    case SText => v.Text? && |v.bytes| <= MAX_INT
    case SBytes => v.Nil? || (v.Blob? && |v.bytes| <= MAX_INT)
    case SFixed(n) => v.Blob? && |v.bytes| == n
    case SRaw => v.RawItem?
    case SUnit => v.Unit?
    case SNull => v.Null?
    case SOption(e) => v.None_? || (v.Some_? && HasType(v.value, e))
    case SPtr(e) => v.Nil? || (v.Ref? && HasType(v.value, e))
    case SArray(fields) =>
      v.Struct? && |v.values| == |fields| && forall i :: 0 <= i < |fields| ==> HasType(v.values[i], fields[i].schema)
    case SMap(keys, fields) =>
      v.Struct? && |v.values| == |fields| && forall i :: 0 <= i < |fields| ==> HasType(v.values[i], fields[i].schema)
  }

  // ---- Encoding ---------------------------------------------------------------------------------

  /** encodeValue. A Raw is passed through whatever it holds. */
  function Encode(v: Value, s: Schema, optional: bool): Result<Bytes, CborError>
    requires SchemaOk(s) && HasType(v, s)
    decreases s, 2, 0
  {
    match s
    case SBool => Ok([if v.b then TRUE_BYTE else FALSE_BYTE])
    case SUint => Ok(Header(MAJOR_UINT, v.n))
    case SInt => Ok(EncodeInt(v.n))
    case SText => if ValidUtf8(v.bytes) then Ok(Header(MAJOR_TEXT, |v.bytes|) + v.bytes) else Err(InvalidUtf8)
    case SBytes =>
      if v.Blob? then Ok(Header(MAJOR_BYTES, |v.bytes|) + v.bytes)
      else if optional then Ok([NULL_BYTE]) else Err(UnexpectedNil)
    case SFixed(n) => Ok(Header(MAJOR_BYTES, n) + v.bytes)
    case SRaw => Ok(v.bytes)
    case SUnit => Ok(Header(MAJOR_ARRAY, 0))
    case SNull => Ok([NULL_BYTE])
    case SOption(e) => if v.Some_? then Encode(v.value, e, false) else Ok([NULL_BYTE])
    case SPtr(e) =>
      if v.Ref? then Encode(v.value, e, false)
      else if optional then Ok([NULL_BYTE]) else Err(UnexpectedNil)
    case SArray(fields) =>
      var body :- EncodeFields(v.values, s, 0);
      Ok(Header(MAJOR_ARRAY, |fields|) + body)
    case SMap(keys, fields) =>
      var body :- EncodeEntries(v.values, s, SortedOrder(keys));
      Ok(Header(MAJOR_MAP, |fields|) + body)
  }

  /** There are values of the right types from position i on. */
  ghost predicate TypedFrom(values: seq<Value>, s: Schema, i: nat)
    requires s.SArray?
  {
    |values| == |s.fields| && forall k :: i <= k < |values| ==> HasType(values[k], s.fields[k].schema)
  }

  /** The fields of an array struct from i on. */
  function EncodeFields(values: seq<Value>, s: Schema, i: nat): Result<Bytes, CborError>
    requires s.SArray? && SchemaOk(s) && TypedFrom(values, s, i) && i <= |values|
    decreases s, 1, |values| - i
  {
    if i == |values| then Ok([])
    else
      var first :- Encode(values[i], s.fields[i].schema, s.fields[i].optional);
      var others :- EncodeFields(values, s, i + 1);
      Ok(first + others)
  }

  /** There are values of the right types at these positions. */
  ghost predicate TypedAt(values: seq<Value>, s: Schema, order: seq<nat>)
    requires s.SMap?
  {
    |values| == |s.fields| && forall i :: 0 <= i < |order| ==> order[i] < |values| && HasType(values[order[i]], s.fields[order[i]].schema)
  }

  /** The keys and fields of a map struct at the given positions. */
  function EncodeEntries(values: seq<Value>, s: Schema, order: seq<nat>): Result<Bytes, CborError>
    requires s.SMap? && SchemaOk(s) && TypedAt(values, s, order)
    decreases s, 1, |order|
  {
    if order == [] then Ok([])
    else
      var j := order[0];
      var first :- Encode(values[j], s.fields[j].schema, s.fields[j].optional);
      var others :- EncodeEntries(values, s, order[1..]);
      Ok(EncodeInt(s.keys[j]) + (first + others))
  }

  /** Marshal. */
  function Marshal(v: Value, s: Schema): Result<Bytes, CborError>
    requires SchemaOk(s) && HasType(v, s)
  {
    Encode(v, s, false)
  }

  // ---- Decoding ---------------------------------------------------------------------------------

  function Mapped<T, U>(r: Result<Parsed<T>, CborError>, f: T -> U): Result<Parsed<U>, CborError> {
    match r
    case Err(e) => Err(e)
    case Ok(p) => Ok(Parsed(f(p.value), p.rest))
  }

  /** A struct nothing was decoded into. */
  function Blank(n: nat): (values: seq<Value>)
    ensures |values| == n
  {
    seq(n, _ => Unset)
  }

  /** decodeValue, on the bytes from the cursor on. Only one pointer is followed. */
  function Decode(d: Bytes, s: Schema, optional: bool): Result<Parsed<Value>, CborError>
    requires SchemaOk(s)
    decreases s, 2, 0
  {
    match s
    case SBool => Mapped(ReadBool(d), b => Bool(b))
    case SUint => Mapped(ReadArgument(d, MAJOR_UINT), n => Uint(n))
    case SInt => Mapped(ReadInt(d), n => Int(n))
    case SText => Mapped(ReadText(d), b => Text(b))
    case SBytes =>
      if PeekNull(d) then if optional then Ok(Parsed(Nil, d[1..])) else Err(UnexpectedNull)
      else Mapped(ReadBlob(d), b => Blob(b))
    case SFixed(n) => Mapped(ReadFixed(d, n), b => Blob(b))
    case SRaw => DecodeRaw(d)
    case SUnit =>
      var n :- ReadArgument(d, MAJOR_ARRAY);
      if n.value != 0 then Err(UnexpectedItemCount) else Ok(Parsed(Unit, n.rest))
    case SNull =>
      var rest :- ReadNull(d);
      Ok(Parsed(Null, rest))
    case SOption(e) =>
      if PeekNull(d) then Ok(Parsed(None_, d[1..]))
      else Mapped(Decode(d, e, false), x => Some_(x))
    case SPtr(e) =>
      if !e.SOption? && PeekNull(d) then if optional then Ok(Parsed(Nil, d[1..])) else Err(UnexpectedNull)
      else if e.SPtr? then Err(UnsupportedType)
      else Mapped(Decode(d, e, false), x => Ref(x))
    case SArray(fields) =>
      var n :- ReadArgument(d, MAJOR_ARRAY);
      if ToInt64(n.value) != |fields| then Err(UnexpectedItemCount)
      else Mapped(DecodeFields(n.rest, s, 0), values => Struct(values))
    case SMap(keys, fields) =>
      var n :- ReadArgument(d, MAJOR_MAP);
      if ToInt64(n.value) != |fields| then Err(UnexpectedItemCount)
      else Mapped(DecodeEntries(n.rest, s, |fields|, None, Blank(|fields|)), values => Struct(values))
  }

  /** A Raw takes the bytes of one item as they are. */
  function DecodeRaw(d: Bytes): Result<Parsed<Value>, CborError> {
    var rest :- Skip(d, CborItem.MAX_DEPTH);
    SkippedIsOneItem(d);
    Ok(Parsed(RawItem(d[..|d| - |rest|]), rest))
  }

  function DecodeFields(d: Bytes, s: Schema, i: nat): (r: Result<Parsed<seq<Value>>, CborError>)
    requires s.SArray? && SchemaOk(s) && i <= |s.fields|
    ensures r.Ok? ==> |r.value.value| == |s.fields| - i
    decreases s, 1, |s.fields| - i
  {
    if i == |s.fields| then Ok(Parsed([], d))
    else
      var first :- Decode(d, s.fields[i].schema, s.fields[i].optional);
      var others :- DecodeFields(first.rest, s, i + 1);
      Ok(Parsed([first.value] + others.value, others.rest))
  }

  /** The checks on a key, given the one before it. */
  function CheckKey(prev: Option<int>, key: int, keys: seq<int>): (r: Result<nat, CborError>)
    requires IsInt64(key) && (prev.Some? ==> IsInt64(prev.value))
    ensures r.Ok? ==> r.value < |keys| && keys[r.value] == key
  {
    if prev.Some? && MapKeyCmp(prev.value, key) == 0 then Err(DuplicateMapKey)
    else if prev.Some? && MapKeyCmp(prev.value, key) > 0 then Err(InvalidMapKeyOrder)
    else match PositionOf(keys, key)
      case None => Err(UnsupportedType)
      case Some(j) => Ok(j)
  }

  /** The loop over a map's entries: n more of them, the key before, and the fields set so far. */
  function DecodeEntries(d: Bytes, s: Schema, n: nat, prev: Option<int>, values: seq<Value>)
    : (r: Result<Parsed<seq<Value>>, CborError>)
    requires s.SMap? && SchemaOk(s) && |values| == |s.fields| && (prev.Some? ==> IsInt64(prev.value))
    ensures r.Ok? ==> |r.value.value| == |s.fields|
    decreases s, 1, n
  {
    if n == 0 then Ok(Parsed(values, d))
    else
      var key :- ReadInt(d);
      EncodeIntInvertsReadInt(d);
      var j :- CheckKey(prev, key.value, s.keys);
      var x :- Decode(key.rest, s.fields[j].schema, s.fields[j].optional);
      DecodeEntries(x.rest, s, n - 1, Some(key.value), values[j := x.value])
  }

  /** Unmarshal into a variable of the type, which is reached through a pointer that is not nil. */
  function Unmarshal(data: Bytes, s: Schema): Result<Value, CborError>
    requires SchemaOk(s)
  {
    var p :- Decode(data, SPtr(s), false);
    if p.rest != [] then Err(TrailingBytes)
    else Ok(p.value.value)
  }
}

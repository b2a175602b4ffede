/** What Marshal writes, as CBOR items: the encoding by schema against the encoding of item trees. */
module CborMarshalItems {
  import opened Base
  import opened CborHeader
  import opened CborScalar
  import opened CborSkip
  import opened CborFieldOrder
  import opened CborSchema
  import opened CborRoundTrip
  import opened Utf8
  import CborItem

  /** Every Raw inside passes Verify on its own. */
  predicate RawsVerify(v: Value)
    decreases v
  {
    match v
    case RawItem(b) => CborItem.Verify(b) == None
    case Some_(x) => RawsVerify(x)
    case Ref(x) => RawsVerify(x)
    case Struct(values) => forall i :: 0 <= i < |values| ==> RawsVerify(values[i])
    case _ => true
  }

  ghost predicate RawsVerifyFrom(values: seq<Value>, i: nat) {
    forall k :: i <= k < |values| ==> RawsVerify(values[k])
  }

  ghost predicate RawsVerifyAt(values: seq<Value>, order: seq<nat>) {
    forall i :: 0 <= i < |order| && order[i] < |values| ==> RawsVerify(values[order[i]])
  }

  function NullItem(): CborItem.Item {
    CborItem.Simple(22)
  }

  /** The item that a value stands for: an array of the fields in order, or a map of them in order of their keys. */
  function ToItem(v: Value, s: Schema): CborItem.Item
    requires SchemaOk(s) && RawsVerify(v) && HasType(v, s)
    decreases s, 2, 0
  {
    match s
    case SBool => CborItem.Simple(if v.b then 21 else 20)
    case SUint => CborItem.UInt(v.n)
    case SInt => if v.n >= 0 then CborItem.UInt(v.n) else CborItem.NInt(-1 - v.n)
    case SText => CborItem.Text(v.bytes)
    case SBytes => if v.Nil? then NullItem() else CborItem.Blob(v.bytes)
    case SFixed(_) => CborItem.Blob(v.bytes)
    case SRaw => CborItem.Parse(v.bytes, CborItem.MAX_DEPTH).value.value
    case SUnit => CborItem.Array([])
    case SNull => NullItem()
    case SOption(e) => if v.None_? then NullItem() else ToItem(v.value, e)
    case SPtr(e) => if v.Nil? then NullItem() else ToItem(v.value, e)
    case SArray(_) => CborItem.Array(ToItems(v.values, s, 0))
    case SMap(keys, _) => CborItem.Map(KeysAt(keys, SortedOrder(keys)), ItemsAt(v.values, s, SortedOrder(keys)))
  }

  function ToItems(values: seq<Value>, s: Schema, i: nat): (items: seq<CborItem.Item>)
    requires s.SArray? && SchemaOk(s) && TypedFrom(values, s, i) && RawsVerifyFrom(values, i) && i <= |values|
    ensures |items| == |values| - i
    decreases s, 1, |values| - i
  {
    if i == |values| then [] else [ToItem(values[i], s.fields[i].schema)] + ToItems(values, s, i + 1)
  }

  function KeysAt(keys: seq<int>, order: seq<nat>): (r: seq<int>)
    requires forall i :: 0 <= i < |order| ==> order[i] < |keys|
    ensures |r| == |order|
  {
    if order == [] then [] else [keys[order[0]]] + KeysAt(keys, order[1..])
  }

  function ItemsAt(values: seq<Value>, s: Schema, order: seq<nat>): (items: seq<CborItem.Item>)
    requires s.SMap? && SchemaOk(s) && TypedAt(values, s, order) && RawsVerifyAt(values, order)
    ensures |items| == |order|
    decreases s, 1, |order|
  {
    if order == [] then [] else [ToItem(values[order[0]], s.fields[order[0]].schema)] + ItemsAt(values, s, order[1..])
  }

  /** The bytes written are the canonical encoding of the item. */
  ghost predicate WritesItem(b: Bytes, i: CborItem.Item) {
    CborItem.WellFormed(i) && b == CborItem.Encode(i)
  }

  lemma {:induction false} ScalarWritesItem(v: Value, s: Schema, optional: bool)
    requires SchemaOk(s) && RawsVerify(v) && HasType(v, s) && Encode(v, s, optional).Ok?
    requires !s.SOption? && !s.SPtr? && !s.SArray? && !s.SMap?
    ensures WritesItem(Encode(v, s, optional).value, ToItem(v, s))
  {
    hide ValidUtf8, Header;
    SimpleHeaders();
    match s
    case SRaw => RawWritesItem(v);
    case SUnit =>
      assert Header(MAJOR_ARRAY, 0) + [] == Header(MAJOR_ARRAY, 0);
    case _ =>
  }

  lemma {:induction false} RawWritesItem(v: Value)
    requires v.RawItem? && RawsVerify(v)
    ensures WritesItem(v.bytes, ToItem(v, SRaw))
  {
    CborItem.EncodeInvertsParse(v.bytes, CborItem.MAX_DEPTH);
    assert CborItem.Encode(ToItem(v, SRaw)) + [] == CborItem.Encode(ToItem(v, SRaw));
  }

  lemma SimpleHeaders()
    ensures Header(MAJOR_SIMPLE, SIMPLE_FALSE) == [FALSE_BYTE] && Header(MAJOR_SIMPLE, SIMPLE_TRUE) == [TRUE_BYTE]
    ensures Header(MAJOR_SIMPLE, SIMPLE_NULL) == [NULL_BYTE]
  {
  }

  /** Marshal writes the item that the value stands for. */
  lemma {:induction false} EncodeWritesItem(v: Value, s: Schema, optional: bool)
    requires SchemaOk(s) && RawsVerify(v) && HasType(v, s) && Encode(v, s, optional).Ok?
    ensures WritesItem(Encode(v, s, optional).value, ToItem(v, s))
    decreases s, 2, 0
  {
    hide Header, WritesItem, ValidUtf8, EncodeInt, EncodeFields, EncodeEntries, ToItems, ItemsAt, KeysAt, SortedOrder;
    hide CborItem.Verify, CborItem.Parse, CborItem.Encode, CborItem.WellFormed;
    if s.SOption? || s.SPtr? {
      if v.Some_? || v.Ref? {
        EncodeWritesItem(v.value, s.elem, false);
      } else {
        NullWritesItem();
      }
    } else if s.SArray? {
      FieldsWriteItems(v.values, s, 0);
      ArrayWritesItem(v, s, optional);
    } else if s.SMap? {
      SortedOrderIsOrdered(s.keys);
      EntriesWriteItems(v.values, s, SortedOrder(s.keys), None);
      MapWritesItem(v, s, optional);
    } else {
      ScalarWritesItem(v, s, optional);
    }
  }

  lemma NullWritesItem()
    ensures WritesItem([NULL_BYTE], NullItem())
  {
    SimpleHeaders();
  }

  lemma {:induction false} ArrayWritesItem(v: Value, s: Schema, optional: bool)
    requires SchemaOk(s) && RawsVerify(v) && HasType(v, s) && s.SArray? && EncodeFields(v.values, s, 0).Ok?
    requires var items := ToItems(v.values, s, 0);
             CborItem.ItemsWellFormed(items) && EncodeFields(v.values, s, 0).value == CborItem.EncodeItems(items)
    ensures Encode(v, s, optional).Ok? && WritesItem(Encode(v, s, optional).value, ToItem(v, s))
  {
    hide Header, EncodeFields, ToItems, CborItem.EncodeItems, CborItem.ItemsWellFormed;
  }

  lemma {:induction false} MapWritesItem(v: Value, s: Schema, optional: bool)
    requires SchemaOk(s) && RawsVerify(v) && HasType(v, s) && s.SMap? && EncodeEntries(v.values, s, SortedOrder(s.keys)).Ok?
    requires |SortedOrder(s.keys)| == |s.keys|
    requires var keys, items := KeysAt(s.keys, SortedOrder(s.keys)), ItemsAt(v.values, s, SortedOrder(s.keys));
             && CborItem.Increasing(keys, None) && CborItem.ItemsWellFormed(items)
             && EncodeEntries(v.values, s, SortedOrder(s.keys)).value == CborItem.EncodeEntries(keys, items, None)
    ensures Encode(v, s, optional).Ok? && WritesItem(Encode(v, s, optional).value, ToItem(v, s))
  {
    hide Header, EncodeEntries, SortedOrder, KeysAt, ItemsAt, CborItem.EncodeEntries, CborItem.ItemsWellFormed, CborItem.Increasing;
  }

  lemma {:induction false} FieldsWriteItems(values: seq<Value>, s: Schema, i: nat)
    requires s.SArray? && SchemaOk(s) && TypedFrom(values, s, i) && RawsVerifyFrom(values, i) && i <= |values| && EncodeFields(values, s, i).Ok?
    ensures var items := ToItems(values, s, i);
            CborItem.ItemsWellFormed(items) && EncodeFields(values, s, i).value == CborItem.EncodeItems(items)
    decreases s, 1, |values| - i
  {
    hide CborItem.Encode, CborItem.WellFormed, Encode, HasType;
    if i < |values| {
      EncodeWritesItem(values[i], s.fields[i].schema, s.fields[i].optional);
      FieldsWriteItems(values, s, i + 1);
      assert ToItems(values, s, i)[1..] == ToItems(values, s, i + 1);
    }
  }

  lemma {:induction false} EntriesWriteItems(values: seq<Value>, s: Schema, order: seq<nat>, prev: Option<int>)
    requires s.SMap? && SchemaOk(s) && TypedAt(values, s, order) && RawsVerifyAt(values, order) && EncodeEntries(values, s, order).Ok?
    requires Ordered(s.keys, order)
    requires prev.Some? ==> IsInt64(prev.value) && (order != [] ==> KeyRank(prev.value) < KeyRank(s.keys[order[0]]))
    ensures var keys, items := KeysAt(s.keys, order), ItemsAt(values, s, order);
            && CborItem.Increasing(keys, prev) && CborItem.ItemsWellFormed(items)
            && EncodeEntries(values, s, order).value == CborItem.EncodeEntries(keys, items, prev)
    decreases s, 1, |order|
  {
    hide CborItem.Encode, CborItem.WellFormed, Encode, HasType, EncodeInt, MapKeyCmp;
    if order != [] {
      var j, tail := order[0], order[1..];
      var key := s.keys[j];
      assert order == [j] + tail;
      OrderedCons(s.keys, j, tail);
      if prev.Some? {
        MapKeyCmpIsRankOrder(prev.value, key);
      }
      EncodeWritesItem(values[j], s.fields[j].schema, s.fields[j].optional);
      EntriesWriteItems(values, s, tail, Some(key));
      assert KeysAt(s.keys, order)[1..] == KeysAt(s.keys, tail) && ItemsAt(values, s, order)[1..] == ItemsAt(values, s, tail);
    }
  }

  // ---- What Verify makes of what Marshal writes -------------------------------------------------

  lemma {:induction false} ItemIsWalked(b: Bytes, i: CborItem.Item, depth: nat, rest: Bytes)
    requires WritesItem(b, i) && CborItem.Parse(b + rest, depth).Ok?
    ensures CborItem.Parse(b + rest, depth).value.rest == rest
  {
    hide CborItem.Parse, CborItem.Encode, CborItem.WellFormed, CborItem.Height;
    var p := CborItem.Parse(b + rest, depth).value;
    CborItem.EncodeInvertsParse(b + rest, depth);
    CborItem.EncodingsArePrefixFree(i, p.value, rest, p.rest);
  }

  /** If one item is found where a Raw was written, then it is all that the Raw holds. */
  lemma {:induction false} RawIsWalked(raw: Bytes, depth: nat, rest: Bytes)
    requires IsOneItem(raw) && depth <= CborItem.MAX_DEPTH && CborItem.Parse(raw + rest, depth).Ok?
    ensures CborItem.Verify(raw) == None && CborItem.Parse(raw + rest, depth).value.rest == rest
  {
    hide Skip, CborItem.Parse, CborItem.Encode, CborItem.WellFormed, CborItem.Height, CborItem.Verify;
    var p := CborItem.Parse(raw + rest, depth).value;
    SkipFollowsParse(raw + rest, depth);
    SkipDeeper(raw + rest, depth, CborItem.MAX_DEPTH);
    OneItemSkips(raw, rest);
    CborItem.EncodeInvertsParse(raw + rest, depth);
    SamePrefix(raw, CborItem.Encode(p.value), rest);
    CborItem.VerifyAcceptsExactlyEncodings(raw);
    assert CborItem.IsEncodingOf(raw, p.value);
  }

  lemma SamePrefix(a: Bytes, b: Bytes, rest: Bytes)
    requires a + rest == b + rest
    ensures a == b
  {
    assert |a| == |b| && (a + rest)[..|a|] == a && (b + rest)[..|b|] == b;
  }

  /** The walk over what was encoded, if it succeeds, has every Raw inside pass Verify, and ends where the encoding does. */
  lemma {:induction false} EncodedIsWalked(v: Value, s: Schema, optional: bool, depth: nat, rest: Bytes)
    requires SchemaOk(s) && Encodable(v, s, optional) && depth <= CborItem.MAX_DEPTH
    requires CborItem.Parse(Encode(v, s, optional).value + rest, depth).Ok?
    ensures RawsVerify(v) && CborItem.Parse(Encode(v, s, optional).value + rest, depth).value.rest == rest
    decreases s, 2, 0
  {
    hide CborItem.Parse, WritesItem, IsOneItem, CborItem.Verify;
    if s.SRaw? {
      RawIsWalked(v.bytes, depth, rest);
    } else if s.SOption? || s.SPtr? {
      if v.Some_? || v.Ref? {
        EncodedIsWalked(v.value, s.elem, false, depth, rest);
      } else {
        NullWritesItem();
        ItemIsWalked([NULL_BYTE], NullItem(), depth, rest);
      }
    } else if s.SArray? {
      ArrayIsWalked(v, s, optional, depth, rest);
    } else if s.SMap? {
      MapIsWalked(v, s, optional, depth, rest);
    } else {
      ScalarWritesItem(v, s, optional);
      ItemIsWalked(Encode(v, s, optional).value, ToItem(v, s), depth, rest);
    }
  }

  lemma {:induction false} ArrayIsWalked(v: Value, s: Schema, optional: bool, depth: nat, rest: Bytes)
    requires SchemaOk(s) && s.SArray? && Encodable(v, s, optional) && depth <= CborItem.MAX_DEPTH
    requires CborItem.Parse(Encode(v, s, optional).value + rest, depth).Ok?
    ensures RawsVerify(v) && CborItem.Parse(Encode(v, s, optional).value + rest, depth).value.rest == rest
    decreases s, 1, |s.fields| + 1
  {
    hide Header, ReadHead, EncodeFields, CborItem.ParseItems, ReadBytes;
    var body := EncodeFields(v.values, s, 0).value;
    ConcatAssoc(Header(MAJOR_ARRAY, |s.fields|), body, rest);
    ReadHeadInvertsHeader(MAJOR_ARRAY, |s.fields|, body + rest);
    FieldsAreWalked(v.values, s, 0, depth - 1, rest);
  }

  lemma {:induction false} FieldsAreWalked(values: seq<Value>, s: Schema, i: nat, depth: nat, rest: Bytes)
    requires s.SArray? && SchemaOk(s) && TypedFrom(values, s, i) && i <= |values| && EncodeFields(values, s, i).Ok?
    requires (forall k :: i <= k < |values| ==> RawsAreItems(values[k])) && depth <= CborItem.MAX_DEPTH
    requires CborItem.ParseItems(EncodeFields(values, s, i).value + rest, depth, |values| - i).Ok?
    ensures RawsVerifyFrom(values, i)
    ensures CborItem.ParseItems(EncodeFields(values, s, i).value + rest, depth, |values| - i).value.rest == rest
    decreases s, 1, |values| - i
  {
    hide CborItem.Parse, Encode, HasType, RawsAreItems, RawsVerify;
    if i == |values| {
      assert [] + rest == rest;
    } else {
      var f := s.fields[i];
      var first, others := Encode(values[i], f.schema, f.optional).value, EncodeFields(values, s, i + 1).value;
      ConcatAssoc(first, others, rest);
      EncodedIsWalked(values[i], f.schema, f.optional, depth, others + rest);
      FieldsAreWalked(values, s, i + 1, depth, rest);
    }
  }

  lemma {:induction false} MapIsWalked(v: Value, s: Schema, optional: bool, depth: nat, rest: Bytes)
    requires SchemaOk(s) && s.SMap? && Encodable(v, s, optional) && depth <= CborItem.MAX_DEPTH
    requires CborItem.Parse(Encode(v, s, optional).value + rest, depth).Ok?
    ensures RawsVerify(v) && CborItem.Parse(Encode(v, s, optional).value + rest, depth).value.rest == rest
    decreases s, 1, |s.fields| + 1
  {
    hide Header, ReadHead, EncodeEntries, CborItem.ParseEntries, SortedOrder, Ordered, KeysOk, RawsVerify, RawsVerifyAt;
    var order := SortedOrder(s.keys);
    var body := EncodeEntries(v.values, s, order).value;
    SortedOrderIsOrdered(s.keys);
    ConcatAssoc(Header(MAJOR_MAP, |s.fields|), body, rest);
    ReadHeadInvertsHeader(MAJOR_MAP, |s.fields|, body + rest);
    EntriesAreWalked(v.values, s, order, None, depth - 1, rest);
    AllFieldsVerify(v.values, s.keys, order);
  }

  lemma {:induction false} AllFieldsVerify(values: seq<Value>, keys: seq<int>, order: seq<nat>)
    requires KeysOk(keys) && Ordered(keys, order) && |order| == |keys| == |values| && RawsVerifyAt(values, order)
    ensures RawsVerify(Struct(values))
  {
    OrderedIsComplete(keys, order);
    hide KeysOk, Ordered;
    forall x: nat | x < |values|
      ensures RawsVerify(values[x])
    {
      assert x in order;
    }
  }

  lemma {:induction false} EntriesAreWalked(values: seq<Value>, s: Schema, order: seq<nat>, prev: Option<int>, depth: nat, rest: Bytes)
    requires s.SMap? && SchemaOk(s) && TypedAt(values, s, order) && RawsAt(values, order) && EncodeEntries(values, s, order).Ok?
    requires (prev.Some? ==> IsInt64(prev.value)) && depth <= CborItem.MAX_DEPTH
    requires CborItem.ParseEntries(EncodeEntries(values, s, order).value + rest, depth, |order|, prev).Ok?
    ensures RawsVerifyAt(values, order)
    ensures CborItem.ParseEntries(EncodeEntries(values, s, order).value + rest, depth, |order|, prev).value.rest == rest
    decreases s, 1, |order|
  {
    hide CborItem.Parse, Encode, HasType, RawsAreItems, RawsVerify, EncodeInt, ReadInt, MapKeyCmp;
    if order == [] {
      assert [] + rest == rest;
    } else {
      var j, tail := order[0], order[1..];
      assert order == [j] + tail;
      var f, key := s.fields[j], s.keys[j];
      var first, others := Encode(values[j], f.schema, f.optional).value, EncodeEntries(values, s, tail).value;
      ConcatAssoc(EncodeInt(key), first + others, rest);
      ConcatAssoc(first, others, rest);
      ReadIntInvertsEncodeInt(key, first + (others + rest));
      EncodedIsWalked(values[j], f.schema, f.optional, depth, others + rest);
      EntriesAreWalked(values, s, tail, Some(key), depth, rest);
    }
  }

  lemma {:induction false} WrittenVerifies(b: Bytes, i: CborItem.Item)
    requires WritesItem(b, i)
    ensures CborItem.Verify(b) == None <==> CborItem.Height(i) <= CborItem.MAX_DEPTH
  {
    hide CborItem.Encode, CborItem.WellFormed, CborItem.Verify, CborItem.Height;
    CborItem.VerifyAcceptsExactlyEncodings(b);
    if CborItem.Height(i) <= CborItem.MAX_DEPTH {
      assert CborItem.IsEncodingOf(b, i);
    }
    if j :| CborItem.IsEncodingOf(b, j) {
      assert b + [] == b;
      CborItem.EncodingsArePrefixFree(i, j, [], []);
    }
  }

  lemma {:induction false} VerifiedWasWalked(v: Value, s: Schema)
    requires SchemaOk(s) && Encodable(v, s, false) && CborItem.Verify(Encode(v, s, false).value) == None
    ensures RawsVerify(v)
  {
    hide Encode, HasType, RawsAreItems, RawsVerify, CborItem.Parse;
    var b := Encode(v, s, false).value;
    assert b + [] == b;
    EncodedIsWalked(v, s, false, CborItem.MAX_DEPTH, []);
  }

  /** What Marshal writes is accepted by Verify just when every Raw inside is, and nothing is nested too deeply. */
  lemma {:induction false} MarshalledVerifiesExactly(v: Value, s: Schema)
    requires SchemaOk(s) && Encodable(v, s, false)
    ensures CborItem.Verify(Marshal(v, s).value) == None
       <==> RawsVerify(v) && CborItem.Height(ToItem(v, s)) <= 32
  {
    hide WritesItem, CborItem.Height, CborItem.Verify, Encode, HasType, RawsAreItems, RawsVerify, ToItem, SchemaOk;
    if CborItem.Verify(Encode(v, s, false).value) == None {
      VerifiedWasWalked(v, s);
    }
    if RawsVerify(v) {
      EncodeWritesItem(v, s, false);
      WrittenVerifies(Encode(v, s, false).value, ToItem(v, s));
    }
  }

  /** An array struct with a Raw as its only field. */
  lemma {:induction false} LoneRaw(raw: Bytes)
    requires IsOneItem(raw)
    ensures var v, s := Struct([RawItem(raw)]), SArray([Field(SRaw, false)]);
            SchemaOk(s) && Encodable(v, s, false) && Marshal(v, s) == Ok(Header(MAJOR_ARRAY, 1) + raw)
  {
    hide IsOneItem, Header;
    var v, s := Struct([RawItem(raw)]), SArray([Field(SRaw, false)]);
    assert EncodeFields(v.values, s, 1) == Ok([]) && raw + [] == raw;
    assert EncodeFields(v.values, s, 0) == Ok(raw);
    assert RawsAreItems(v.values[0]);
  }

  /** A Raw can hold what Verify refuses: here text that is not UTF-8, in a value that is not deep at all. */
  lemma {:induction false} RawCanFailVerify()
    ensures var v, s := Struct([RawItem([0x61, 0xff])]), SArray([Field(SRaw, false)]);
            && SchemaOk(s) && Encodable(v, s, false) && Marshal(v, s) == Ok([0x81, 0x61, 0xff])
            && CborItem.Verify([0x81, 0x61, 0xff]) != None
  {
    hide CborItem.Verify, IsOneItem, Encode, ToItem;
    var raw: Bytes := [0x61, 0xff];
    var v, s := Struct([RawItem(raw)]), SArray([Field(SRaw, false)]);
    TextThatIsNot();
    LoneRaw(raw);
    MarshalledVerifiesExactly(v, s);
    assert Header(MAJOR_ARRAY, 1) + raw == [0x81, 0x61, 0xff];
    assert !RawsVerify(v.values[0]);
  }

  lemma TextThatIsNot()
    ensures IsOneItem([0x61, 0xff]) && CborItem.Verify([0x61, 0xff]) != None
  {
    var raw: Bytes, text: Bytes := [0x61, 0xff], [0xff];
    assert raw[1..] == text && text[..1] == text && text[1..] == [];
    assert ReadHead(raw) == Ok(Head(MAJOR_TEXT, 1, text));
    assert ReadBytes(text, 1) == Ok(Parsed(text, []));
    assert CharLength(text) == 0;
    hide ReadHead, ReadBytes;
    assert CborItem.Parse(raw, 32) == Err(InvalidUtf8);
    assert Skip(raw, 32) == Ok([]);
    assert IsOneItem(raw);
    assert CborItem.Verify(raw) != None;
  }

  // ---- Structs by their fields ------------------------------------------------------------------

  lemma {:induction false} ToItemsAt(values: seq<Value>, s: Schema, i: nat, k: nat)
    requires s.SArray? && SchemaOk(s) && TypedFrom(values, s, i) && RawsVerifyFrom(values, i) && i <= k < |values|
    ensures ToItems(values, s, i)[k - i] == ToItem(values[k], s.fields[k].schema)
    decreases k - i
  {
    hide ToItem, HasType, RawsVerify;
    if i < k {
      ToItemsAt(values, s, i + 1, k);
    }
  }

  lemma {:induction false} EntriesAt(values: seq<Value>, s: Schema, order: seq<nat>, k: nat)
    requires s.SMap? && SchemaOk(s) && TypedAt(values, s, order) && RawsVerifyAt(values, order) && k < |order|
    ensures KeysAt(s.keys, order)[k] == s.keys[order[k]]
    ensures ItemsAt(values, s, order)[k] == ToItem(values[order[k]], s.fields[order[k]].schema)
    decreases k
  {
    hide ToItem, HasType, RawsVerify;
    if k > 0 {
      EntriesAt(values, s, order[1..], k - 1);
    }
  }

  /** v is a value of the type, and this is its item. */
  ghost predicate StandsFor(v: Value, s: Schema, i: CborItem.Item) {
    SchemaOk(s) && RawsVerify(v) && HasType(v, s) && ToItem(v, s) == i
  }

  ghost predicate FieldsStandFor(values: seq<Value>, fields: seq<Field>, items: seq<CborItem.Item>) {
    |values| == |fields| == |items| && forall k :: 0 <= k < |values| ==> StandsFor(values[k], fields[k].schema, items[k])
  }

  lemma {:induction false} FieldsHaveType(values: seq<Value>, s: Schema, items: seq<CborItem.Item>)
    requires (s.SArray? || s.SMap?) && |s.fields| <= MAX_INT && FieldsStandFor(values, s.fields, items)
    requires s.SMap? ==> |s.keys| == |s.fields| && KeysOk(s.keys)
    ensures SchemaOk(s) && RawsVerify(Struct(values)) && HasType(Struct(values), s)
  {
    assert forall k :: 0 <= k < |values| ==> StandsFor(values[k], s.fields[k].schema, items[k]);
    hide ToItem;
  }

  /** An array struct stands for the array of what its fields stand for. */
  lemma {:induction false} ArrayStandsFor(values: seq<Value>, fields: seq<Field>, items: seq<CborItem.Item>)
    requires |fields| <= MAX_INT && FieldsStandFor(values, fields, items)
    ensures StandsFor(Struct(values), SArray(fields), CborItem.Array(items))
  {
    var s := SArray(fields);
    FieldsHaveType(values, s, items);
    ArrayContents(values, s, items);
  }

  lemma {:induction false} ArrayContents(values: seq<Value>, s: Schema, items: seq<CborItem.Item>)
    requires s.SArray? && SchemaOk(s) && TypedFrom(values, s, 0) && RawsVerifyFrom(values, 0) && FieldsStandFor(values, s.fields, items)
    ensures ToItems(values, s, 0) == items
  {
    hide HasType, SchemaOk, RawsVerify, ToItem;
    forall k | 0 <= k < |items|
      ensures ToItems(values, s, 0)[k] == items[k]
    {
      assert StandsFor(values[k], s.fields[k].schema, items[k]);
      ToItemsAt(values, s, 0, k);
    }
  }

  /** Keys in the order in which they are written. */
  predicate InOrder(keys: seq<int>) {
    forall i, j :: 0 <= i < j < |keys| ==> KeyRank(keys[i]) < KeyRank(keys[j])
  }

  lemma SortedAlready(keys: seq<int>)
    requires KeysOk(keys) && InOrder(keys)
    ensures SortedOrder(keys) == seq(|keys|, k => k)
  {
    var order: seq<nat> := seq(|keys|, k => k);
    SortedOrderIsOrdered(keys);
    OrderedIsUnique(keys, SortedOrder(keys), order);
  }

  /** A map struct whose keys are declared in order stands for the map of what its fields stand for. */
  lemma {:induction false} MapStandsFor(values: seq<Value>, keys: seq<int>, fields: seq<Field>, items: seq<CborItem.Item>)
    requires |keys| == |fields| <= MAX_INT && KeysOk(keys) && InOrder(keys) && FieldsStandFor(values, fields, items)
    ensures StandsFor(Struct(values), SMap(keys, fields), CborItem.Map(keys, items))
  {
    hide KeysOk, InOrder, SortedOrder;
    var s := SMap(keys, fields);
    FieldsHaveType(values, s, items);
    SortedAlready(keys);
    MapContents(values, s, SortedOrder(keys), items);
  }

  lemma {:induction false} MapContents(values: seq<Value>, s: Schema, order: seq<nat>, items: seq<CborItem.Item>)
    requires s.SMap? && SchemaOk(s) && TypedAt(values, s, order) && RawsVerifyAt(values, order) && FieldsStandFor(values, s.fields, items)
    requires order == seq(|s.keys|, k => k) && |s.keys| == |s.fields|
    ensures KeysAt(s.keys, order) == s.keys && ItemsAt(values, s, order) == items
  {
    hide HasType, SchemaOk, RawsVerify, ToItem;
    forall k | 0 <= k < |items|
      ensures KeysAt(s.keys, order)[k] == s.keys[k] && ItemsAt(values, s, order)[k] == items[k]
    {
      assert StandsFor(values[k], s.fields[k].schema, items[k]);
      EntriesAt(values, s, order, k);
    }
  }
}

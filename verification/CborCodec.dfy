/** The low-level Encoder and Decoder, and the two walkers that share a Decoder's cursor. */
module CborCodec {
  import opened Base
  import opened BigEndianBytes
  import opened CborHeader
  import opened CborScalar
  import opened Utf8
  import opened CborItem
  import opened CborSkip

  class Encoder {
    var buf: Bytes

    constructor ()
      ensures buf == []
    {
      buf := [];
    }

    method EncodeUint(value: int)
      requires IsUint64(value)
      modifies this
      ensures buf == old(buf) + Header(MAJOR_UINT, value)
    {
      EncodeLength(MAJOR_UINT, value);
    }

    method EncodeInt(value: int)
      requires IsInt64(value)
      modifies this
      ensures buf == old(buf) + CborHeader.EncodeInt(value)
    {
      if value >= 0 {
        EncodeLength(MAJOR_UINT, value);
      } else {
        EncodeLength(MAJOR_NINT, -1 - value);
      }
    }

    method EncodeBytes(value: Bytes)
      requires |value| <= MAX_INT
      modifies this
      ensures buf == old(buf) + (Header(MAJOR_BYTES, |value|) + value)
    {
      EncodeLength(MAJOR_BYTES, |value|);
      buf := buf + value;
    }

    method EncodeText(value: Bytes) returns (error: Option<CborError>)
      requires |value| <= MAX_INT
      modifies this
      ensures if ValidUtf8(value) then error == None && buf == old(buf) + (Header(MAJOR_TEXT, |value|) + value)
              else error == Some(InvalidUtf8) && buf == old(buf)
    {
      if !ValidUtf8(value) {
        return Some(InvalidUtf8);
      }
      EncodeLength(MAJOR_TEXT, |value|);
      buf := buf + value;
      error := None;
    }

    method EncodeBool(value: bool)
      modifies this
      ensures buf == old(buf) + [if value then TRUE_BYTE else FALSE_BYTE]
    {
      if value {
        buf := buf + [32 * MAJOR_SIMPLE + SIMPLE_TRUE];
      } else {
        buf := buf + [32 * MAJOR_SIMPLE + SIMPLE_FALSE];
      }
    }

    method EncodeNull()
      modifies this
      ensures buf == old(buf) + [NULL_BYTE]
    {
      buf := buf + [32 * MAJOR_SIMPLE + SIMPLE_NULL];
    }

    /** encodeLength: the five widths, narrowest first. */
    method EncodeLength(major: int, length: int)
      requires 0 <= major < 8 && IsUint64(length)
      modifies this
      ensures buf == old(buf) + Header(major, length)
    {
      if length < 24 {
        buf := buf + [32 * major + length];
      } else if length <= 0xff {
        buf := buf + [32 * major + INFO_UINT8, length];
        assert BigEndian(1, length) == [length];
      } else if length <= 0xffff {
        buf := buf + [32 * major + INFO_UINT16];
        buf := buf + BigEndian(2, length);
      } else if length <= 0xffff_ffff {
        buf := buf + [32 * major + INFO_UINT32];
        buf := buf + BigEndian(4, length);
      } else {
        buf := buf + [32 * major + INFO_UINT64];
        buf := buf + BigEndian(8, length);
      }
    }
  }

  /** The check at the end of decodeHeader. */
  predicate IsCanonical(info: int, value: int) {
    if info <= 23 then value < 24
    else if info == INFO_UINT8 then 24 <= value <= 0xff
    else if info == INFO_UINT16 then 0xff < value <= 0xffff
    else if info == INFO_UINT32 then 0xffff < value <= 0xffff_ffff
    else 0xffff_ffff < value
  }

  lemma CanonicalIsShortest(info: int, value: int)
    requires 0 <= info <= INFO_UINT64 && IsUint64(value) && (info <= 23 ==> value == info)
    ensures IsCanonical(info, value) <==> InfoFor(value) == info
  {
  }

  class Decoder {
    const data: Bytes
    var pos: nat
    ghost var headers: nat  // the calls of decodeHeader so far

    ghost predicate Valid()
      reads this
    {
      pos <= |data| <= MAX_INT
    }

    ghost function Rest(): Bytes
      reads this
      requires Valid()
    {
      data[pos..]
    }

    constructor (data: Bytes)
      requires |data| <= MAX_INT
      ensures Valid() && this.data == data && pos == 0 && headers == 0 && Rest() == data
    {
      this.data, pos, headers := data, 0, 0;
    }

    method Finish() returns (error: Option<CborError>)
      requires Valid()
      ensures error == if Rest() == [] then None else Some(TrailingBytes)
    {
      error := if pos != |data| then Some(TrailingBytes) else None;
    }

    /** readBytes: a length that does not fit an int, or runs past the data, moves nothing. */
    method ReadBytes(n: int) returns (r: Result<Bytes, CborError>)
      requires Valid() && IsUint64(n)
      modifies `pos
      ensures Valid() && old(pos) <= pos
      ensures match CborScalar.ReadBytes(old(Rest()), n)
              case Ok(p) => r == Ok(p.value) && Rest() == p.rest && pos == old(pos) + n
              case Err(e) => r == Err(e) && pos == old(pos)
    {
      if n > MAX_INT || n > |data| - pos {
        return Err(UnexpectedEof);
      }
      var bytes := data[pos..pos + n];
      pos := pos + n;
      assert bytes == old(Rest())[..n] && Rest() == old(Rest())[n..];
      r := Ok(bytes);
    }

    /** decodeHeader. */
    method DecodeHeader() returns (r: Result<(int, int), CborError>)
      requires Valid()
      modifies this
      ensures Valid() && old(pos) <= pos && headers == old(headers) + 1
      ensures match ReadHead(old(Rest()))
              case Ok(h) => r == Ok((h.major, h.value)) && Rest() == h.rest && pos > old(pos)
              case Err(e) => r == Err(e)
    {
      hide ValueOf, IsCanonical;
      headers := headers + 1;
      if pos >= |data| {
        return Err(UnexpectedEof);
      }
      ghost var s := Rest();
      var b := data[pos];
      pos := pos + 1;
      assert Rest() == s[1..];
      var major, info := b / 32, b % 32;
      if info > INFO_UINT64 {
        return Err(InvalidAdditionalInfo);
      }
      ghost var w := Min(Width(info), |s| - 1);
      assert s[1..][..w] == s[1..1 + w];
      var value :- DecodeArgumentBytes(info);
      CanonicalIsShortest(info, value);
      if !IsCanonical(info, value) {
        return Err(NonCanonical);
      }
      r := Ok((major, value));
    }

    /** The argument of a header: the info itself, or the big-endian integer that it announces. */
    method DecodeArgumentBytes(info: int) returns (r: Result<int, CborError>)
      requires Valid() && 0 <= info <= INFO_UINT64
      modifies `pos
      ensures Valid() && old(pos) <= pos
      ensures var w := Width(info);
              if |old(Rest())| < w then r == Err(UnexpectedEof)
              else
                && r == Ok(if info < 24 then info else ValueOf(old(Rest())[..w]))
                && Rest() == old(Rest())[w..] && IsUint64(r.value)
    {
      if info <= 23 {
        return Ok(info);
      }
      var bytes :- ReadBytes(Width(info));
      BigEndianOfValue(bytes);
      Pow256Values();
      r := Ok(ValueOf(bytes));
    }

    /** DecodeUint, DecodeArrayHeader and DecodeMapHeader: a header of the major type asked for. */
    method DecodeArgument(major: int) returns (r: Result<int, CborError>)
      requires Valid()
      modifies this
      ensures Valid() && old(pos) <= pos && headers == old(headers) + 1
      ensures match ReadArgument(old(Rest()), major)
              case Ok(p) => r == Ok(p.value) && Rest() == p.rest && pos > old(pos) && IsUint64(p.value)
              case Err(e) => r == Err(e)
    {
      if ReadHead(Rest()).Ok? {
        HeaderInvertsReadHead(Rest());
      }
      var h :- DecodeHeader();
      if h.0 != major {
        return Err(InvalidMajorType);
      }
      r := Ok(h.1);
    }

    method DecodeInt() returns (r: Result<int, CborError>)
      requires Valid()
      modifies this
      ensures Valid() && old(pos) <= pos && headers == old(headers) + 1
      ensures match ReadInt(old(Rest()))
              case Ok(p) => r == Ok(p.value) && Rest() == p.rest && pos > old(pos) && IsInt64(p.value)
              case Err(e) => r == Err(e)
    {
      if ReadHead(Rest()).Ok? {
        HeaderInvertsReadHead(Rest());
      }
      var h :- DecodeHeader();
      var (major, value) := h;
      if major == MAJOR_UINT {
        r := if value > MAX_INT then Err(IntegerOverflow) else Ok(value);
      } else if major == MAJOR_NINT {
        r := if value > MAX_INT then Err(IntegerOverflow) else Ok(-1 - value);
      } else {
        r := Err(InvalidMajorType);
      }
    }

    method DecodeBytes() returns (r: Result<Bytes, CborError>)
      requires Valid()
      modifies this
      ensures Valid() && old(pos) <= pos
      ensures match ReadBlob(old(Rest()))
              case Ok(p) => r == Ok(p.value) && Rest() == p.rest
              case Err(e) => r == Err(e)
    {
      var length :- DecodeArgument(MAJOR_BYTES);
      r := ReadBytes(length);
    }

    method DecodeBytesFixed(n: nat) returns (r: Result<Bytes, CborError>)
      requires Valid()
      modifies this
      ensures Valid() && old(pos) <= pos
      ensures match ReadFixed(old(Rest()), n)
              case Ok(p) => r == Ok(p.value) && Rest() == p.rest
              case Err(e) => r == Err(e)
    {
      var length :- DecodeArgument(MAJOR_BYTES);
      if ToInt64(length) != n {
        return Err(UnexpectedItemCount);
      }
      r := ReadBytes(length);
    }

    method DecodeText() returns (r: Result<Bytes, CborError>)
      requires Valid()
      modifies this
      ensures Valid() && old(pos) <= pos
      ensures match ReadText(old(Rest()))
              case Ok(p) => r == Ok(p.value) && Rest() == p.rest
              case Err(e) => r == Err(e)
    {
      var length :- DecodeArgument(MAJOR_TEXT);
      var bytes :- ReadBytes(length);
      r := if ValidUtf8(bytes) then Ok(bytes) else Err(InvalidUtf8);
    }

    method DecodeBool() returns (r: Result<bool, CborError>)
      requires Valid()
      modifies `pos
      ensures Valid() && old(pos) <= pos
      ensures match ReadBool(old(Rest()))
              case Ok(p) => r == Ok(p.value) && Rest() == p.rest
              case Err(e) => r == Err(e) && pos == old(pos)
    {
      if pos >= |data| {
        return Err(UnexpectedEof);
      }
      var b := data[pos];
      if b == FALSE_BYTE || b == TRUE_BYTE {
        pos := pos + 1;
        r := Ok(b == TRUE_BYTE);
      } else {
        r := Err(InvalidMajorType);
      }
    }

    method DecodeNull() returns (error: Option<CborError>)
      requires Valid()
      modifies `pos
      ensures Valid() && old(pos) <= pos
      ensures match ReadNull(old(Rest()))
              case Ok(rest) => error == None && Rest() == rest
              case Err(e) => error == Some(e) && pos == old(pos)
    {
      if pos >= |data| {
        return Some(UnexpectedEof);
      }
      if data[pos] != NULL_BYTE {
        return Some(InvalidMajorType);
      }
      pos := pos + 1;
      error := None;
    }

    function PeekNull(): (r: bool)
      requires Valid()
      reads this
      ensures r == CborScalar.PeekNull(Rest())
    {
      pos < |data| && data[pos] == NULL_BYTE
    }
  }

  // ---- Walking over items -----------------------------------------------------------------------

  /** The cursor has moved, with no more header reads than bytes used, but for one that failed. */
  twostate predicate Walked(dec: Decoder, new error: Option<CborError>)
    reads dec
  {
    && dec.Valid() && old(dec.pos) <= dec.pos
    && dec.headers - old(dec.headers) <= dec.pos - old(dec.pos) + (if error == None then 0 else 1)
  }

  /** The outcome of a walk is that of the parse: the same rest, or the same error. */
  ghost predicate Agrees<T>(r: Result<Parsed<T>, CborError>, error: Option<CborError>, rest: Bytes) {
    match r
    case Ok(p) => error == None && rest == p.rest
    case Err(e) => error == Some(e)
  }

  /** verifyObject. Of the headers it reads, every one but a failing last one has used up a byte of its own. */
  method VerifyObject(dec: Decoder, depth: nat) returns (error: Option<CborError>)
    requires dec.Valid()
    modifies dec
    ensures Walked(dec, error) && Agrees(Parse(old(dec.Rest()), depth), error, dec.Rest())
    decreases depth, 0
  {
    hide Header, ReadHead, ValidUtf8;
    if depth == 0 {
      return Some(MaxDepthExceeded);
    }
    if ReadHead(dec.Rest()).Ok? {
      HeaderInvertsReadHead(dec.Rest());
    }
    var h := dec.DecodeHeader();
    if h.Err? {
      return Some(h.error);
    }
    var (major, value) := h.value;
    if major == MAJOR_UINT || major == MAJOR_NINT {
      error := None;
    } else if major == MAJOR_BYTES || major == MAJOR_TEXT {
      var bytes := dec.ReadBytes(value);
      if bytes.Err? {
        return Some(bytes.error);
      }
      error := if major == MAJOR_TEXT && !ValidUtf8(bytes.value) then Some(InvalidUtf8) else None;
    } else if major == MAJOR_ARRAY {
      error := VerifyItems(dec, depth - 1, value);
    } else if major == MAJOR_MAP {
      error := VerifyEntries(dec, depth - 1, value);
    } else if major == MAJOR_SIMPLE && (value == SIMPLE_FALSE || value == SIMPLE_TRUE || value == SIMPLE_NULL) {
      error := None;
    } else {
      error := Some(UnsupportedType);
    }
  }

  /** Parsing the n items left at rest completes the parse that started elsewhere and has got done. */
  ghost predicate ItemsContinue(whole: Result<Parsed<seq<Item>>, CborError>, done: seq<Item>, rest: Bytes, depth: nat, n: nat) {
    whole == match ParseItems(rest, depth, n)
             case Ok(p) => Ok(Parsed(done + p.value, p.rest))
             case Err(e) => Err(e)
  }

  lemma ItemsStart(s: Bytes, depth: nat, n: nat)
    ensures ItemsContinue(ParseItems(s, depth, n), [], s, depth, n)
  {
    assert forall items: seq<Item> :: [] + items == items;
  }

  lemma ItemsStep(whole: Result<Parsed<seq<Item>>, CborError>, done: seq<Item>, rest: Bytes, depth: nat, n: nat)
    requires n > 0 && ItemsContinue(whole, done, rest, depth, n)
    ensures match Parse(rest, depth)
            case Ok(p) => ItemsContinue(whole, done + [p.value], p.rest, depth, n - 1)
            case Err(e) => whole == Err(e)
  {
    hide Parse;
    if Parse(rest, depth).Ok? {
      var p := Parse(rest, depth).value;
      if ParseItems(p.rest, depth, n - 1).Ok? {
        ConcatAssoc(done, [p.value], ParseItems(p.rest, depth, n - 1).value.value);
      }
    }
  }

  /** The array branch: value items, one after the other. */
  method VerifyItems(dec: Decoder, depth: nat, value: nat) returns (error: Option<CborError>)
    requires dec.Valid()
    modifies dec
    ensures Walked(dec, error) && Agrees(ParseItems(old(dec.Rest()), depth, value), error, dec.Rest())
    decreases depth, 1
  {
    hide Parse, ItemsContinue;
    ghost var whole := ParseItems(dec.Rest(), depth, value);
    ghost var done: seq<Item> := [];
    ItemsStart(dec.Rest(), depth, value);
    var i := 0;
    while i < value
      invariant 0 <= i <= value && Walked(dec, None)
      invariant ItemsContinue(whole, done, dec.Rest(), depth, value - i)
    {
      ItemsStep(whole, done, dec.Rest(), depth, value - i);
      ghost var here := Parse(dec.Rest(), depth);
      error := VerifyObject(dec, depth);
      if error != None {
        return;
      }
      done := done + [here.value.value];
      i := i + 1;
    }
    error := None;
    ItemsEnd(whole, done, dec.Rest(), depth);
  }

  lemma ItemsEnd(whole: Result<Parsed<seq<Item>>, CborError>, done: seq<Item>, rest: Bytes, depth: nat)
    requires ItemsContinue(whole, done, rest, depth, 0)
    ensures Agrees(whole, None, rest)
  {
  }

  type Entries = (seq<int>, seq<Item>)

  ghost predicate EntriesContinue(whole: Result<Parsed<Entries>, CborError>, done: Entries, rest: Bytes,
                                  depth: nat, n: nat, prev: Option<int>)
    requires prev.Some? ==> IsInt64(prev.value)
  {
    whole == match ParseEntries(rest, depth, n, prev)
             case Ok(p) => Ok(Parsed((done.0 + p.value.0, done.1 + p.value.1), p.rest))
             case Err(e) => Err(e)
  }

  lemma EntriesStart(s: Bytes, depth: nat, n: nat)
    ensures EntriesContinue(ParseEntries(s, depth, n, None), ([], []), s, depth, n, None)
  {
    assert forall keys: seq<int> :: [] + keys == keys;
    assert forall items: seq<Item> :: [] + items == items;
  }

  ghost predicate EntriesAfterKey(whole: Result<Parsed<Entries>, CborError>, done: Entries, key: int, rest: Bytes,
                                  depth: nat, n: nat, prev: Option<int>)
    requires (prev.Some? ==> IsInt64(prev.value)) && IsInt64(key) && n > 0
  {
    if !Follows(prev, key) then whole == Err(InvalidMapKeyOrder)
    else match Parse(rest, depth)
      case Err(e) => whole == Err(e)
      case Ok(p) => EntriesContinue(whole, (done.0 + [key], done.1 + [p.value]), p.rest, depth, n - 1, Some(key))
  }

  lemma EntriesStep(whole: Result<Parsed<Entries>, CborError>, done: Entries, rest: Bytes,
                    depth: nat, n: nat, prev: Option<int>)
    requires prev.Some? ==> IsInt64(prev.value)
    requires n > 0 && EntriesContinue(whole, done, rest, depth, n, prev)
    ensures ReadInt(rest).Err? ==> whole == Err(ReadInt(rest).error)
    ensures ReadInt(rest).Ok? ==> IsInt64(ReadInt(rest).value.value)
    ensures ReadInt(rest).Ok? ==> EntriesAfterKey(whole, done, ReadInt(rest).value.value, ReadInt(rest).value.rest, depth, n, prev)
  {
    if ReadInt(rest).Ok? {
      var key := ReadInt(rest).value;
      EncodeIntInvertsReadInt(rest);
      hide Parse, ReadInt, EncodeInt, Follows;
      if Follows(prev, key.value) && Parse(key.rest, depth).Ok? {
        var p := Parse(key.rest, depth).value;
        if ParseEntries(p.rest, depth, n - 1, Some(key.value)).Ok? {
          var others := ParseEntries(p.rest, depth, n - 1, Some(key.value)).value.value;
          ConcatAssoc(done.0, [key.value], others.0);
          ConcatAssoc(done.1, [p.value], others.1);
        }
      }
    }
  }

  lemma EntriesEnd(whole: Result<Parsed<Entries>, CborError>, done: Entries, rest: Bytes, depth: nat, prev: Option<int>)
    requires prev.Some? ==> IsInt64(prev.value)
    requires EntriesContinue(whole, done, rest, depth, 0, prev)
    ensures Agrees(whole, None, rest)
  {
  }

  /** The map branch: value pairs, each key an int64 that comes after the one before it. */
  method VerifyEntries(dec: Decoder, depth: nat, value: nat) returns (error: Option<CborError>)
    requires dec.Valid()
    modifies dec
    ensures Walked(dec, error) && Agrees(ParseEntries(old(dec.Rest()), depth, value, None), error, dec.Rest())
    decreases depth, 1
  {
    hide Parse, ReadInt, EntriesContinue;
    ghost var whole := ParseEntries(dec.Rest(), depth, value, None);
    ghost var done: Entries := ([], []);
    EntriesStart(dec.Rest(), depth, value);
    var prevKey: Option<int> := None;
    var i := 0;
    while i < value
      invariant 0 <= i <= value && (prevKey.Some? ==> IsInt64(prevKey.value)) && Walked(dec, None)
      invariant EntriesContinue(whole, done, dec.Rest(), depth, value - i, prevKey)
    {
      EntriesStep(whole, done, dec.Rest(), depth, value - i, prevKey);
      var key := dec.DecodeInt();
      if key.Err? {
        return Some(key.error);
      }
      if prevKey.Some? && MapKeyCmp(prevKey.value, key.value) >= 0 {
        return Some(InvalidMapKeyOrder);
      }
      prevKey := Some(key.value);
      ghost var here := Parse(dec.Rest(), depth);
      error := VerifyObject(dec, depth);
      if error != None {
        return;
      }
      done := (done.0 + [key.value], done.1 + [here.value.value]);
      i := i + 1;
    }
    error := None;
    EntriesEnd(whole, done, dec.Rest(), depth, prevKey);
  }

  /** Verify, in at most one header read more than there are bytes, whatever counts the headers claim. */
  method VerifyData(data: Bytes) returns (error: Option<CborError>, ghost headers: nat)
    requires |data| <= MAX_INT
    ensures error == CborItem.Verify(data)
    ensures headers <= |data| + 1
  {
    var dec := new Decoder(data);
    error := VerifyObject(dec, MAX_DEPTH);
    headers := dec.headers;
    if error == None {
      error := dec.Finish();
    }
  }

  ghost predicate SkipAgrees(r: Result<Bytes, CborError>, error: Option<CborError>, rest: Bytes) {
    match r
    case Ok(after) => error == None && rest == after
    case Err(e) => error == Some(e)
  }

  /** skipObject, with the same bound on its work. */
  method SkipObject(dec: Decoder, depth: nat) returns (error: Option<CborError>)
    requires dec.Valid()
    modifies dec
    ensures Walked(dec, error) && SkipAgrees(Skip(old(dec.Rest()), depth), error, dec.Rest())
    decreases depth, 0
  {
    hide Header, ReadHead;
    if depth == 0 {
      return Some(MaxDepthExceeded);
    }
    if ReadHead(dec.Rest()).Ok? {
      HeaderInvertsReadHead(dec.Rest());
    }
    var h := dec.DecodeHeader();
    if h.Err? {
      return Some(h.error);
    }
    var (major, value) := h.value;
    if major == MAJOR_UINT || major == MAJOR_NINT {
      error := None;
    } else if major == MAJOR_BYTES || major == MAJOR_TEXT {
      var bytes := dec.ReadBytes(value);
      error := if bytes.Err? then Some(bytes.error) else None;
    } else if major == MAJOR_ARRAY {
      error := SkipItems(dec, depth - 1, value);
    } else if major == MAJOR_MAP {
      error := SkipItems(dec, depth - 1, 2 * value);
    } else if major == MAJOR_SIMPLE && (value == SIMPLE_FALSE || value == SIMPLE_TRUE || value == SIMPLE_NULL) {
      error := None;
    } else {
      error := Some(UnsupportedType);
    }
  }

  method SkipItems(dec: Decoder, depth: nat, count: nat) returns (error: Option<CborError>)
    requires dec.Valid()
    modifies dec
    ensures Walked(dec, error) && SkipAgrees(SkipMany(old(dec.Rest()), depth, count), error, dec.Rest())
    decreases depth, 1
  {
    hide Skip;
    var i := 0;
    while i < count
      invariant 0 <= i <= count
      invariant Walked(dec, None)
      invariant SkipMany(old(dec.Rest()), depth, count) == SkipMany(dec.Rest(), depth, count - i)
    {
      error := SkipObject(dec, depth);
      if error != None {
        return;
      }
      i := i + 1;
    }
    error := None;
  }
}

/** The CBOR values that hold no others: how the decoder reads each, and that it reads only what the encoder writes. */
module CborScalar {
  import opened Base
  import opened CborHeader
  import opened Utf8

  const FALSE_BYTE: byte := 0xf4
  const TRUE_BYTE: byte := 0xf5

  /** readBytes: a length that does not fit an int is past the end of anything. */
  function ReadBytes(s: Bytes, n: int): Result<Parsed<Bytes>, CborError>
    requires n >= 0
  {
    if n > MAX_INT || n > |s| then Err(UnexpectedEof) else Ok(Parsed(s[..n], s[n..]))
  }

  /** A header of one major type: DecodeUint, DecodeArrayHeader and DecodeMapHeader. */
  function ReadArgument(s: Bytes, major: int): Result<Parsed<int>, CborError> {
    var h :- ReadHead(s);
    if h.major == major then Ok(Parsed(h.value, h.rest)) else Err(InvalidMajorType)
  }

  /** DecodeBytes. */
  function ReadBlob(s: Bytes): Result<Parsed<Bytes>, CborError> {
    var length :- ReadArgument(s, MAJOR_BYTES);
    HeaderInvertsReadHead(s);
    ReadBytes(length.rest, length.value)
  }

  /** DecodeBytesFixed: the length is compared as an int, to which a length of 2^63 or more wraps around. */
  function ReadFixed(s: Bytes, n: nat): Result<Parsed<Bytes>, CborError> {
    var length :- ReadArgument(s, MAJOR_BYTES);
    HeaderInvertsReadHead(s);
    if ToInt64(length.value) != n then Err(UnexpectedItemCount)
    else ReadBytes(length.rest, length.value)
  }

  /** DecodeText. */
  function ReadText(s: Bytes): Result<Parsed<Bytes>, CborError> {
    var length :- ReadArgument(s, MAJOR_TEXT);
    HeaderInvertsReadHead(s);
    var b :- ReadBytes(length.rest, length.value);
    if ValidUtf8(b.value) then Ok(b) else Err(InvalidUtf8)
  }

  /** DecodeBool. */
  function ReadBool(s: Bytes): Result<Parsed<bool>, CborError> {
    if s == [] then Err(UnexpectedEof)
    else if s[0] == FALSE_BYTE then Ok(Parsed(false, s[1..]))
    else if s[0] == TRUE_BYTE then Ok(Parsed(true, s[1..]))
    else Err(InvalidMajorType)
  }

  predicate PeekNull(s: Bytes) {
    s != [] && s[0] == NULL_BYTE
  }

  /** DecodeNull. */
  function ReadNull(s: Bytes): Result<Bytes, CborError> {
    if s == [] then Err(UnexpectedEof)
    else if s[0] == NULL_BYTE then Ok(s[1..])
    else Err(InvalidMajorType)
  }

  lemma ReadBytesBack(b: Bytes, rest: Bytes)
    requires |b| <= MAX_INT
    ensures ReadBytes(b + rest, |b|) == Ok(Parsed(b, rest))
  {
    assert (b + rest)[..|b|] == b && (b + rest)[|b|..] == rest;
  }

  lemma ReadArgumentBack(major: int, value: int, rest: Bytes)
    requires 0 <= major < 8 && IsUint64(value)
    ensures ReadArgument(Header(major, value) + rest, major) == Ok(Parsed(value, rest))
  {
    ReadHeadInvertsHeader(major, value, rest);
  }

  lemma ReadArgumentOnly(s: Bytes, major: int)
    requires ReadArgument(s, major).Ok?
    ensures var r := ReadArgument(s, major).value;
            0 <= major < 8 && IsUint64(r.value) && s == Header(major, r.value) + r.rest && |r.rest| < |s|
  {
    HeaderInvertsReadHead(s);
  }

  /** A byte string is read back from its header and contents. */
  lemma BlobReadBack(b: Bytes, rest: Bytes)
    requires |b| <= MAX_INT
    ensures ReadBlob(Header(MAJOR_BYTES, |b|) + b + rest) == Ok(Parsed(b, rest))
    ensures ReadFixed(Header(MAJOR_BYTES, |b|) + b + rest, |b|) == Ok(Parsed(b, rest))
  {
    hide Header, ReadArgument, ReadBytes;
    ConcatAssoc(Header(MAJOR_BYTES, |b|), b, rest);
    ReadArgumentBack(MAJOR_BYTES, |b|, b + rest);
    ReadBytesBack(b, rest);
  }

  lemma TextReadBack(b: Bytes, rest: Bytes)
    requires |b| <= MAX_INT && ValidUtf8(b)
    ensures ReadText(Header(MAJOR_TEXT, |b|) + b + rest) == Ok(Parsed(b, rest))
  {
    hide Header, ReadArgument, ReadBytes, ValidUtf8;
    ConcatAssoc(Header(MAJOR_TEXT, |b|), b, rest);
    ReadArgumentBack(MAJOR_TEXT, |b|, b + rest);
    ReadBytesBack(b, rest);
  }

  /** Nothing else is read as a byte or text string. */
  lemma StringsOnly(s: Bytes)
    ensures ReadBlob(s).Ok? ==>
              var b := ReadBlob(s).value; |b.value| <= MAX_INT && s == Header(MAJOR_BYTES, |b.value|) + b.value + b.rest
    ensures forall n: nat :: ReadFixed(s, n).Ok? ==> |ReadFixed(s, n).value.value| == n && ReadBlob(s) == ReadFixed(s, n)
    ensures ReadText(s).Ok? ==>
              var b := ReadText(s).value;
              |b.value| <= MAX_INT && ValidUtf8(b.value) && s == Header(MAJOR_TEXT, |b.value|) + b.value + b.rest
  {
    if ReadArgument(s, MAJOR_BYTES).Ok? {
      ReadArgumentOnly(s, MAJOR_BYTES);
      StringSplit(s, MAJOR_BYTES);
    }
    if ReadArgument(s, MAJOR_TEXT).Ok? {
      ReadArgumentOnly(s, MAJOR_TEXT);
      StringSplit(s, MAJOR_TEXT);
    }
  }

  lemma StringSplit(s: Bytes, major: int)
    requires ReadArgument(s, major).Ok?
    ensures var length := ReadArgument(s, major).value;
            && 0 <= major < 8 && IsUint64(length.value)
            && (length.value <= Min(MAX_INT, |length.rest|) ==>
                  var b := length.rest[..length.value];
                  s == Header(major, |b|) + b + length.rest[length.value..] && ToInt64(length.value) == length.value)
  {
    ReadArgumentOnly(s, major);
    var length := ReadArgument(s, major).value;
    if length.value <= Min(MAX_INT, |length.rest|) {
      var b := length.rest[..length.value];
      assert length.rest == b + length.rest[length.value..];
      ConcatAssoc(Header(major, |b|), b, length.rest[length.value..]);
    }
  }
}

/** One PEM block: a strict parser, and the printer of 64-character lines. */
module Pem {
  import opened Base
  import opened Base64
  import opened ByteSearch

  const CR: byte := 13
  const LF: byte := 10
  const DASH: byte := 45

  const HEADER: Bytes := [45, 45, 45, 45, 45, 66, 69, 71, 73, 78, 32]  // -----BEGIN and a space
  const FOOTER: Bytes := [45, 45, 45, 45, 45, 69, 78, 68, 32]          // -----END and a space
  const ENDING: Bytes := [45, 45, 45, 45, 45]

  datatype PemError =
    | MissingHeader | IncompleteHeader | MalformedHeader | EmptyType | MissingFooter | TrailingData | EmptyBody
    | BodyNotEnded | InvalidCharacters | InvalidBase64

  datatype Block = Block(kind: Bytes, blob: Bytes)

  function BeginMark(kind: Bytes): Bytes {
    HEADER + kind + ENDING
  }

  function EndMark(kind: Bytes): Bytes {
    FOOTER + kind + ENDING
  }

  // ---- Decoding ---------------------------------------------------------------------------------

  function Decode(data: Bytes): Result<Block, PemError> {
    if !HasPrefix(data, HEADER) then Err(MissingHeader)
    else
      match Index(data, [LF])
      case None => Err(IncompleteHeader)
      case Some(headerEnd) =>
        var crlf := headerEnd > 0 && data[headerEnd - 1] == CR;
        var header := if crlf then data[..headerEnd - 1] else data[..headerEnd];
        if !HasPrefix(header, HEADER) || !HasSuffix(header, ENDING) then Err(MalformedHeader)
        else
          HeaderHasRoom(header);
          var kind := header[|HEADER|..|header| - |ENDING|];
          if kind == [] then Err(EmptyType)
          else DecodeBody(kind, if crlf then [CR, LF] else [LF], data[headerEnd + 1..])
  }

  /** The two ends of a header do not overlap. */
  lemma HeaderHasRoom(header: Bytes)
    requires HasPrefix(header, HEADER) && HasSuffix(header, ENDING)
    ensures |header| >= |HEADER| + |ENDING|
  {
    assert header[..|HEADER|][10] == 32;
    forall i | |header| - 5 <= i < |header|
      ensures header[i] == DASH
    {
      assert header[|header| - 5..][i - (|header| - 5)] == DASH;
    }
  }

  /** All after the first line. */
  function DecodeBody(kind: Bytes, lineEnding: Bytes, text: Bytes): Result<Block, PemError>
    requires lineEnding != []
  {
    var footer := EndMark(kind);
    match Index(text, footer)
    case None => Err(MissingFooter)
    case Some(footerStart) =>
      var rest, body := text[footerStart + |footer|..], text[..footerStart];
      if rest != [] && rest != lineEnding then Err(TrailingData)
      else if body == [] then Err(EmptyBody)
      else if !HasSuffix(body, lineEnding) then Err(BodyNotEnded)
      else
        var b64 := RemoveAll(body[..|body| - |lineEnding|], lineEnding);
        if CR in b64 || LF in b64 then Err(InvalidCharacters)
        else
          match Decode64(b64)
          case None => Err(InvalidBase64)
          case Some(blob) => Ok(Block(kind, blob))
  }

  // ---- Encoding ---------------------------------------------------------------------------------

  /** Lines of 64 characters, the last one of what is left. */
  function Chunked(b64: Bytes): (lines: seq<Bytes>) {
    if b64 == [] then [] else [b64[..Min(64, |b64|)]] + Chunked(b64[Min(64, |b64|)..])
  }

  /** Each line, and the line ending after it. */
  function Ended(lines: seq<Bytes>, lineEnding: Bytes): Bytes {
    if lines == [] then [] else lines[0] + lineEnding + Ended(lines[1..], lineEnding)
  }

  function EncodedText(kind: Bytes, blob: Bytes): Bytes {
    BeginMark(kind) + [LF] + Ended(Chunked(Encode64(blob)), [LF]) + EndMark(kind) + [LF]
  }

  /** Encode. */
  method Encode(kind: Bytes, blob: Bytes) returns (text: Bytes)
    ensures text == EncodedText(kind, blob)
  {
    var b64 := Encode64(blob);
    text := HEADER;
    text := text + kind;
    text := text + ENDING;
    text := text + [LF];
    ghost var start := text;
    while |b64| > 0
      invariant text + Ended(Chunked(b64), [LF]) == start + Ended(Chunked(Encode64(blob)), [LF])
      decreases |b64|
    {
      var line := b64;
      if |line| > 64 {
        line := b64[..64];
      }
      ghost var before, others := text, Ended(Chunked(b64[|line|..]), [LF]);
      assert line == b64[..Min(64, |b64|)];
      ConcatAssoc(before, line + [LF], others);
      ConcatAssoc(before, line, [LF]);
      text := text + line;
      text := text + [LF];
      b64 := b64[|line|..];
    }
    assert text + [] == text;
    ConcatAssoc(text, FOOTER, kind);
    ConcatAssoc(text, FOOTER + kind, ENDING);
    text := text + FOOTER;
    text := text + kind;
    text := text + ENDING;
    text := text + [LF];
  }
}

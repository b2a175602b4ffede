/** The exact texts that the PEM parser accepts, and which blocks survive being printed and parsed. */
module PemGrammar {
  import opened Base
  import opened Base64
  import opened ByteSearch
  import opened Pem

  function Concat(lines: seq<Bytes>): Bytes {
    if lines == [] then [] else lines[0] + Concat(lines[1..])
  }

  predicate NoLineEnds(s: Bytes) {
    CR !in s && LF !in s
  }

  predicate AllClean(lines: seq<Bytes>) {
    forall i :: 0 <= i < |lines| ==> NoLineEnds(lines[i])
  }

  predicate IsLineEnding(s: Bytes) {
    s == [LF] || s == [CR, LF]
  }

  /** Lines of base64 and a footer, each ended in the same way, except that nothing need follow the footer. */
  ghost predicate IsBodyText(text: Bytes, block: Block, lineEnding: Bytes, lines: seq<Bytes>, tail: Bytes) {
    && text == Ended(lines, lineEnding) + EndMark(block.kind) + tail
    && lines != [] && AllClean(lines) && Concat(lines) == Encode64(block.blob)
    && (tail == [] || tail == lineEnding)
  }

  /** A block: a header line before the body. The base64 of the blob may be split into lines anyhow. */
  ghost predicate IsBlockText(data: Bytes, block: Block, lineEnding: Bytes, lines: seq<Bytes>, tail: Bytes) {
    && block.kind != [] && LF !in block.kind && IsLineEnding(lineEnding)
    && exists text :: data == BeginMark(block.kind) + lineEnding + text && IsBodyText(text, block, lineEnding, lines, tail)
  }

  /** The bytes are those of the text. */
  predicate Spells(b: Bytes, text: string) {
    |b| == |text| && forall i :: 0 <= i < |b| ==> b[i] == text[i] as int
  }

  /** How the first and the last line of a block are spelled. */
  lemma MarksAreSpelled(kind: Bytes) returns (begin: Bytes, end: Bytes, dashes: Bytes)
    ensures Spells(begin, "-----BEGIN ") && Spells(end, "-----END ") && Spells(dashes, "-----")
    ensures BeginMark(kind) == begin + kind + dashes && EndMark(kind) == end + kind + dashes
  {
    begin, end, dashes := HEADER, FOOTER, ENDING;
  }

  // ---- Removing line endings, and splitting at them ---------------------------------------------

  lemma {:induction false} RemoveAllClean(line: Bytes, x: Bytes, lineEnding: Bytes)
    requires NoLineEnds(line) && IsLineEnding(lineEnding)
    ensures RemoveAll(line + x, lineEnding) == line + RemoveAll(x, lineEnding)
    decreases |line|
  {
    if line == [] {
      assert line + x == x;
    } else {
      assert line[0] in line && (line + x)[0] == line[0] && (line + x)[1..] == line[1..] + x;
      PrefixStarts(line + x, lineEnding);
      RemoveAllClean(line[1..], x, lineEnding);
      assert line == [line[0]] + line[1..];
    }
  }

  lemma RemoveAllEnding(x: Bytes, lineEnding: Bytes)
    requires IsLineEnding(lineEnding)
    ensures RemoveAll(lineEnding + x, lineEnding) == RemoveAll(x, lineEnding)
  {
    assert (lineEnding + x)[..|lineEnding|] == lineEnding && (lineEnding + x)[|lineEnding|..] == x;
  }

  /** The lines of a body, without its last line ending, are joined again by removing the others. */
  lemma {:induction false} RemoveAllJoins(lines: seq<Bytes>, lineEnding: Bytes) returns (inner: Bytes)
    requires lines != [] && AllClean(lines) && IsLineEnding(lineEnding)
    ensures Ended(lines, lineEnding) == inner + lineEnding && RemoveAll(inner, lineEnding) == Concat(lines)
    decreases |lines|
  {
    hide RemoveAll, IsLineEnding;
    var line := lines[0];
    if |lines| == 1 {
      inner := line;
      assert line + [] == line && line + lineEnding + [] == line + lineEnding;
      RemoveAllClean(line, [], lineEnding);
      RemoveAllOfNothing(lineEnding);
    } else {
      var others := RemoveAllJoins(lines[1..], lineEnding);
      inner := line + (lineEnding + others);
      ConcatAssoc(line + lineEnding, others, lineEnding);
      ConcatAssoc(line, lineEnding, others);
      RemoveAllClean(line, lineEnding + others, lineEnding);
      RemoveAllEnding(others, lineEnding);
    }
  }

  lemma RemoveAllOfNothing(lineEnding: Bytes)
    requires IsLineEnding(lineEnding)
    ensures lineEnding != [] && RemoveAll([], lineEnding) == []
  {
  }

  /** The lines with one more character in front. */
  lemma PrependCharacter(c: byte, lines: seq<Bytes>, lineEnding: Bytes) returns (r: seq<Bytes>)
    requires lines != [] && AllClean(lines) && NoLineEnds([c])
    ensures r != [] && AllClean(r)
    ensures Ended(r, lineEnding) == [c] + Ended(lines, lineEnding) && Concat(r) == [c] + Concat(lines)
  {
    r := [[c] + lines[0]] + lines[1..];
    assert r[1..] == lines[1..];
    ConcatAssoc([c], lines[0], lineEnding);
    ConcatAssoc([c], lines[0] + lineEnding, Ended(lines[1..], lineEnding));
    ConcatAssoc([c], lines[0], Concat(lines[1..]));
  }

  lemma PrependEmptyLine(lines: seq<Bytes>, lineEnding: Bytes) returns (r: seq<Bytes>)
    requires AllClean(lines)
    ensures r != [] && AllClean(r) && Ended(r, lineEnding) == lineEnding + Ended(lines, lineEnding) && Concat(r) == Concat(lines)
  {
    r := [[]] + lines;
    assert r[1..] == lines && [] + lineEnding == lineEnding;
  }

  /** Text that is clean once its line endings are removed is made of lines. */
  lemma {:induction false} SplitIntoLines(body: Bytes, lineEnding: Bytes) returns (lines: seq<Bytes>)
    requires IsLineEnding(lineEnding) && NoLineEnds(RemoveAll(body, lineEnding))
    ensures lines != [] && AllClean(lines)
    ensures Ended(lines, lineEnding) == body + lineEnding && Concat(lines) == RemoveAll(body, lineEnding)
    decreases |body|
  {
    hide AllClean, Ended, Concat;
    if body == [] {
      lines := OneEmptyLine(lineEnding);
    } else if HasPrefix(body, lineEnding) {
      var rest := body[|lineEnding|..];
      lines := SplitIntoLines(rest, lineEnding);
      lines := PrependEmptyLine(lines, lineEnding);
      assert body == lineEnding + rest;
      ConcatAssoc(lineEnding, rest, lineEnding);
    } else {
      var c, rest := body[0], body[1..];
      assert RemoveAll(body, lineEnding) == [c] + RemoveAll(rest, lineEnding);
      lines := SplitIntoLines(rest, lineEnding);
      lines := PrependCharacter(c, lines, lineEnding);
      assert body == [c] + rest;
      ConcatAssoc([c], rest, lineEnding);
    }
  }

  lemma OneEmptyLine(lineEnding: Bytes) returns (r: seq<Bytes>)
    ensures r != [] && AllClean(r) && Ended(r, lineEnding) == [] + lineEnding && Concat(r) == []
  {
    r := PrependEmptyLine([], lineEnding);
    assert lineEnding + [] == [] + lineEnding;
  }

  // ---- The body ---------------------------------------------------------------------------------

  lemma {:induction false} NoDashes(lines: seq<Bytes>, lineEnding: Bytes)
    requires IsBase64Text(Concat(lines)) && IsLineEnding(lineEnding)
    ensures DASH !in Ended(lines, lineEnding)
    decreases |lines|
  {
    if lines != [] {
      var line, others := lines[0], Concat(lines[1..]);
      forall i | 0 <= i < |line|
        ensures line[i] != DASH
      {
        assert Concat(lines)[i] == line[i];
      }
      forall i | 0 <= i < |others|
        ensures Bits(others[i]).Some? || others[i] == PAD
      {
        assert Concat(lines)[|line| + i] == others[i];
      }
      NoDashes(lines[1..], lineEnding);
    }
  }

  /** Base64 has no dash in it, so the footer is found where it is. */
  lemma FooterFound(body: Bytes, kind: Bytes, tail: Bytes)
    requires DASH !in body
    ensures Index(body + EndMark(kind) + tail, EndMark(kind)) == Some(|body|)
  {
    var text, footer := body + EndMark(kind) + tail, EndMark(kind);
    assert footer[0] == DASH;
    ConcatAssoc(body, footer, tail);
    assert text[|body|..] == footer + tail && (footer + tail)[..|footer|] == footer;
    forall k | 0 <= k < |body|
      ensures !HasPrefix(text[k..], footer)
    {
      PrefixStarts(text[k..], footer);
      assert text[k..][0] == body[k] && body[k] in body;
    }
    IndexIsFirst(text, footer, |body|);
  }

  lemma BodyAccepted(text: Bytes, block: Block, lineEnding: Bytes, lines: seq<Bytes>, tail: Bytes)
    requires IsLineEnding(lineEnding) && IsBodyText(text, block, lineEnding, lines, tail)
    ensures DecodeBody(block.kind, lineEnding, text) == Ok(block)
  {
    var body, footer, b64 := Ended(lines, lineEnding), EndMark(block.kind), Encode64(block.blob);
    EncodedIsBase64Text(block.blob);
    NoDashes(lines, lineEnding);
    FooterFound(body, block.kind, tail);
    var inner := RemoveAllJoins(lines, lineEnding);
    hide Index, RemoveAll, Ended, Concat, EndMark, Encode64, Decode64, IsBase64Text;
    ConcatAssoc(body, footer, tail);
    assert text[..|body|] == body && text[|body| + |footer|..] == tail;
    assert body[..|body| - |lineEnding|] == inner && body[|body| - |lineEnding|..] == lineEnding;
    Base64IsClean(block.blob);
    Decode64AcceptsExactlyEncode64(b64, block.blob);
  }

  lemma Base64IsClean(blob: Bytes)
    ensures NoLineEnds(Encode64(blob))
  {
    EncodedIsBase64Text(blob);
  }

  lemma BodyOnly(kind: Bytes, lineEnding: Bytes, text: Bytes) returns (lines: seq<Bytes>, tail: Bytes)
    requires IsLineEnding(lineEnding) && DecodeBody(kind, lineEnding, text).Ok?
    ensures var block := DecodeBody(kind, lineEnding, text).value;
            block.kind == kind && IsBodyText(text, block, lineEnding, lines, tail)
  {
    hide Index, RemoveAll, Ended, Concat, EndMark, Encode64, Decode64, AllClean;
    var footer := EndMark(kind);
    var start := Index(text, footer).value;
    var body := text[..start];
    tail := text[start + |footer|..];
    var inner := body[..|body| - |lineEnding|];
    assert body == inner + lineEnding && text == body + footer + tail;
    lines := SplitIntoLines(inner, lineEnding);
    Decode64AcceptsExactlyEncode64(RemoveAll(inner, lineEnding), DecodeBody(kind, lineEnding, text).value.blob);
  }

  // ---- The header -------------------------------------------------------------------------------

  /** The parts of a header, which is one line. */
  lemma MarkParts(kind: Bytes)
    ensures var mark := BeginMark(kind);
            && HasPrefix(mark, HEADER) && HasSuffix(mark, ENDING) && mark[|HEADER|..|mark| - |ENDING|] == kind
            && mark[|mark| - 1] == DASH && (LF !in kind ==> LF !in mark)
  {
  }

  /** A first line that is mark, its line ending, and the rest. */
  lemma FirstLine(mark: Bytes, lineEnding: Bytes, text: Bytes)
    requires mark != [] && mark[|mark| - 1] == DASH && LF !in mark && IsLineEnding(lineEnding)
    ensures var data, headerEnd := mark + lineEnding + text, |mark| + |lineEnding| - 1;
            && Index(data, [LF]) == Some(headerEnd)
            && (data[headerEnd - 1] == CR <==> lineEnding == [CR, LF])
            && data[..|mark|] == mark && data[headerEnd + 1..] == text
  {
    hide Index;
    var data, headerEnd := mark + lineEnding + text, |mark| + |lineEnding| - 1;
    assert data[..headerEnd] == mark + lineEnding[..|lineEnding| - 1];
    IndexOfByte(data, LF, headerEnd);
  }

  lemma HeaderAccepted(kind: Bytes, lineEnding: Bytes, text: Bytes)
    requires kind != [] && LF !in kind && IsLineEnding(lineEnding)
    ensures Decode(BeginMark(kind) + lineEnding + text) == DecodeBody(kind, lineEnding, text)
  {
    hide Index, DecodeBody, BeginMark, HasPrefix, HasSuffix;
    var mark := BeginMark(kind);
    MarkParts(kind);
    FirstLine(mark, lineEnding, text);
    HeaderHasRoom(mark);
    PrefixOfMore(mark, lineEnding + text);
    ConcatAssoc(mark, lineEnding, text);
  }

  lemma PrefixOfMore(s: Bytes, t: Bytes)
    requires HasPrefix(s, HEADER)
    ensures HasPrefix(s + t, HEADER)
  {
    assert (s + t)[..|HEADER|] == s[..|HEADER|];
  }

  /** What the first line is, when the parser has found its parts. */
  lemma HeaderOnly(data: Bytes) returns (kind: Bytes, lineEnding: Bytes, text: Bytes)
    requires Decode(data).Ok?
    ensures kind != [] && LF !in kind && IsLineEnding(lineEnding)
    ensures data == BeginMark(kind) + lineEnding + text && Decode(data) == DecodeBody(kind, lineEnding, text)
  {
    hide DecodeBody, Index;
    var headerEnd := Index(data, [LF]).value;
    IndexOfByte(data, LF, headerEnd);
    var crlf := headerEnd > 0 && data[headerEnd - 1] == CR;
    var header := if crlf then data[..headerEnd - 1] else data[..headerEnd];
    lineEnding, text := if crlf then [CR, LF] else [LF], data[headerEnd + 1..];
    HeaderHasRoom(header);
    kind := header[|HEADER|..|header| - |ENDING|];
    MarkOfParts(header, kind);
    LineOfParts(data, headerEnd, header, lineEnding);
  }

  lemma MarkOfParts(header: Bytes, kind: Bytes)
    requires HasPrefix(header, HEADER) && HasSuffix(header, ENDING) && |header| >= |HEADER| + |ENDING|
    requires kind == header[|HEADER|..|header| - |ENDING|]
    ensures header == BeginMark(kind) && forall b :: b in kind ==> b in header
  {
    assert header == header[..|HEADER|] + kind + header[|header| - |ENDING|..];
  }

  lemma LineOfParts(data: Bytes, headerEnd: nat, header: Bytes, lineEnding: Bytes)
    requires headerEnd < |data| && data[headerEnd] == LF && LF !in data[..headerEnd]
    requires if headerEnd > 0 && data[headerEnd - 1] == CR then header == data[..headerEnd - 1] && lineEnding == [CR, LF]
             else header == data[..headerEnd] && lineEnding == [LF]
    ensures data == header + lineEnding + data[headerEnd + 1..] && LF !in header
  {
    assert forall b :: b in header ==> b in data[..headerEnd];
  }

  // ---- Main results -----------------------------------------------------------------------------

  /** The parser accepts the texts of the grammar and no others, each with the one block that it is the text of. */
  lemma DecodeAcceptsExactlyBlockTexts(data: Bytes, block: Block)
    ensures Decode(data) == Ok(block)
       <==> exists lineEnding, lines, tail :: IsBlockText(data, block, lineEnding, lines, tail)
  {
    hide Decode, DecodeBody, BeginMark, IsBodyText;
    if Decode(data) == Ok(block) {
      var kind, lineEnding, text := HeaderOnly(data);
      var lines, tail := BodyOnly(kind, lineEnding, text);
      assert IsBlockText(data, block, lineEnding, lines, tail);
    }
    if lineEnding, lines, tail :| IsBlockText(data, block, lineEnding, lines, tail) {
      var text :| data == BeginMark(block.kind) + lineEnding + text && IsBodyText(text, block, lineEnding, lines, tail);
      HeaderAccepted(block.kind, lineEnding, text);
      BodyAccepted(text, block, lineEnding, lines, tail);
    }
  }

  /** The lines that are printed hold 64 characters each, except that the last may hold fewer. */
  lemma {:induction false} ChunkedLines(b64: Bytes)
    ensures var lines := Chunked(b64);
            && Concat(lines) == b64 && (lines == [] <==> b64 == [])
            && forall i :: 0 <= i < |lines| ==> (if i < |lines| - 1 then |lines[i]| == 64 else 1 <= |lines[i]| <= 64)
    decreases |b64|
  {
    if b64 != [] {
      var n := Min(64, |b64|);
      ChunkedLines(b64[n..]);
      assert b64 == b64[..n] + b64[n..];
    }
  }

  lemma {:induction false} PiecesAreClean(lines: seq<Bytes>)
    requires NoLineEnds(Concat(lines))
    ensures AllClean(lines)
    decreases |lines|
  {
    if lines != [] {
      PiecesAreClean(lines[1..]);
      assert Concat(lines)[..|lines[0]|] == lines[0];
    }
  }

  /** What is printed is text of the grammar, in lines of 64. */
  lemma PrintedIsBlockText(kind: Bytes, blob: Bytes)
    requires kind != [] && LF !in kind && blob != []
    ensures IsBlockText(EncodedText(kind, blob), Block(kind, blob), [LF], Chunked(Encode64(blob)), [LF])
  {
    var lines := Chunked(Encode64(blob));
    ChunkedLines(Encode64(blob));
    EncodedIsBase64Text(blob);
    Base64IsClean(blob);
    PiecesAreClean(lines);
    hide BeginMark, EndMark, Chunked, Encode64, Concat, Ended, AllClean;
    var a, b, c, d, e := BeginMark(kind), [LF], Ended(lines, [LF]), EndMark(kind), [LF];
    ConcatAssoc(a + b, c, d);
    ConcatAssoc(a + b, c + d, e);
    assert IsBodyText(c + d + e, Block(kind, blob), [LF], lines, [LF]);
  }

  /** A block survives being printed and parsed just when it has a type, of one line, and something in it. */
  lemma RoundTripsExactly(kind: Bytes, blob: Bytes)
    ensures Decode(EncodedText(kind, blob)) == Ok(Block(kind, blob)) <==> kind != [] && LF !in kind && blob != []
  {
    hide Decode, EncodedText;
    var data, block := EncodedText(kind, blob), Block(kind, blob);
    DecodeAcceptsExactlyBlockTexts(data, block);
    if kind != [] && LF !in kind && blob != [] {
      PrintedIsBlockText(kind, blob);
    }
    NothingPrinted(kind);
  }

  /** The shortest text of a block has an empty line in it. */
  lemma ShortestText(data: Bytes, block: Block, lineEnding: Bytes, lines: seq<Bytes>, tail: Bytes)
    ensures var n := |BeginMark(block.kind)|;
            IsBlockText(data, block, lineEnding, lines, tail) && |data| == n + |EndMark(block.kind)| + 2 ==> data[n + 1] == LF
  {
    if IsBlockText(data, block, lineEnding, lines, tail) && |data| == |BeginMark(block.kind)| + |EndMark(block.kind)| + 2 {
      var text :| data == BeginMark(block.kind) + lineEnding + text && IsBodyText(text, block, lineEnding, lines, tail);
      var inner := RemoveAllJoins(lines, lineEnding);
      assert |data| == |BeginMark(block.kind)| + |lineEnding| + |text|;
      assert |text| == |inner| + |lineEnding| + |EndMark(block.kind)| + |tail|;
      assert data[|BeginMark(block.kind)| + 1] == text[0];
    }
  }

  /** A block with nothing in it is printed as text that is no block. */
  lemma NothingPrinted(kind: Bytes)
    ensures forall lineEnding, lines, tail :: !IsBlockText(EncodedText(kind, []), Block(kind, []), lineEnding, lines, tail)
  {
    var data := EncodedText(kind, []);
    assert data == BeginMark(kind) + [LF] + EndMark(kind) + [LF];
    assert data[|BeginMark(kind)| + 1] == EndMark(kind)[0] == DASH;
    forall lineEnding, lines, tail
      ensures !IsBlockText(data, Block(kind, []), lineEnding, lines, tail)
    {
      ShortestText(data, Block(kind, []), lineEnding, lines, tail);
    }
  }

  /** Yet there is text for a block with nothing in it: one empty line between header and footer. */
  lemma EmptyBlobIsOneEmptyLine(kind: Bytes, lineEnding: Bytes, tail: Bytes)
    requires kind != [] && LF !in kind && IsLineEnding(lineEnding) && (tail == [] || tail == lineEnding)
    ensures Decode(BeginMark(kind) + lineEnding + (lineEnding + EndMark(kind) + tail)) == Ok(Block(kind, []))
  {
    hide Decode, BeginMark, EndMark;
    var block, text := Block(kind, []), lineEnding + EndMark(kind) + tail;
    var lines := OneEmptyLine(lineEnding);
    assert [] + lineEnding == lineEnding;
    assert IsBodyText(text, block, lineEnding, lines, tail);
    DecodeAcceptsExactlyBlockTexts(BeginMark(kind) + lineEnding + text, block);
    assert IsBlockText(BeginMark(kind) + lineEnding + text, block, lineEnding, lines, tail);
  }
}

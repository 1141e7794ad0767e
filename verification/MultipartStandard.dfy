/** Parts as section 5.1.1 of RFC 2046 prints them, where a part may have no header lines at all and
    may end after its headers, without the blank line and the content, against the parser, which needs a
    Content-Type and a blank line in every part. */
module MultipartStandard {
  import opened Common
  import opened Multipart
  import opened MultipartGrammar
  import opened MultipartHeaders
  import opened MultipartText

  function HeaderText(lines: seq<Bytes>): Bytes {
    if lines == [] then [] else lines[0] + CRLF + HeaderText(lines[1..])
  }

  /** Header lines, the blank line and the content if there are any, and what follows. */
  function StandardPart(lines: seq<Bytes>, content: Option<Bytes>, next: Bytes): Bytes {
    HeaderText(lines) + CRLF + (if content.Some? then content.value + CRLF + next else next)
  }

  /** What a part means: a part without content is empty. */
  function Meaning(contentType: Text, content: Option<Bytes>): Part {
    Part(contentType, if content.Some? then content.value else [])
  }

  /** What the code asks of the header lines: at least one, not too long, all of them headers on one line
      each, and exactly one content type. */
  ghost predicate Accepted(lines: seq<Bytes>, contentType: Text) {
    lines != [] && |Block(lines)| <= MAX_HEADER_BYTES && GoodLines(lines, contentType)
  }

  // ---- header lines ----

  lemma {:induction false} BlockEnds(lines: seq<Bytes>)
    requires lines != []
    ensures HeaderText(lines) + CRLF == Block(lines) + BLANK_LINE
    decreases |lines|
  {
    if |lines| == 1 {
      assert HeaderText(lines) == lines[0] + CRLF + HeaderText(lines[1..]) == lines[0] + CRLF;
    } else {
      BlockEnds(lines[1..]);
      calc {
        HeaderText(lines) + CRLF;
        lines[0] + CRLF + (HeaderText(lines[1..]) + CRLF);
        lines[0] + CRLF + (Block(lines[1..]) + BLANK_LINE);
        Block(lines) + BLANK_LINE;
      }
    }
  }

  /** After a field line, the next line break is the one that ends it. */
  lemma {:induction false} BreakAfterLine(line: Bytes, rest: Bytes, q: nat)
    requires FieldLine(line) && q < |line| && rest != [] && rest[0] == CR
    ensures !At(line + rest, CRLF, q)
  {
    if q + 2 <= |line| {
      OccursInPrefix(line, rest, CRLF, q);
    } else {
      assert (line + rest)[q..][1] == CR;
    }
  }

  lemma {:induction false} BlankIsTwoBreaks(s: Bytes, q: nat)
    requires At(s, BLANK_LINE, q)
    ensures At(s, CRLF, q) && At(s, CRLF, q + 2)
  {
    assert s[q..][..4] == BLANK_LINE;
    assert s[q..][..2] == s[q..][..4][..2] == CRLF;
    assert s[q + 2..][..2] == s[q..][..4][2..] == CRLF;
  }

  lemma {:induction false} OccursInSuffix(a: Bytes, b: Bytes, needle: Bytes, q: nat)
    requires |a| <= q
    ensures At(a + b, needle, q) == At(b, needle, q - |a|)
  {
    if q <= |a + b| {
      assert (a + b)[q..] == b[q - |a|..];
    }
  }

  /** No blank line inside a block of non-empty lines. */
  lemma {:induction false} NoEarlyBlank(lines: seq<Bytes>, q: nat)
    requires lines != [] && FieldLines(lines) && q < |Block(lines)|
    ensures !At(Block(lines) + BLANK_LINE, BLANK_LINE, q)
    decreases |lines|
  {
    hide FieldLine, At;
    var line := lines[0];
    var text := Block(lines) + BLANK_LINE;
    if At(text, BLANK_LINE, q) {
      BlankIsTwoBreaks(text, q);
      if |lines| == 1 {
        BreakAfterLine(line, BLANK_LINE, q);
      } else if q < |line| + 2 {
        NoEarlyBlankHere(lines, q);
      } else {
        var rest := Block(lines[1..]) + BLANK_LINE;
        assert text == (line + CRLF) + rest;
        OccursInSuffix(line + CRLF, rest, BLANK_LINE, q);
        NoEarlyBlank(lines[1..], q - |line| - 2);
      }
    }
  }

  lemma {:induction false} NoEarlyBlankHere(lines: seq<Bytes>, q: nat)
    requires |lines| > 1 && FieldLines(lines) && q < |lines[0]| + 2
    ensures !At(Block(lines) + BLANK_LINE, CRLF, q) || !At(Block(lines) + BLANK_LINE, CRLF, q + 2)
  {
    hide FieldLine;
    var line := lines[0];
    var rest := Block(lines[1..]) + BLANK_LINE;
    var text := Block(lines) + BLANK_LINE;
    assert text == line + (CRLF + rest) == (line + CRLF) + rest;
    if q < |line| {
      BreakAfterLine(line, CRLF + rest, q);
    } else if q == |line| {
      OccursInSuffix(line + CRLF, rest, CRLF, q + 2);
      StartsUnbroken(lines[1..]);
    } else {
      assert text[q..][0] == LF;
    }
  }

  lemma {:induction false} StartsUnbroken(lines: seq<Bytes>)
    requires lines != [] && FieldLines(lines)
    ensures !At(Block(lines) + BLANK_LINE, CRLF, 0)
  {
    var rest := if |lines| == 1 then BLANK_LINE else CRLF + Block(lines[1..]) + BLANK_LINE;
    assert Block(lines) + BLANK_LINE == lines[0] + rest;
    BreakAfterLine(lines[0], rest, 0);
  }

  // ---- a part without header lines ----

  lemma {:induction false} EmptyLineIsNoHeader(rest: seq<Text>)
    ensures HeaderLines([[]] + rest, None) == Err(MissingColon)
  {
    hide HeaderLine;
    var lines := [[]] + rest;
    assert lines[0] == [];
    EmptyLine();
  }

  lemma {:induction false} EmptyLine()
    ensures HeaderLine([], None) == Err(MissingColon)
  {
  }

  lemma {:induction false} EmptyBlock()
    ensures PartHeaders([]).Err?
  {
    hide Lines, HeaderLines;
    NoBreakFound([]);
    var line: Text := [];
    assert [line] + [] == [line];
    EmptyLineIsNoHeader([]);
  }

  /** A header block that is empty, or begins with a line break, gives no content type. */
  lemma {:induction false} NoHeaderBlock(headers: Bytes)
    requires headers == [] || StartsWith(headers, CRLF)
    ensures PartHeaders(headers).Err?
  {
    hide Decode, Lines, HeaderLines;
    if headers == [] {
      EmptyBlock();
    } else {
      var h := headers[2..];
      assert headers == CRLF + h;
      DecodeBreak(h);
      if Decode(h).Some? {
        var rest := Decode(h).value;
        assert [] + TEXT_CRLF + rest == TEXT_CRLF + rest;
        FirstLine([], rest);
        EmptyLineIsNoHeader(Lines(rest));
      }
    }
  }

  /** A part that begins with the blank line is refused, whatever it contains and whatever follows. */
  lemma {:induction false} HeaderlessPartIsRefused(rest: Bytes, delimiter: Bytes)
    ensures OnePart(CRLF + rest, delimiter).Err?
  {
    hide NextValid, Find, PartHeaders;
    var text := CRLF + rest;
    var found := Find(text, BLANK_LINE, 0);
    if found.Some? {
      var k := found.value;
      AtIndex(text, BLANK_LINE, k, 0);
      assert k != 1;
      if k >= 2 {
        assert text[..k][..2] == CRLF;
      }
      NoHeaderBlock(text[..k]);
    }
  }

  // ---- a part without content ----

  lemma {:induction false} MarkerStartsWithBreak(s: Bytes, delimiter: Bytes, p: nat)
    requires DelimiterAt(s, delimiter, p)
    ensures p < |s| && s[p] == CR
  {
    AtIndex(s, Marker(delimiter), p, 0);
  }

  /** Text that begins with a delimiter holds its first marker only after it. */
  lemma {:induction false} MarkerPastDelimiter(next: Bytes, boundary: Bytes)
    requires ValidBoundary(boundary) && StartsWith(next, Delimiter(boundary))
    ensures var found := NextValid(next, Delimiter(boundary), 0);
      found.Some? ==> StartsWith(next[..found.value], Delimiter(boundary))
  {
    var d := Delimiter(boundary);
    var found := NextValid(next, d, 0);
    if found.Some? {
      hide DelimiterAt, NextValid, ValidBoundary, DelimiterSuffix;
      var p := found.value;
      MarkerStartsWithBreak(next, d, p);
      if p < |d| {
        assert next[..|d|][p] == d[p];
        NoBreakInDelimiter(boundary, p);
      }
      assert next[..p][..|d|] == next[..|d|];
    }
  }

  lemma {:induction false} BodyAfterBlank(headers: Bytes, rest: Bytes, delimiter: Bytes)
    requires Find(headers + BLANK_LINE + rest, BLANK_LINE, 0) == Some(|headers|)
    ensures var r := OnePart(headers + BLANK_LINE + rest, delimiter);
      r.Ok? ==> NextValid(rest, delimiter, 0).Some? && r.value.0.body == rest[..NextValid(rest, delimiter, 0).value]
  {
    hide Find, PartHeaders, NextValid;
    assert (headers + BLANK_LINE + rest)[|headers| + 4..] == rest;
  }

  /** A part that ends after its headers is never read as empty: what is read instead, if anything, begins
      with the delimiter that should have ended it. */
  lemma {:induction false} ContentlessPartSwallows(lines: seq<Bytes>, next: Bytes, boundary: Bytes)
    requires ValidBoundary(boundary) && OnDelimiter(next, Delimiter(boundary)) && FieldLines(lines)
    ensures var r := OnePart(StandardPart(lines, None, next), Delimiter(boundary));
      r.Ok? ==> StartsWith(r.value.0.body, Delimiter(boundary))
  {
    hide ValidBoundary, FieldLines, OnePart, NextValid, Find, DelimiterSuffix;
    var d := Delimiter(boundary);
    if lines == [] {
      assert StandardPart(lines, None, next) == CRLF + next;
      HeaderlessPartIsRefused(next, d);
    } else {
      BlockIsFound(lines, next);
      BlockEnds(lines);
      assert StandardPart(lines, None, next) == Block(lines) + BLANK_LINE + next;
      BodyAfterBlank(Block(lines), next, d);
      MarkerPastDelimiter(next, boundary);
    }
  }

  lemma {:induction false} NoBreakInDelimiter(boundary: Bytes, i: nat)
    requires ValidBoundary(boundary) && i < |Delimiter(boundary)|
    ensures Delimiter(boundary)[i] != CR
  {
    if i >= 2 {
      assert Delimiter(boundary)[i] == boundary[i - 2];
    }
  }

  lemma {:induction false} BlockIsFound(lines: seq<Bytes>, rest: Bytes)
    requires lines != [] && FieldLines(lines)
    ensures Find(Block(lines) + BLANK_LINE + rest, BLANK_LINE, 0) == Some(|Block(lines)|)
  {
    forall q | 0 <= q < |Block(lines)| ensures !At(Block(lines) + BLANK_LINE, BLANK_LINE, q) {
      NoEarlyBlank(lines, q);
    }
    BlankLineFound(Block(lines), rest);
  }

  // ---- any part ----

  /** A standard part is read back if and only if it has an acceptable header block, and content that holds
      no delimiter; without header lines it is an error. */
  lemma {:induction false} StandardPartReads(lines: seq<Bytes>, ct: Text, content: Option<Bytes>, next: Bytes,
      boundary: Bytes)
    requires ValidBoundary(boundary) && OnDelimiter(next, Delimiter(boundary)) && FieldLines(lines)
    ensures var r := OnePart(StandardPart(lines, content, next), Delimiter(boundary));
      && (r.Ok? && r.value.0 == Meaning(ct, content) <==>
            Accepted(lines, ct) && content.Some? && Clear(content.value, next, Delimiter(boundary)))
      && (r.Ok? && r.value.0 == Meaning(ct, content) ==> r.value.1 == next)
      && (lines == [] ==> r.Err?)
  {
    hide ValidBoundary, OnDelimiter, FieldLine, OnePart, PartHeaders, Clear, GoodLines;
    var d := Delimiter(boundary);
    if content.None? {
      ContentlessPartSwallows(lines, next, boundary);
      if lines == [] {
        assert StandardPart(lines, content, next) == CRLF + next;
        HeaderlessPartIsRefused(next, d);
      }
    } else if lines == [] {
      assert StandardPart(lines, content, next) == CRLF + (content.value + CRLF + next);
      HeaderlessPartIsRefused(content.value + CRLF + next, d);
    } else {
      BlockEnds(lines);
      forall q | 0 <= q < |Block(lines)| ensures !At(Block(lines) + BLANK_LINE, BLANK_LINE, q) {
        NoEarlyBlank(lines, q);
      }
      assert StandardPart(lines, content, next) == PartText(Block(lines), content.value, next);
      BlockReads(Block(lines), Part(ct, content.value), next, boundary);
      BlockHeaders(lines, ct);
    }
  }

  /** The same for one header block that ends at the first blank line. */
  lemma {:induction false} BlockReads(headers: Bytes, part: Part, next: Bytes, boundary: Bytes)
    requires ValidBoundary(boundary) && OnDelimiter(next, Delimiter(boundary))
    requires forall q :: 0 <= q < |headers| ==> !At(headers + BLANK_LINE, BLANK_LINE, q)
    ensures var r := OnePart(PartText(headers, part.body, next), Delimiter(boundary));
      && (r.Ok? && r.value.0 == part <==>
            && |headers| <= MAX_HEADER_BYTES && PartHeaders(headers) == Ok(part.contentType)
            && Clear(part.body, next, Delimiter(boundary)))
      && (r.Ok? && r.value.0 == part ==> r.value.1 == next)
  {
    if |headers| <= MAX_HEADER_BYTES && PartHeaders(headers).Ok? {
      hide OnePart, Clear;
      var found := Part(PartHeaders(headers).value, part.body);
      OnePartReads(headers, found, next, boundary);
      OnePartType(headers, part.body, next, Delimiter(boundary));
    } else {
      hide NextValid, Find, PartHeaders, Clear;
      BlankLineFound(headers, part.body + CRLF + next);
      assert PartText(headers, part.body, next)[..|headers|] == headers;
    }
  }

  lemma {:induction false} OnePartType(headers: Bytes, content: Bytes, next: Bytes, delimiter: Bytes)
    requires forall q :: 0 <= q < |headers| ==> !At(headers + BLANK_LINE, BLANK_LINE, q)
    ensures var r := OnePart(PartText(headers, content, next), delimiter);
      r.Ok? ==> PartHeaders(headers) == Ok(r.value.0.contentType)
  {
    hide NextValid, Find, PartHeaders;
    BlankLineFound(headers, content + CRLF + next);
    assert PartText(headers, content, next)[..|headers|] == headers;
  }
}

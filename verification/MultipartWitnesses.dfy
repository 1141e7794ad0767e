/** Messages that the standard allows and the parser refuses or misreads. */
module MultipartWitnesses {
  import opened Common
  import opened Multipart
  import opened MultipartGrammar
  import opened MultipartHeaders
  import opened MultipartText
  import opened MultipartStandard

  const B: Bytes := [98]
  const TYPE_X: Bytes := CONTENT_TYPE_PREFIX + [120]

  /** One part whose first delimiter line is plain: what the parser goes on to read. */
  lemma {:induction false} FirstPartDecides(text: Bytes, boundary: Bytes)
    ensures var d := Delimiter(boundary);
      OnePart(text, d).Err? ==> ParseMultipart(d + (CRLF + text), boundary).Err?
  {
    hide OnePart, DelimiterSuffix;
    var d := Delimiter(boundary);
    var body := d + (CRLF + text);
    PartLine([], text);
    assert [] + CRLF + text == CRLF + text;
    assert body[..|d|] == d && body[|d|..] == CRLF + text && body[|d| + 2..] == text && body[0..] == body;
  }

  /** One part with no header lines and the content "x", under the boundary "b". */
  lemma HeaderlessMessageIsRefused()
    ensures ParseMultipart([45, 45, 98, 13, 10, 13, 10, 120, 13, 10, 45, 45, 98, 45, 45], B).Err?
  {
    hide ParseMultipart, OnePart;
    var rest: Bytes := [120, 13, 10, 45, 45, 98, 45, 45];
    HeaderlessPartIsRefused(rest, Delimiter(B));
    FirstPartDecides(CRLF + rest, B);
    assert Delimiter(B) + (CRLF + (CRLF + rest)) == [45, 45, 98, 13, 10, 13, 10, 120, 13, 10, 45, 45, 98, 45, 45];
  }

  /** A message of one part that ends after its only header line. */
  lemma ContentlessMessageIsRefused()
    ensures var d := Delimiter(B); ParseMultipart(d + (CRLF + (TYPE_X + BLANK_LINE + (d + DASHES))), B).Err?
  {
    var d := Delimiter(B);
    var rest := d + DASHES;
    PlainHeaderIsBlock([120]);
    BlankLineFound(TYPE_X, rest);
    var text := TYPE_X + BLANK_LINE + rest;
    assert text[|TYPE_X| + 4..] == rest;
    assert rest == [45, 45, 98, 45, 45];
    if NextValid(rest, d, 0).Some? {
      MarkerStartsWithBreak(rest, d, NextValid(rest, d, 0).value);
    }
    FirstPartDecides(text, B);
  }

  /** A message of one part with the plain header. */
  function OneMessage(content: Bytes, delimiter: Bytes): Bytes {
    delimiter + (CRLF + PartText(TYPE_X, content, delimiter + DASHES))
  }

  lemma {:induction false} OneMessageIsPrint(content: Bytes, delimiter: Bytes)
    ensures Print([Segment([], TYPE_X, Part([120], content))], [], delimiter) == OneMessage(content, delimiter)
  {
    hide PartText;
    var segments := [Segment([], TYPE_X, Part([120], content))];
    assert segments[1..] == [];
    assert delimiter + (DASHES + []) == delimiter + DASHES;
    assert [] + CRLF == CRLF;
  }

  lemma {:induction false} OneMessageIsFormed(content: Bytes)
    ensures WellFormed([Segment([], TYPE_X, Part([120], content))], [])
  {
    PlainHeaderIsBlock([120]);
    assert Widen([120]) == [120];
    hide HeaderBlock;
    var none: Bytes := [];
    assert Padding(none[..0]);
  }

  /** Two parts, the first of which ends after its only header line, are read as one, which holds the
      second as it stands. */
  lemma {:induction false} ContentlessMessageIsMisread(content: Bytes, boundary: Bytes)
    requires ValidBoundary(boundary)
    requires var second := OnlyPart(content, Delimiter(boundary));
      forall q :: 0 <= q < |second| ==> !At(second, Marker(Delimiter(boundary)), q)
    ensures var second := OnlyPart(content, Delimiter(boundary));
      ParseMultipart(OneMessage(second, Delimiter(boundary)), boundary) == Ok([Part([120], second)])
  {
    hide ValidBoundary, ParseMultipart, HeaderBlock, Print, WellFormed, ContentsClear, OnlyPart, OneMessage;
    var second := OnlyPart(content, Delimiter(boundary));
    var segments := [Segment([], TYPE_X, Part([120], second))];
    OneMessageIsFormed(second);
    OneMessageIsPrint(second, Delimiter(boundary));
    MarkerFreeContentsAreClear(segments, [], boundary);
    RoundTrip(segments, [], boundary);
    assert PartsOf(segments) == [Part([120], second)];
  }

  /** A delimiter line, the plain header, the blank line and the content. */
  function OnlyPart(content: Bytes, delimiter: Bytes): Bytes {
    delimiter + CRLF + TYPE_X + BLANK_LINE + content
  }

  /** For instance, a second part with the content "hi". */
  lemma TwoPartsReadAsOne()
    ensures var second := OnlyPart([104, 105], Delimiter(B));
      ParseMultipart(OneMessage(second, Delimiter(B)), B) == Ok([Part([120], second)])
  {
    hide ParseMultipart, OneMessage;
    var d := Delimiter(B);
    var second := OnlyPart([104, 105], d);
    assert second == [45, 45, 98, 13, 10, 67, 111, 110, 116, 101, 110, 116, 45, 84, 121, 112, 101, 58, 32, 120,
                      13, 10, 13, 10, 104, 105];
    forall q | 0 <= q < |second| ensures !At(second, Marker(d), q) {
      if q + 5 <= |second| {
        assert second[q..][..5][0] == second[q] && second[q..][..5][2] == second[q + 2];
        assert Marker(d)[0] == CR && Marker(d)[2] == DASH;
      }
    }
    ContentlessMessageIsMisread([104, 105], B);
  }

  /** With a folded header line no part is read at all. */
  lemma {:induction false} FoldedHeaderIsRefused(lines: seq<Bytes>, i: nat, content: Option<Bytes>, next: Bytes,
      delimiter: Bytes)
    requires FieldLines(lines) && i < |lines| && (lines[i][0] == SPACE || lines[i][0] == TAB)
    ensures OnePart(StandardPart(lines, content, next), delimiter).Err?
  {
    var rest := if content.Some? then content.value + CRLF + next else next;
    BlockEnds(lines);
    BlockIsFound(lines, rest);
    var text := StandardPart(lines, content, next);
    assert text == Block(lines) + BLANK_LINE + rest;
    assert text[..|Block(lines)|] == Block(lines);
    hide PartHeaders, Find, NextValid;
    if PartHeaders(Block(lines)).Ok? {
      var ct := PartHeaders(Block(lines)).value;
      BlockHeaders(lines, ct);
      FoldedLineIsNoHeader(lines, i, ct);
    }
  }
}

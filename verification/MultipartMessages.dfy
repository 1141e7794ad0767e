/** Whole messages of section 5.1.1 of RFC 2046 against the parser. */
module MultipartMessages {
  import opened Common
  import opened Multipart
  import opened MultipartGrammar
  import opened MultipartText
  import opened MultipartStandard

  datatype StandardSegment = StandardSegment(padding: Bytes, lines: seq<Bytes>, contentType: Text,
      content: Option<Bytes>)

  function StandardPrint(segments: seq<StandardSegment>, tail: Bytes, delimiter: Bytes): Bytes {
    if segments == [] then delimiter + (DASHES + tail)
    else
      delimiter + (segments[0].padding + CRLF +
      StandardPart(segments[0].lines, segments[0].content, StandardPrint(segments[1..], tail, delimiter)))
  }

  predicate StandardForm(segments: seq<StandardSegment>, tail: Bytes) {
    && ClosingTail(tail)
    && forall i :: 0 <= i < |segments| ==> Padding(segments[i].padding) && FieldLines(segments[i].lines)
  }

  function StandardParts(segments: seq<StandardSegment>): seq<Part> {
    seq(|segments|, i requires 0 <= i < |segments| => Meaning(segments[i].contentType, segments[i].content))
  }

  ghost predicate AllAccepted(segments: seq<StandardSegment>) {
    forall i :: 0 <= i < |segments| ==> Accepted(segments[i].lines, segments[i].contentType)
  }

  /** Every part has its blank line and content, and no content holds a delimiter. */
  predicate AllClear(segments: seq<StandardSegment>, tail: Bytes, delimiter: Bytes) {
    segments == [] ||
    (&& segments[0].content.Some?
     && Clear(segments[0].content.value, StandardPrint(segments[1..], tail, delimiter), delimiter)
     && AllClear(segments[1..], tail, delimiter))
  }

  lemma {:induction false} StandardIsOnDelimiter(segments: seq<StandardSegment>, tail: Bytes, delimiter: Bytes)
    requires StandardForm(segments, tail)
    ensures OnDelimiter(StandardPrint(segments, tail, delimiter), delimiter)
  {
    hide ClosingTail, DelimiterSuffix, FieldLines, StandardPart;
    var text := StandardPrint(segments, tail, delimiter);
    assert text[..|delimiter|] == delimiter;
    if segments == [] {
      ClosingLine(tail);
      assert text[|delimiter|..] == DASHES + tail;
    } else {
      var s := segments[0];
      var rest := StandardPart(s.lines, s.content, StandardPrint(segments[1..], tail, delimiter));
      PartLine(s.padding, rest);
      assert text[|delimiter|..] == s.padding + CRLF + rest;
    }
  }

  /** The step of the parser at a printed segment. */
  lemma {:induction false} StandardStep(segments: seq<StandardSegment>, tail: Bytes, delimiter: Bytes, count: nat)
    requires delimiter != [] && segments != [] && StandardForm(segments, tail) && count < MAX_PARTS
    ensures var s := segments[0];
      var r := OnePart(StandardPart(s.lines, s.content, StandardPrint(segments[1..], tail, delimiter)), delimiter);
      PartsFrom(StandardPrint(segments, tail, delimiter), delimiter, count) ==
      if r.Err? then Err(r.error)
      else
        var more := PartsFrom(r.value.1, delimiter, count + 1);
        if more.Ok? then Ok([r.value.0] + more.value) else more
  {
    hide ClosingTail, DelimiterSuffix, FieldLines, OnePart, StandardPart;
    var s := segments[0];
    var text := StandardPrint(segments, tail, delimiter);
    var rest := StandardPart(s.lines, s.content, StandardPrint(segments[1..], tail, delimiter));
    PartLine(s.padding, rest);
    assert text[|delimiter|..] == s.padding + CRLF + rest;
    assert text[|delimiter| + |s.padding| + 2..] == rest;
  }

  lemma {:induction false} StandardReadsBack(segments: seq<StandardSegment>, tail: Bytes, boundary: Bytes, count: nat)
    requires ValidBoundary(boundary) && StandardForm(segments, tail) && 1 <= count + |segments| <= MAX_PARTS
    ensures var d := Delimiter(boundary);
      PartsFrom(StandardPrint(segments, tail, d), d, count) == Ok(StandardParts(segments)) <==>
      AllAccepted(segments) && AllClear(segments, tail, d)
    decreases |segments|
  {
    hide ValidBoundary, ClosingTail, DelimiterSuffix, OnePart, PartsFrom, FieldLines, StandardPart, Clear,
        StandardPrint, Accepted;
    var d := Delimiter(boundary);
    if segments == [] {
      ClosingStandard(tail, d, count);
      assert StandardParts(segments) == [];
    } else {
      var s, others := segments[0], segments[1..];
      var next := StandardPrint(others, tail, d);
      StandardIsOnDelimiter(others, tail, d);
      StandardPartReads(s.lines, s.contentType, s.content, next, boundary);
      StandardStep(segments, tail, d, count);
      StandardReadsBack(others, tail, boundary, count + 1);
      var part := Meaning(s.contentType, s.content);
      assert StandardParts(segments) == [part] + StandardParts(others);
      assert AllAccepted(segments) <==> Accepted(s.lines, s.contentType) && AllAccepted(others) by {
        AcceptedSplits(segments);
      }
      var r := OnePart(StandardPart(s.lines, s.content, next), d);
      if r.Ok? {
        var more := PartsFrom(r.value.1, d, count + 1);
        if more.Ok? {
          assert ([r.value.0] + more.value)[0] == r.value.0 && ([r.value.0] + more.value)[1..] == more.value;
          assert StandardParts(segments)[0] == part && StandardParts(segments)[1..] == StandardParts(others);
        }
      }
    }
  }

  lemma {:induction false} AcceptedSplits(segments: seq<StandardSegment>)
    requires segments != []
    ensures AllAccepted(segments) <==>
            Accepted(segments[0].lines, segments[0].contentType) && AllAccepted(segments[1..])
  {
    hide Accepted;
    assert forall i :: 1 <= i < |segments| ==> segments[i] == segments[1..][i - 1];
  }

  lemma {:induction false} ClosingStandard(tail: Bytes, delimiter: Bytes, count: nat)
    requires delimiter != [] && ClosingTail(tail) && 1 <= count
    ensures PartsFrom(StandardPrint([], tail, delimiter), delimiter, count) == Ok([])
  {
    ClosingLine(tail);
    assert (delimiter + (DASHES + tail))[|delimiter|..] == DASHES + tail;
  }

  /** A message of the standard is read back as its parts if and only if it has 1 to 1024 of them, every
      one has header lines that the code accepts, a blank line and a content, and no content holds a
      delimiter. */
  lemma {:induction false} StandardMessagesParse(segments: seq<StandardSegment>, tail: Bytes, boundary: Bytes)
    requires ValidBoundary(boundary) && StandardForm(segments, tail)
    ensures var d := Delimiter(boundary);
      ParseMultipart(StandardPrint(segments, tail, d), boundary) == Ok(StandardParts(segments)) <==>
      1 <= |segments| <= MAX_PARTS && AllAccepted(segments) && AllClear(segments, tail, d)
  {
    hide ValidBoundary, DelimiterSuffix, PartsFrom, StandardForm, AllClear, AllAccepted, StandardPrint;
    var d := Delimiter(boundary);
    var text := StandardPrint(segments, tail, d);
    StandardIsOnDelimiter(segments, tail, d);
    assert FirstDelimiter(text, d) == Some(0);
    assert text[0..] == text;
    PartsStayOnDelimiters(text, boundary, 0);
    if 1 <= |segments| <= MAX_PARTS {
      StandardReadsBack(segments, tail, boundary, 0);
    }
  }
}

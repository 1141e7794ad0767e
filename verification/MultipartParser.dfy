/** The multipart parser as it runs: cursors into one body, parts as slices of it. */
module MultipartParser {
  import opened Common
  import opened Multipart
  import opened MultipartGrammar

  /** A part as a slice `[start, end)` of the body. */
  datatype Span = Span(contentType: Text, start: nat, end: nat)

  /** In bounds, disjoint and in order, with a line break between each end and `limit`. */
  predicate InOrder(spans: seq<Span>, limit: nat) {
    && (forall i :: 0 <= i < |spans| ==> spans[i].start <= spans[i].end && spans[i].end + 2 <= limit)
    && (forall i, j :: 0 <= i < j < |spans| ==> spans[i].end < spans[j].start)
  }

  function Slices(body: Bytes, spans: seq<Span>): seq<Part>
    requires InOrder(spans, |body|)
  {
    seq(|spans|, i requires 0 <= i < |spans| => Part(spans[i].contentType, body[spans[i].start..spans[i].end]))
  }

  function Prepend(parts: seq<Part>, r: Result<seq<Part>, MultipartError>): Result<seq<Part>, MultipartError> {
    if r.Ok? then Ok(parts + r.value) else r
  }

  /** The slice stops at the first delimiter from its start on. */
  predicate EndsAtFirstDelimiter(body: Bytes, delimiter: Bytes, span: Span) {
    && DelimiterAt(body, delimiter, span.end)
    && forall q :: span.start <= q < span.end ==> !DelimiterAt(body, delimiter, q)
  }

  // ---- the scanners ----

  method ReadSuffix(suffix: Bytes) returns (r: Option<Suffix>)
    ensures r == DelimiterSuffix(suffix)
  {
    var closing := StartsWith(suffix, DASHES);
    var cursor := if closing then 2 else 0;
    while cursor < |suffix| && (suffix[cursor] == SPACE || suffix[cursor] == TAB)
      invariant cursor <= |suffix|
      invariant PaddingLength(suffix, cursor) == PaddingLength(suffix, if closing then 2 else 0)
    {
      cursor := cursor + 1;
    }
    if closing {
      r := if cursor == |suffix| || StartsWith(suffix[cursor..], CRLF) then Some(ClosingDelimiter) else None;
    } else {
      r := if StartsWith(suffix[cursor..], CRLF) then Some(PartFollows(cursor + 2)) else None;
    }
  }

  method ReadHeaders(headers: Bytes) returns (r: Result<Text, HeaderError>)
    ensures r == PartHeaders(headers)
  {
    var decoded := Decode(headers);
    if decoded.None? {
      return Err(NotUtf8);
    }
    var lines := Lines(decoded.value);
    var found: Option<Text> := None;
    var rest := lines;
    while rest != []
      invariant HeaderLines(lines, None) == HeaderLines(rest, found)
      decreases |rest|
    {
      var line := rest[0];
      if line != [] && (line[0] == 32 || line[0] == 9) {
        return Err(FoldedHeader);
      }
      var colon := Find(line, [58], 0);
      if colon.None? {
        return Err(MissingColon);
      }
      var name := line[..colon.value];
      if !ValidName(name) {
        return Err(InvalidName);
      }
      if Lower(name) == CONTENT_TYPE {
        if found.Some? {
          return Err(DuplicateContentType);
        }
        var value := Trim(line[colon.value + 1..]);
        if value == [] {
          return Err(EmptyContentType);
        }
        found := Some(value);
      }
      rest := rest[1..];
    }
    r := if found.Some? then Ok(found.value) else Err(NoContentType);
  }

  // ---- positions in the whole body ----

  lemma DelimiterInSuffix(body: Bytes, delimiter: Bytes, from: nat, q: nat)
    requires from <= |body|
    ensures DelimiterAt(body[from..], delimiter, q) == DelimiterAt(body, delimiter, from + q)
  {
    hide DelimiterSuffix;
    var s := body[from..];
    if q <= |s| {
      assert s[q..] == body[from + q..];
      if q + |Marker(delimiter)| <= |s| {
        assert s[q + |Marker(delimiter)|..] == body[from + q + |Marker(delimiter)|..];
      }
    }
  }

  lemma SpanEndsAtFirst(body: Bytes, boundary: Bytes, ct: Text, start: nat, p: nat)
    requires ValidBoundary(boundary) && start <= |body| && NextValid(body[start..], Delimiter(boundary), 0) == Some(p)
    ensures EndsAtFirstDelimiter(body, Delimiter(boundary), Span(ct, start, start + p))
  {
    hide ValidBoundary, NextValid, DelimiterAt;
    var d := Delimiter(boundary);
    NextValidIsFirst(body[start..], boundary, 0);
    DelimiterInSuffix(body, d, start, p);
    forall q | start <= q < start + p ensures !DelimiterAt(body, d, q) {
      DelimiterInSuffix(body, d, start, q - start);
    }
  }

  lemma StepAt(body: Bytes, delimiter: Bytes, cursor: nat, headerStart: nat, count: nat)
    requires delimiter != [] && cursor + |delimiter| <= headerStart <= |body|
    requires DelimiterSuffix(body[cursor + |delimiter|..]) == Some(PartFollows(headerStart - cursor - |delimiter|))
    requires OnePart(body[headerStart..], delimiter).Ok?
    ensures var (part, next) := OnePart(body[headerStart..], delimiter).value;
      PartsFrom(body[cursor..], delimiter, count) ==
      if count < MAX_PARTS then Prepend([part], PartsFrom(next, delimiter, count + 1)) else Err(TooManyParts)
  {
    hide DelimiterSuffix, OnePart;
    var rest := body[cursor..];
    assert rest[|delimiter|..] == body[cursor + |delimiter|..];
    assert rest[headerStart - cursor..] == body[headerStart..];
  }

  lemma SlicesExtend(body: Bytes, spans: seq<Span>, span: Span)
    requires InOrder(spans, |body|) && InOrder(spans + [span], |body|)
    ensures span.start <= span.end <= |body|
    ensures Slices(body, spans + [span]) == Slices(body, spans) + [Part(span.contentType, body[span.start..span.end])]
  {
    assert (spans + [span])[|spans|] == span;
  }

  lemma PrependTwice(xs: seq<Part>, ys: seq<Part>, r: Result<seq<Part>, MultipartError>)
    ensures Prepend(xs, Prepend(ys, r)) == Prepend(xs + ys, r)
    ensures Prepend([], r) == r
  {
    if r.Ok? {
      assert xs + (ys + r.value) == xs + ys + r.value;
      assert [] + r.value == r.value;
    }
  }

  /** A part that cannot be read ends the parse with its error. */
  lemma FailAt(body: Bytes, delimiter: Bytes, cursor: nat, headerStart: nat, count: nat)
    requires delimiter != [] && cursor + |delimiter| <= headerStart <= |body|
    requires DelimiterSuffix(body[cursor + |delimiter|..]) == Some(PartFollows(headerStart - cursor - |delimiter|))
    requires OnePart(body[headerStart..], delimiter).Err?
    ensures PartsFrom(body[cursor..], delimiter, count) == Err(OnePart(body[headerStart..], delimiter).error)
  {
    hide DelimiterSuffix, OnePart;
    var rest := body[cursor..];
    assert rest[|delimiter|..] == body[cursor + |delimiter|..];
    assert rest[headerStart - cursor..] == body[headerStart..];
  }

  /** The part whose headers begin at `headerStart`, as a slice of the body. */
  method ReadPart(body: Bytes, boundary: Bytes, headerStart: nat) returns (r: Result<Span, MultipartError>)
    requires headerStart <= |body|
    ensures r.Ok? ==> headerStart < r.value.start <= r.value.end && r.value.end + 2 + |Delimiter(boundary)| <= |body|
    ensures r.Ok? ==> OnePart(body[headerStart..], Delimiter(boundary)) ==
                        Ok((Part(r.value.contentType, body[r.value.start..r.value.end]), body[r.value.end + 2..]))
    ensures r.Ok? && ValidBoundary(boundary) ==> EndsAtFirstDelimiter(body, Delimiter(boundary), r.value)
    ensures r.Err? ==> OnePart(body[headerStart..], Delimiter(boundary)) == Err(r.error)
  {
    hide ValidBoundary, DelimiterAt, NextValid, PartHeaders, Find, At, EndsAtFirstDelimiter;
    var d := Delimiter(boundary);
    var text := body[headerStart..];
    var relative := Find(text, BLANK_LINE, 0);
    if relative.None? {
      return Err(HeadersNotTerminated);
    }
    if relative.value > MAX_HEADER_BYTES {
      return Err(HeadersTooLarge);
    }
    var headerEnd := headerStart + relative.value;
    assert body[headerStart..headerEnd] == text[..relative.value];
    var contentType := ReadHeaders(body[headerStart..headerEnd]);
    if contentType.Err? {
      return Err(BadHeaders(contentType.error));
    }
    var start := headerEnd + 4;
    assert body[start..] == text[relative.value + 4..];
    var found := NextValid(body[start..], d, 0);
    if found.None? {
      return Err(ClosingNotFound);
    }
    r := Ok(Span(contentType.value, start, start + found.value));
    assert body[start..][..found.value] == body[start..start + found.value];
    assert body[start..][found.value + 2..] == body[start + found.value + 2..];
    if ValidBoundary(boundary) {
      SpanEndsAtFirst(body, boundary, contentType.value, start, found.value);
    }
  }

  /** What the parser knows at a delimiter: the parts so far, and that the specification continues here. */
  ghost predicate Progress(body: Bytes, boundary: Bytes, spans: seq<Span>, cursor: nat) {
    var d := Delimiter(boundary);
    && cursor + |d| <= |body| && InOrder(spans, cursor)
    && ParseMultipart(body, boundary) == Prepend(Slices(body, spans), PartsFrom(body[cursor..], d, |spans|))
    && (ValidBoundary(boundary) ==> forall i :: 0 <= i < |spans| ==> EndsAtFirstDelimiter(body, d, spans[i]))
  }

  lemma ProgressStarts(body: Bytes, boundary: Bytes, cursor: nat)
    requires FirstDelimiter(body, Delimiter(boundary)) == Some(cursor)
    ensures Progress(body, boundary, [], cursor)
  {
    hide FirstDelimiter, PartsFrom, ValidBoundary;
    assert Slices(body, []) == [];
    PrependTwice([], [], PartsFrom(body[cursor..], Delimiter(boundary), 0));
  }

  lemma ProgressCloses(body: Bytes, boundary: Bytes, spans: seq<Span>, cursor: nat)
    requires Progress(body, boundary, spans, cursor)
    ensures var suffix := DelimiterSuffix(body[cursor + |Delimiter(boundary)|..]);
      && (suffix.None? ==> ParseMultipart(body, boundary) == Err(BoundaryWithoutCrlf))
      && (suffix == Some(ClosingDelimiter) ==>
            InOrder(spans, |body|) && ParseMultipart(body, boundary) == if spans == [] then Err(NoParts)
                else Ok(Slices(body, spans)))
  {
    hide DelimiterSuffix, ParseMultipart, ValidBoundary, EndsAtFirstDelimiter, OnePart;
    var d := Delimiter(boundary);
    assert body[cursor..][|d|..] == body[cursor + |d|..];
    assert Slices(body, spans) + [] == Slices(body, spans);
  }

  lemma ProgressSteps(body: Bytes, boundary: Bytes, spans: seq<Span>, cursor: nat, headerStart: nat, span: Span)
    requires Progress(body, boundary, spans, cursor) && cursor + |Delimiter(boundary)| <= headerStart <= |body|
    requires DelimiterSuffix(body[cursor + |Delimiter(boundary)|..]) ==
        Some(PartFollows(headerStart - cursor - |Delimiter(boundary)|))
    requires headerStart < span.start <= span.end && span.end + 2 + |Delimiter(boundary)| <= |body|
    requires OnePart(body[headerStart..], Delimiter(boundary)) ==
        Ok((Part(span.contentType, body[span.start..span.end]), body[span.end + 2..]))
    requires ValidBoundary(boundary) ==> EndsAtFirstDelimiter(body, Delimiter(boundary), span)
    ensures |spans| + 1 <= MAX_PARTS ==> Progress(body, boundary, spans + [span], span.end + 2)
    ensures |spans| + 1 > MAX_PARTS ==> ParseMultipart(body, boundary) == Err(TooManyParts)
  {
    hide DelimiterSuffix, ParseMultipart, ValidBoundary, EndsAtFirstDelimiter, OnePart, PartsFrom, Slices;
    var d := Delimiter(boundary);
    StepAt(body, d, cursor, headerStart, |spans|);
    if |spans| + 1 <= MAX_PARTS {
      SlicesExtend(body, spans, span);
      PrependTwice(Slices(body, spans), [Part(span.contentType, body[span.start..span.end])],
          PartsFrom(body[span.end + 2..], d, |spans| + 1));
    }
  }

  lemma ProgressFails(body: Bytes, boundary: Bytes, spans: seq<Span>, cursor: nat, headerStart: nat)
    requires Progress(body, boundary, spans, cursor) && cursor + |Delimiter(boundary)| <= headerStart <= |body|
    requires DelimiterSuffix(body[cursor + |Delimiter(boundary)|..]) ==
        Some(PartFollows(headerStart - cursor - |Delimiter(boundary)|))
    requires OnePart(body[headerStart..], Delimiter(boundary)).Err?
    ensures ParseMultipart(body, boundary) == Err(OnePart(body[headerStart..], Delimiter(boundary)).error)
  {
    hide DelimiterSuffix, ParseMultipart, ValidBoundary, EndsAtFirstDelimiter, OnePart, PartsFrom, Slices, InOrder;
    FailAt(body, Delimiter(boundary), cursor, headerStart, |spans|);
  }

  lemma ProgressMeans(body: Bytes, boundary: Bytes, spans: seq<Span>, cursor: nat)
    requires Progress(body, boundary, spans, cursor)
    ensures cursor + |Delimiter(boundary)| <= |body|
    ensures ValidBoundary(boundary) ==> forall i :: 0 <= i < |spans| ==>
        EndsAtFirstDelimiter(body, Delimiter(boundary), spans[i])
  {
    hide ParseMultipart, ValidBoundary, EndsAtFirstDelimiter, PartsFrom, Slices, InOrder;
  }

  /** The parse of a body: what the specification says, as ordered disjoint slices that each stop at
      the first delimiter. */
  method ParseBody(body: Bytes, boundary: Bytes) returns (r: Result<seq<Span>, MultipartError>)
    ensures r.Ok? ==> InOrder(r.value, |body|) && ParseMultipart(body, boundary) == Ok(Slices(body, r.value))
    ensures r.Ok? && ValidBoundary(boundary) ==> forall i :: 0 <= i < |r.value| ==>
        EndsAtFirstDelimiter(body, Delimiter(boundary), r.value[i])
    ensures r.Err? ==> ParseMultipart(body, boundary) == Err(r.error)
  {
    hide ValidBoundary, OnePart, DelimiterSuffix, FirstDelimiter, EndsAtFirstDelimiter, PartsFrom, Slices, InOrder,
        Progress;
    var d := Delimiter(boundary);
    var first := FirstDelimiter(body, d);
    if first.None? {
      return Err(OpeningNotFound);
    }
    var cursor := first.value;
    var spans: seq<Span> := [];
    ProgressStarts(body, boundary, cursor);
    hide ParseMultipart;
    while true
      invariant Progress(body, boundary, spans, cursor) && cursor + |d| <= |body|
      decreases |body| - cursor
    {
      var delimiterEnd := cursor + |d|;
      var suffix := ReadSuffix(body[delimiterEnd..]);
      ProgressCloses(body, boundary, spans, cursor);
      if suffix.None? {
        return Err(BoundaryWithoutCrlf);
      }
      if suffix.value.ClosingDelimiter? {
        ProgressMeans(body, boundary, spans, cursor);
        return if spans == [] then Err(NoParts) else Ok(spans);
      }
      var headerStart := delimiterEnd + suffix.value.consumed;
      var next := ReadPart(body, boundary, headerStart);
      if next.Err? {
        ProgressFails(body, boundary, spans, cursor, headerStart);
        return Err(next.error);
      }
      ProgressSteps(body, boundary, spans, cursor, headerStart, next.value);
      if |spans| + 1 > MAX_PARTS {
        return Err(TooManyParts);
      }
      spans := spans + [next.value];
      cursor := next.value.end + 2;
    }
  }
}

/** What the multipart parser accepts, said without the parser: the printed form of a message. */
module MultipartGrammar {
  import opened Common
  import opened Multipart

  /** One part as it stands in a message: the padding after its delimiter, its header block, and what
      it means. */
  datatype Segment = Segment(padding: Bytes, headers: Bytes, part: Part)

  predicate Padding(s: Bytes) {
    forall i :: 0 <= i < |s| ==> s[i] == SPACE || s[i] == TAB
  }

  /** What may follow the closing delimiter: padding, then the end or a line break and an epilogue. */
  predicate ClosingTail(tail: Bytes) {
    exists n :: 0 <= n <= |tail| && Padding(tail[..n]) && (n == |tail| || At(tail, CRLF, n))
  }

  function PartText(headers: Bytes, content: Bytes, next: Bytes): Bytes {
    headers + BLANK_LINE + (content + CRLF + next)
  }

  /** A message from its first delimiter on. */
  function Print(segments: seq<Segment>, tail: Bytes, delimiter: Bytes): Bytes {
    if segments == [] then delimiter + (DASHES + tail)
    else
      delimiter + (segments[0].padding + CRLF +
      PartText(segments[0].headers, segments[0].part.body, Print(segments[1..], tail, delimiter)))
  }

  predicate HeaderBlock(headers: Bytes, contentType: Text) {
    && |headers| <= MAX_HEADER_BYTES
    && PartHeaders(headers) == Ok(contentType)
    && forall q :: 0 <= q < |headers| ==> !At(headers + BLANK_LINE, BLANK_LINE, q)
  }

  predicate WellFormed(segments: seq<Segment>, tail: Bytes) {
    && ClosingTail(tail)
    && forall i :: 0 <= i < |segments| ==>
         Padding(segments[i].padding) && HeaderBlock(segments[i].headers, segments[i].part.contentType)
  }

  /** No delimiter begins inside the content. */
  predicate Clear(content: Bytes, next: Bytes, delimiter: Bytes) {
    forall q :: 0 <= q < |content| ==> !DelimiterAt(content + CRLF + next, delimiter, q)
  }

  predicate ContentsClear(segments: seq<Segment>, tail: Bytes, delimiter: Bytes) {
    segments == [] ||
    (Clear(segments[0].part.body, Print(segments[1..], tail, delimiter), delimiter)
        && ContentsClear(segments[1..], tail, delimiter))
  }

  function PartsOf(segments: seq<Segment>): seq<Part> {
    seq(|segments|, i requires 0 <= i < |segments| => segments[i].part)
  }

  /** The parser only ever stands on proper delimiters. */
  predicate OnDelimiter(rest: Bytes, delimiter: Bytes) {
    StartsWith(rest, delimiter) && DelimiterSuffix(rest[|delimiter|..]).Some?
  }

  // ---- delimiter lines ----

  lemma {:induction false} PaddingStops(s: Bytes, from: nat, n: nat)
    requires from <= n <= |s| && Padding(s[from..n]) && (n == |s| || (s[n] != SPACE && s[n] != TAB))
    ensures PaddingLength(s, from) == n
    decreases n - from
  {
    if from < n {
      assert s[from] == s[from..n][0];
      assert s[from + 1..n] == s[from..n][1..];
      PaddingStops(s, from + 1, n);
    }
  }

  lemma {:induction false} PaddingSkips(s: Bytes, from: nat)
    requires from <= |s|
    ensures Padding(s[from..PaddingLength(s, from)])
    decreases |s| - from
  {
    if from < |s| && (s[from] == SPACE || s[from] == TAB) {
      PaddingSkips(s, from + 1);
      var n := PaddingLength(s, from + 1);
      assert s[from..n] == [s[from]] + s[from + 1..n];
    }
  }

  lemma PartLine(padding: Bytes, rest: Bytes)
    requires Padding(padding)
    ensures DelimiterSuffix(padding + CRLF + rest) == Some(PartFollows(|padding| + 2))
  {
    var s := padding + CRLF + rest;
    assert s[0..|padding|] == padding;
    assert s[|padding|] == CR;
    PaddingStops(s, 0, |padding|);
    assert s[|padding|..][..2] == CRLF;
    assert s[0] != DASH by {
      if padding != [] {
        assert s[0] == padding[0];
      }
    }
  }

  lemma PartLineShape(suffix: Bytes)
    requires DelimiterSuffix(suffix).Some? && DelimiterSuffix(suffix).value.PartFollows?
    ensures var n := DelimiterSuffix(suffix).value.consumed;
      Padding(suffix[..n - 2]) && suffix == suffix[..n - 2] + CRLF + suffix[n..]
  {
    var cursor := PaddingLength(suffix, 0);
    PaddingSkips(suffix, 0);
    assert suffix[0..cursor] == suffix[..cursor];
    assert suffix[cursor..][..2] == CRLF;
    assert suffix[cursor..] == suffix[cursor..][..2] + suffix[cursor + 2..];
  }

  lemma ClosingLine(tail: Bytes)
    requires ClosingTail(tail)
    ensures DelimiterSuffix(DASHES + tail) == Some(ClosingDelimiter)
  {
    var n :| 0 <= n <= |tail| && Padding(tail[..n]) && (n == |tail| || At(tail, CRLF, n));
    var s := DASHES + tail;
    assert s[..2] == DASHES;
    assert s[2..n + 2] == tail[..n];
    assert s[n + 2..] == tail[n..];
    if n < |tail| {
      AtIndex(tail, CRLF, n, 0);
      assert s[n + 2] == CR;
    }
    PaddingStops(s, 2, n + 2);
  }

  lemma ClosingLineShape(suffix: Bytes)
    requires DelimiterSuffix(suffix) == Some(ClosingDelimiter)
    ensures StartsWith(suffix, DASHES) && ClosingTail(suffix[2..]) && suffix == DASHES + suffix[2..]
  {
    var cursor := PaddingLength(suffix, 2);
    PaddingSkips(suffix, 2);
    var tail := suffix[2..];
    var n := cursor - 2;
    assert tail[..n] == suffix[2..cursor];
    assert tail[n..] == suffix[cursor..];
  }

  // ---- one part ----

  lemma OccursInPrefix<T>(a: seq<T>, b: seq<T>, needle: seq<T>, q: nat)
    requires q + |needle| <= |a|
    ensures At(a + b, needle, q) == At(a, needle, q)
  {
    assert (a + b)[q..][..|needle|] == a[q..][..|needle|];
  }

  lemma BlankLineFound(headers: Bytes, rest: Bytes)
    requires forall q :: 0 <= q < |headers| ==> !At(headers + BLANK_LINE, BLANK_LINE, q)
    ensures Find(headers + BLANK_LINE + rest, BLANK_LINE, 0) == Some(|headers|)
  {
    var text := headers + BLANK_LINE + rest;
    assert text[|headers|..][..4] == BLANK_LINE;
    forall q | 0 <= q < |headers| ensures !At(text, BLANK_LINE, q) {
      OccursInPrefix(headers + BLANK_LINE, rest, BLANK_LINE, q);
    }
    FindFinds(text, BLANK_LINE, |headers|);
  }

  lemma BlankLineShape(text: Bytes, k: nat)
    requires Find(text, BLANK_LINE, 0) == Some(k)
    ensures text == text[..k] + BLANK_LINE + text[k + 4..]
    ensures forall q :: 0 <= q < k ==> !At(text[..k] + BLANK_LINE, BLANK_LINE, q)
  {
    var head := text[..k] + BLANK_LINE;
    assert text[k..][..4] == BLANK_LINE;
    assert text == head + text[k + 4..];
    FindIsFirst(text, BLANK_LINE, 0);
    forall q | 0 <= q < k ensures !At(head, BLANK_LINE, q) {
      OccursInPrefix(head, text[k + 4..], BLANK_LINE, q);
    }
  }

  lemma DelimiterFollows(s: Bytes, delimiter: Bytes, p: nat)
    requires DelimiterAt(s, delimiter, p)
    ensures p + 2 + |delimiter| <= |s| && OnDelimiter(s[p + 2..], delimiter)
    ensures s == s[..p] + CRLF + s[p + 2..]
  {
    hide DelimiterSuffix;
    var marker := Marker(delimiter);
    assert s[p..][..|marker|] == marker;
    assert marker[..2] == CRLF && marker[2..] == delimiter;
    assert s[p..p + 2] == s[p..][..|marker|][..2];
    assert s[p + 2..][..|delimiter|] == s[p..][..|marker|][2..];
    assert s[p + 2..][|delimiter|..] == s[p + |marker|..];
  }

  lemma DelimiterThere(content: Bytes, next: Bytes, delimiter: Bytes)
    requires OnDelimiter(next, delimiter)
    ensures DelimiterAt(content + CRLF + next, delimiter, |content|)
  {
    hide DelimiterSuffix;
    var s := content + CRLF + next;
    var marker := Marker(delimiter);
    assert s[|content|..] == CRLF + next;
    assert (CRLF + next)[..|marker|] == marker;
    assert s[|content| + |marker|..] == next[|delimiter|..];
  }

  lemma DelimiterFound(content: Bytes, next: Bytes, boundary: Bytes)
    requires ValidBoundary(boundary) && OnDelimiter(next, Delimiter(boundary))
    ensures var s := content + CRLF + next;
      NextValid(s, Delimiter(boundary), 0) == Some(|content|) <==> Clear(content, next, Delimiter(boundary))
    ensures NextValid(content + CRLF + next, Delimiter(boundary), 0).Some?
    ensures NextValid(content + CRLF + next, Delimiter(boundary), 0).value <= |content|
  {
    hide DelimiterAt, NextValid, OnDelimiter, ValidBoundary;
    var s := content + CRLF + next;
    DelimiterThere(content, next, Delimiter(boundary));
    NextValidIsFirst(s, boundary, 0);
  }

  /** A printed part is read back exactly when no delimiter begins inside its content. */
  lemma OnePartReads(headers: Bytes, part: Part, next: Bytes, boundary: Bytes)
    requires ValidBoundary(boundary) && OnDelimiter(next, Delimiter(boundary)) && HeaderBlock(headers, part.contentType)
    ensures var r := OnePart(PartText(headers, part.body, next), Delimiter(boundary));
      && r.Ok?
      && (r.value.0 == part <==> Clear(part.body, next, Delimiter(boundary)))
      && (r.value.0 == part ==> r.value.1 == next)
  {
    hide DelimiterAt, NextValid, OnDelimiter, ValidBoundary, PartHeaders, Clear, Find;
    var b := part.body + CRLF + next;
    var text := PartText(headers, part.body, next);
    BlankLineFound(headers, b);
    assert text[..|headers|] == headers;
    assert text[|headers| + 4..] == b;
    DelimiterFound(part.body, next, boundary);
    var p := NextValid(b, Delimiter(boundary), 0).value;
    assert |b[..p]| == p;
    assert b[..|part.body|] == part.body;
    assert b[|part.body| + 2..] == next;
  }

  /** And whatever is read as a part is the print of one. */
  lemma OnePartShape(text: Bytes, boundary: Bytes) returns (headers: Bytes)
    requires ValidBoundary(boundary) && OnePart(text, Delimiter(boundary)).Ok?
    ensures var (part, next) := OnePart(text, Delimiter(boundary)).value;
      && HeaderBlock(headers, part.contentType)
      && text == PartText(headers, part.body, next)
      && Clear(part.body, next, Delimiter(boundary))
      && OnDelimiter(next, Delimiter(boundary))
  {
    hide DelimiterAt, NextValid, OnDelimiter, ValidBoundary, PartHeaders, Find;
    var k := Find(text, BLANK_LINE, 0).value;
    headers := text[..k];
    BlankLineShape(text, k);
    var b := text[k + 4..];
    var p := NextValid(b, Delimiter(boundary), 0).value;
    DelimiterFollows(b, Delimiter(boundary), p);
    NextValidIsFirst(b, boundary, 0);
  }

  // ---- whole messages ----

  lemma PrintIsOnDelimiter(segments: seq<Segment>, tail: Bytes, delimiter: Bytes)
    requires WellFormed(segments, tail)
    ensures OnDelimiter(Print(segments, tail, delimiter), delimiter)
  {
    hide ClosingTail, DelimiterSuffix, HeaderBlock;
    var text := Print(segments, tail, delimiter);
    assert text[..|delimiter|] == delimiter;
    if segments == [] {
      ClosingLine(tail);
      assert text[|delimiter|..] == DASHES + tail;
    } else {
      var rest := PartText(segments[0].headers, segments[0].part.body, Print(segments[1..], tail, delimiter));
      PartLine(segments[0].padding, rest);
      assert text[|delimiter|..] == segments[0].padding + CRLF + rest;
    }
  }

  /** The step of the parser at a printed segment. */
  lemma PartsFromPrint(segments: seq<Segment>, tail: Bytes, delimiter: Bytes, count: nat)
    requires delimiter != [] && segments != [] && WellFormed(segments, tail)
    ensures var r :=
        OnePart(PartText(segments[0].headers, segments[0].part.body, Print(segments[1..], tail, delimiter)), delimiter);
      r.Ok? && count < MAX_PARTS ==>
        var more := PartsFrom(r.value.1, delimiter, count + 1);
        PartsFrom(Print(segments, tail, delimiter), delimiter, count) == if more.Ok? then Ok([r.value.0] + more.value)
            else more
  {
    hide ClosingTail, DelimiterSuffix, HeaderBlock, OnePart, PartText;
    var text := Print(segments, tail, delimiter);
    var rest := PartText(segments[0].headers, segments[0].part.body, Print(segments[1..], tail, delimiter));
    PartLine(segments[0].padding, rest);
    assert text[|delimiter|..] == segments[0].padding + CRLF + rest;
    assert text[|delimiter| + |segments[0].padding| + 2..] == rest;
  }

  lemma {:induction false} PartsStayOnDelimiters(rest: Bytes, boundary: Bytes, count: nat)
    requires ValidBoundary(boundary) && OnDelimiter(rest, Delimiter(boundary))
    ensures var r := PartsFrom(rest, Delimiter(boundary), count);
      && r != Err(TruncatedBoundary) && r != Err(BoundaryWithoutCrlf)
      && (r.Ok? ==> 1 <= count + |r.value|)
      && (r.Ok? && r.value != [] ==> count + |r.value| <= MAX_PARTS)
    decreases |rest|
  {
    hide ValidBoundary, DelimiterSuffix, OnePart, HeaderBlock, PartText, Clear;
    var d := Delimiter(boundary);
    var suffix := DelimiterSuffix(rest[|d|..]);
    if suffix.value.PartFollows? {
      var text := rest[|d| + suffix.value.consumed..];
      var one := OnePart(text, d);
      if one.Ok? {
        var _ := OnePartShape(text, boundary);
        PartsStayOnDelimiters(one.value.1, boundary, count + 1);
      }
    }
  }

  lemma {:induction false} PrintReadsBack(segments: seq<Segment>, tail: Bytes, boundary: Bytes, count: nat)
    requires ValidBoundary(boundary) && WellFormed(segments, tail) && 1 <= count + |segments| <= MAX_PARTS
    ensures var d := Delimiter(boundary);
      PartsFrom(Print(segments, tail, d), d, count) == Ok(PartsOf(segments)) <==> ContentsClear(segments, tail, d)
    decreases |segments|
  {
    hide ValidBoundary, ClosingTail, DelimiterSuffix, OnePart, PartsFrom, HeaderBlock, PartText, Clear, Print;
    var d := Delimiter(boundary);
    if segments == [] {
      ClosingPrint(tail, d, count);
      assert PartsOf(segments) == [];
    } else {
      var next := Print(segments[1..], tail, d);
      PrintIsOnDelimiter(segments[1..], tail, d);
      OnePartReads(segments[0].headers, segments[0].part, next, boundary);
      PartsFromPrint(segments, tail, d, count);
      PrintReadsBack(segments[1..], tail, boundary, count + 1);
      assert PartsOf(segments) == [segments[0].part] + PartsOf(segments[1..]);
      var one := OnePart(PartText(segments[0].headers, segments[0].part.body, next), d).value;
      var more := PartsFrom(one.1, d, count + 1);
      if more.Ok? {
        assert ([one.0] + more.value)[1..] == more.value;
        assert PartsOf(segments)[1..] == PartsOf(segments[1..]);
      }
    }
  }

  lemma ClosingPrint(tail: Bytes, delimiter: Bytes, count: nat)
    requires delimiter != [] && ClosingTail(tail) && 1 <= count
    ensures PartsFrom(Print([], tail, delimiter), delimiter, count) == Ok([])
  {
    ClosingLine(tail);
    assert (delimiter + (DASHES + tail))[|delimiter|..] == DASHES + tail;
  }

  /** Round trip: a printed message is read back as its parts if and only if it has 1 to 1024 parts and
      no content holds a delimiter. */
  lemma RoundTrip(segments: seq<Segment>, tail: Bytes, boundary: Bytes)
    requires ValidBoundary(boundary) && WellFormed(segments, tail)
    ensures var d := Delimiter(boundary);
      ParseMultipart(Print(segments, tail, d), boundary) == Ok(PartsOf(segments)) <==>
      1 <= |segments| <= MAX_PARTS && ContentsClear(segments, tail, d)
  {
    hide ValidBoundary, DelimiterSuffix, PartsFrom, WellFormed, ContentsClear, Print;
    var d := Delimiter(boundary);
    var text := Print(segments, tail, d);
    PrintIsOnDelimiter(segments, tail, d);
    assert FirstDelimiter(text, d) == Some(0);
    assert text[0..] == text;
    PartsStayOnDelimiters(text, boundary, 0);
    if 1 <= |segments| <= MAX_PARTS {
      PrintReadsBack(segments, tail, boundary, 0);
    }
  }

  /** Content that does not hold the marker has no delimiter, whatever follows it. */
  lemma MarkerFreeIsClear(content: Bytes, next: Bytes, boundary: Bytes)
    requires ValidBoundary(boundary) && OnDelimiter(next, Delimiter(boundary))
    requires forall q :: 0 <= q < |content| ==> !At(content, Marker(Delimiter(boundary)), q)
    ensures Clear(content, next, Delimiter(boundary))
  {
    hide ValidBoundary, OnDelimiter, DelimiterSuffix, At;
    var d := Delimiter(boundary);
    var s := content + CRLF + next;
    DelimiterThere(content, next, d);
    forall q | 0 <= q < |content| ensures !At(s, Marker(d), q) {
      if q + |Marker(d)| <= |content| {
        assert s == content + (CRLF + next);
        OccursInPrefix(content, CRLF + next, Marker(d), q);
      } else if At(s, Marker(d), q) {
        MarkersDoNotOverlap(s, boundary, q, |content|);
      }
    }
  }

  /** So a caller who picks a boundary that occurs in no content always gets the parts back. */
  lemma {:induction false} MarkerFreeContentsAreClear(segments: seq<Segment>, tail: Bytes, boundary: Bytes)
    requires ValidBoundary(boundary) && WellFormed(segments, tail)
    requires forall i, q :: 0 <= i < |segments| && 0 <= q < |segments[i].part.body| ==>
               !At(segments[i].part.body, Marker(Delimiter(boundary)), q)
    ensures ContentsClear(segments, tail, Delimiter(boundary))
    decreases |segments|
  {
    hide ValidBoundary, ClosingTail, HeaderBlock, At, Clear, Print;
    if segments != [] {
      PrintIsOnDelimiter(segments[1..], tail, Delimiter(boundary));
      MarkerFreeIsClear(segments[0].part.body, Print(segments[1..], tail, Delimiter(boundary)), boundary);
      MarkerFreeContentsAreClear(segments[1..], tail, boundary);
    }
  }

  /** Whatever is read from a delimiter on is the print of a message. */
  lemma {:induction false} ReadIsPrint(rest: Bytes, boundary: Bytes, count: nat)
      returns (segments: seq<Segment>, tail: Bytes)
    requires ValidBoundary(boundary) && OnDelimiter(rest, Delimiter(boundary))
        && PartsFrom(rest, Delimiter(boundary), count).Ok?
    ensures var d := Delimiter(boundary);
      && WellFormed(segments, tail) && ContentsClear(segments, tail, d)
      && rest == Print(segments, tail, d) && PartsFrom(rest, d, count) == Ok(PartsOf(segments))
    decreases |rest|
  {
    hide ValidBoundary, ClosingTail, DelimiterSuffix, OnePart, HeaderBlock, PartText, Clear;
    var d := Delimiter(boundary);
    var suffix := rest[|d|..];
    assert rest == d + suffix;
    match DelimiterSuffix(suffix).value {
      case ClosingDelimiter =>
        ClosingLineShape(suffix);
        segments, tail := [], suffix[2..];
        assert PartsOf(segments) == [];
      case PartFollows(n) =>
        PartLineShape(suffix);
        var text := rest[|d| + n..];
        assert text == suffix[n..];
        var (part, next) := OnePart(text, d).value;
        var headers := OnePartShape(text, boundary);
        var more;
        more, tail := ReadIsPrint(next, boundary, count + 1);
        segments := [Segment(suffix[..n - 2], headers, part)] + more;
        assert segments[1..] == more;
        assert PartsOf(segments) == [part] + PartsOf(more);
    }
  }

  // ---- the opening delimiter ----

  /** Where the first delimiter of a body begins: at once, or after the first line break that leads to one. */
  predicate Opening(body: Bytes, delimiter: Bytes, start: nat) {
    if OnDelimiter(body, delimiter) then start == 0
    else
      && 2 <= start && DelimiterAt(body, delimiter, start - 2)
      && forall q :: 0 <= q < start - 2 ==> !DelimiterAt(body, delimiter, q)
  }

  lemma FirstDelimiterIsOpening(body: Bytes, boundary: Bytes, start: nat)
    requires ValidBoundary(boundary)
    ensures FirstDelimiter(body, Delimiter(boundary)) == Some(start) <==> Opening(body, Delimiter(boundary), start)
    ensures Opening(body, Delimiter(boundary), start) ==>
        start <= |body| && OnDelimiter(body[start..], Delimiter(boundary))
  {
    hide DelimiterAt, ValidBoundary, DelimiterSuffix, NextValid;
    var d := Delimiter(boundary);
    NextValidIsFirst(body, boundary, 0);
    if OnDelimiter(body, d) {
      assert body[0..] == body;
    } else if Opening(body, d, start) {
      DelimiterFollows(body, d, start - 2);
    }
  }

  ghost predicate IsMessage(body: Bytes, boundary: Bytes, parts: seq<Part>) {
    exists start: nat, segments, tail | start <= |body| ::
      && Opening(body, Delimiter(boundary), start)
      && body[start..] == Print(segments, tail, Delimiter(boundary))
      && WellFormed(segments, tail) && ContentsClear(segments, tail, Delimiter(boundary))
      && parts == PartsOf(segments) && 1 <= |parts| <= MAX_PARTS
  }

  /** On every body, parsing succeeds with exactly the parts the grammar gives it. */
  lemma ParsingIsExact(body: Bytes, boundary: Bytes, parts: seq<Part>)
    requires ValidBoundary(boundary)
    ensures ParseMultipart(body, boundary) == Ok(parts) <==> IsMessage(body, boundary, parts)
  {
    hide ValidBoundary, DelimiterSuffix, PartsFrom, FirstDelimiter, WellFormed, ContentsClear, Print, Opening,
        OnDelimiter;
    var d := Delimiter(boundary);
    if ParseMultipart(body, boundary) == Ok(parts) {
      var start := FirstDelimiter(body, d).value;
      FirstDelimiterIsOpening(body, boundary, start);
      PartsStayOnDelimiters(body[start..], boundary, 0);
      var segments, tail := ReadIsPrint(body[start..], boundary, 0);
    }
    if IsMessage(body, boundary, parts) {
      var start: nat, segments, tail :| start <= |body| && Opening(body, d, start)
        && body[start..] == Print(segments, tail, d)
        && WellFormed(segments, tail) && ContentsClear(segments, tail, d)
        && parts == PartsOf(segments) && 1 <= |parts| <= MAX_PARTS;
      FirstDelimiterIsOpening(body, boundary, start);
      PrintReadsBack(segments, tail, boundary, 0);
    }
  }

  /** The errors for a truncated delimiter and for one that does not end its line are never reported. */
  lemma LoopErrorsUnreachable(body: Bytes, boundary: Bytes)
    requires ValidBoundary(boundary)
    ensures ParseMultipart(body, boundary) != Err(TruncatedBoundary)
    ensures ParseMultipart(body, boundary) != Err(BoundaryWithoutCrlf)
  {
    hide ValidBoundary, DelimiterSuffix, PartsFrom, FirstDelimiter, OnDelimiter;
    var first := FirstDelimiter(body, Delimiter(boundary));
    if first.Some? {
      FirstDelimiterIsOpening(body, boundary, first.value);
      PartsStayOnDelimiters(body[first.value..], boundary, 0);
    }
  }
}

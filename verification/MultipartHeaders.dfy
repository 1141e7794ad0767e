/** Which header blocks are accepted, and with which content type. */
module MultipartHeaders {
  import opened Common
  import opened Multipart
  import opened MultipartGrammar

  const TEXT_CRLF: Text := [13, 10]

  /** "Content-Type: " */
  const CONTENT_TYPE_PREFIX: Bytes := [67, 111, 110, 116, 101, 110, 116, 45, 84, 121, 112, 101, 58, 32]

  // ---- lines ----

  function Join(lines: seq<Text>): Text
    requires lines != []
  {
    if |lines| == 1 then lines[0] else lines[0] + TEXT_CRLF + Join(lines[1..])
  }

  predicate OneLine(line: Text) {
    forall q :: 0 <= q < |line| ==> !At(line, TEXT_CRLF, q)
  }

  lemma BreakFound(line: Text, rest: Text)
    requires OneLine(line)
    ensures Find(line + TEXT_CRLF + rest, TEXT_CRLF, 0) == Some(|line|)
  {
    var t := line + TEXT_CRLF + rest;
    assert t[|line|..][..2] == TEXT_CRLF;
    forall q | 0 <= q < |line| ensures !At(t, TEXT_CRLF, q) {
      if q + 2 <= |line| {
        assert t == line + (TEXT_CRLF + rest);
        OccursInPrefix(line, TEXT_CRLF + rest, TEXT_CRLF, q);
      } else {
        assert t[q..][1] == 13;
      }
    }
    FindFinds(t, TEXT_CRLF, |line|);
  }

  lemma FirstLine(line: Text, rest: Text)
    requires OneLine(line)
    ensures Lines(line + TEXT_CRLF + rest) == [line] + Lines(rest)
  {
    hide Find, OneLine;
    var t := line + TEXT_CRLF + rest;
    BreakFound(line, rest);
    assert t[..|line|] == line && t[|line| + 2..] == rest;
  }

  lemma NoBreakFound(line: Text)
    requires OneLine(line)
    ensures Lines(line) == [line]
  {
    FindIsFirst(line, TEXT_CRLF, 0);
    assert !At(line, TEXT_CRLF, |line|);
  }

  /** Splitting undoes joining. */
  lemma {:induction false} LinesOfJoin(lines: seq<Text>)
    requires lines != [] && forall i :: 0 <= i < |lines| ==> OneLine(lines[i])
    ensures Lines(Join(lines)) == lines
    decreases |lines|
  {
    hide Lines, OneLine;
    if |lines| == 1 {
      NoBreakFound(lines[0]);
      assert lines == [lines[0]];
    } else {
      var rest := Join(lines[1..]);
      LinesOfJoin(lines[1..]);
      FirstLine(lines[0], rest);
      assert lines == [lines[0]] + lines[1..];
    }
  }

  /** And joining undoes splitting. */
  lemma {:induction false} JoinOfLines(t: Text)
    ensures Join(Lines(t)) == t
    ensures forall i :: 0 <= i < |Lines(t)| ==> OneLine(Lines(t)[i])
    decreases |t|
  {
    FindIsFirst(t, TEXT_CRLF, 0);
    match Find(t, TEXT_CRLF, 0) {
      case None =>
      case Some(p) =>
        var rest := Lines(t[p + 2..]);
        JoinOfLines(t[p + 2..]);
        assert Lines(t)[1..] == rest;
        assert t[p..][..2] == TEXT_CRLF;
        assert t == t[..p] + TEXT_CRLF + t[p + 2..];
        forall q | 0 <= q < p ensures !At(t[..p], TEXT_CRLF, q) {
          if q + 2 <= p {
            assert t == t[..p] + t[p..];
            OccursInPrefix(t[..p], t[p..], TEXT_CRLF, q);
          }
        }
    }
  }

  // ---- header lines ----

  predicate HasName(line: Text) {
    exists p :: 0 <= p < |line| && line[p] == 58 && ValidName(line[..p])
  }

  /** Not folded, and a name up to a colon. */
  predicate HeaderShape(line: Text) {
    line != [] && line[0] != 32 && line[0] != 9 && HasName(line)
  }

  function ColonOf(line: Text): nat
    requires HasName(line)
  {
    var p :| 0 <= p < |line| && line[p] == 58 && ValidName(line[..p]);
    p
  }

  predicate NamesContentType(line: Text) {
    HasName(line) && Lower(line[..ColonOf(line)]) == CONTENT_TYPE
  }

  predicate GivesContentType(line: Text, ct: Text) {
    NamesContentType(line) && ct != [] && Trim(line[ColonOf(line) + 1..]) == ct
  }

  /** A name holds no colon, so the first colon is the one after the name. */
  lemma FirstColon(line: Text, p: nat)
    requires p < |line| && line[p] == 58 && ValidName(line[..p])
    ensures Find(line, [58], 0) == Some(p)
  {
    assert line[p..][..1] == [58];
    forall q | 0 <= q < p ensures !At(line, [58], q) {
      assert NameChar(line[..p][q]);
      assert line[q..][..1][0] == line[q];
    }
    FindFinds(line, [58], p);
  }

  /** One line: its errors aside, it leaves what was found unless it names the content type. */
  lemma HeaderLineMeans(line: Text, found: Option<Text>)
    ensures HeaderLine(line, found).Ok? ==> HeaderShape(line)
    ensures HeaderShape(line) && !NamesContentType(line) ==> HeaderLine(line, found) == Ok(found)
    ensures forall ct :: HeaderShape(line) && GivesContentType(line, ct) && found.None? ==>
        HeaderLine(line, found) == Ok(Some(ct))
    ensures HeaderLine(line, found).Ok? && NamesContentType(line) ==>
              found.None? && HeaderLine(line, found).value.Some?
                  && GivesContentType(line, HeaderLine(line, found).value.value)
  {
    hide Find, ValidName, Trim, Lower;
    var f := Find(line, [58], 0);
    if HasName(line) {
      FirstColon(line, ColonOf(line));
    }
    if f.Some? && ValidName(line[..f.value]) {
      AtIndex(line, [58], f.value, 0);
      assert HasName(line);
    }
  }

  /** Every line is a header, and exactly one of them gives the content type. */
  ghost predicate OneContentType(lines: seq<Text>, ct: Text) {
    && (forall i :: 0 <= i < |lines| ==> HeaderShape(lines[i]))
    && exists k :: 0 <= k < |lines| && GivesContentType(lines[k], ct) && NoOther(lines, k)
  }

  predicate NoOther(lines: seq<Text>, k: nat) {
    forall j :: 0 <= j < |lines| && j != k ==> !NamesContentType(lines[j])
  }

  lemma {:induction false} AfterContentType(lines: seq<Text>, ct: Text)
    ensures HeaderLines(lines, Some(ct)).Ok? <==>
            forall i :: 0 <= i < |lines| ==> HeaderShape(lines[i]) && !NamesContentType(lines[i])
    ensures HeaderLines(lines, Some(ct)).Ok? ==> HeaderLines(lines, Some(ct)) == Ok(Some(ct))
  {
    hide HeaderLine, HeaderShape, NamesContentType;
    if lines != [] {
      HeaderLineMeans(lines[0], Some(ct));
      AfterContentType(lines[1..], ct);
      assert forall i :: 1 <= i < |lines| ==> lines[i] == lines[1..][i - 1];
    }
  }

  lemma {:induction false} HeaderLinesAreExact(lines: seq<Text>, ct: Text)
    ensures HeaderLines(lines, None) == Ok(Some(ct)) <==> OneContentType(lines, ct)
  {
    hide HeaderLine, HeaderShape, NamesContentType, GivesContentType;
    if lines != [] {
      var rest := lines[1..];
      HeaderLineMeans(lines[0], None);
      assert forall i :: 1 <= i < |lines| ==> lines[i] == rest[i - 1];
      if HeaderShape(lines[0]) && !NamesContentType(lines[0]) {
        HeaderLinesAreExact(rest, ct);
        SkipOther(lines, ct);
      } else if HeaderLine(lines[0], None).Ok? {
        var now := HeaderLine(lines[0], None).value.value;
        AfterContentType(rest, now);
        TakeFirst(lines, now, ct);
      } else {
        NotAccepted(lines, ct);
      }
    }
  }

  lemma SkipOther(lines: seq<Text>, ct: Text)
    requires lines != [] && HeaderShape(lines[0]) && !NamesContentType(lines[0])
    ensures OneContentType(lines, ct) <==> OneContentType(lines[1..], ct)
  {
    hide HeaderShape, NamesContentType;
    var rest := lines[1..];
    if OneContentType(lines, ct) {
      var k :| 0 <= k < |lines| && GivesContentType(lines[k], ct) && NoOther(lines, k);
      assert GivesContentType(rest[k - 1], ct) && NoOther(rest, k - 1);
    }
    if OneContentType(rest, ct) {
      var k :| 0 <= k < |rest| && GivesContentType(rest[k], ct) && NoOther(rest, k);
      assert GivesContentType(lines[k + 1], ct) && NoOther(lines, k + 1);
    }
  }

  lemma TakeFirst(lines: seq<Text>, now: Text, ct: Text)
    requires lines != [] && HeaderShape(lines[0]) && GivesContentType(lines[0], now)
    ensures OneContentType(lines, ct) <==>
            ct == now && forall i :: 0 <= i < |lines[1..]| ==>
                HeaderShape(lines[1..][i]) && !NamesContentType(lines[1..][i])
  {
    hide HeaderShape, HasName, Trim, Lower;
    var rest := lines[1..];
    if OneContentType(lines, ct) {
      var k :| 0 <= k < |lines| && GivesContentType(lines[k], ct) && NoOther(lines, k);
      assert k == 0;
    }
    if ct == now && forall i :: 0 <= i < |rest| ==> HeaderShape(rest[i]) && !NamesContentType(rest[i]) {
      assert forall i :: 1 <= i < |lines| ==> lines[i] == rest[i - 1];
      assert NoOther(lines, 0);
    }
  }

  lemma NotAccepted(lines: seq<Text>, ct: Text)
    requires lines != [] && HeaderLine(lines[0], None).Err? && (HeaderShape(lines[0]) ==> NamesContentType(lines[0]))
    ensures !OneContentType(lines, ct)
  {
    hide HeaderLine, HeaderShape, HasName, Trim, Lower;
    HeaderLineMeans(lines[0], None);
  }

  /** On every header block: it yields a content type if and only if it is UTF-8, every line is a
      header, and exactly one of them is a non-empty Content-Type, whatever its case. */
  lemma HeadersAreExact(headers: Bytes, ct: Text)
    ensures PartHeaders(headers) == Ok(ct) <==>
        Decode(headers).Some? && OneContentType(Lines(Decode(headers).value), ct)
  {
    hide HeaderLines, OneContentType, Lines, Decode;
    if Decode(headers).Some? {
      HeaderLinesAreExact(Lines(Decode(headers).value), ct);
    }
  }

  // ---- the plain header ----

  lemma {:induction false} AsciiDecodes(s: Bytes)
    requires forall i :: 0 <= i < |s| ==> s[i] < 128
    ensures Decode(s) == Some(Widen(s))
  {
    if s != [] {
      AsciiDecodes(s[1..]);
      assert Widen(s) == [s[0] as nat] + Widen(s[1..]);
    } else {
      assert Widen(s) == [];
    }
  }

  /** ASCII, on one line, not empty and not padded. */
  predicate PlainValue(ct: Bytes) {
    && ct != [] && (forall i :: 0 <= i < |ct| ==> ct[i] < 128 && ct[i] != CR)
    && !Whitespace(ct[0] as nat) && !Whitespace(ct[|ct| - 1] as nat)
  }

  lemma PlainLine(ct: Bytes)
    requires PlainValue(ct)
    ensures HeaderLine(Widen(CONTENT_TYPE_PREFIX + ct), None) == Ok(Some(Widen(ct)))
  {
    var line := Widen(CONTENT_TYPE_PREFIX + ct);
    assert line[12] == 58;
    var name := line[..12];
    assert name == [67, 111, 110, 116, 101, 110, 116, 45, 84, 121, 112, 101];
    assert ValidName(name);
    FirstColon(line, 12);
    assert Lower(name) == CONTENT_TYPE;
    var value := line[13..];
    assert value == [32] + Widen(ct);
    assert value[1..] == Widen(ct);
    assert TrimStart(value) == TrimStart(Widen(ct)) == Widen(ct);
    assert TrimEnd(Widen(ct)) == Widen(ct);
  }

  /** A plain Content-Type header is a header block with that content type. */
  lemma PlainHeaderIsBlock(ct: Bytes)
    requires PlainValue(ct) && |CONTENT_TYPE_PREFIX + ct| <= MAX_HEADER_BYTES
    ensures HeaderBlock(CONTENT_TYPE_PREFIX + ct, Widen(ct))
  {
    hide PlainValue, HeaderLine, Decode, Whitespace;
    var headers := CONTENT_TYPE_PREFIX + ct;
    var line := Widen(headers);
    assert forall i :: 0 <= i < |headers| ==> headers[i] < 128 && headers[i] != CR by {
      PlainBytes(ct);
    }
    AsciiDecodes(headers);
    forall q | 0 <= q < |line| ensures !At(line, TEXT_CRLF, q) {
      assert line[q] != 13;
    }
    LinesOfJoin([line]);
    PlainLine(ct);
    assert HeaderLines([line], None) == Ok(Some(Widen(ct)));
    forall q | 0 <= q < |headers| ensures !At(headers + BLANK_LINE, BLANK_LINE, q) {
      assert (headers + BLANK_LINE)[q..][0] == headers[q];
    }
  }

  lemma PlainBytes(ct: Bytes)
    requires PlainValue(ct)
    ensures forall i :: 0 <= i < |CONTENT_TYPE_PREFIX + ct| ==>
        (CONTENT_TYPE_PREFIX + ct)[i] < 128 && (CONTENT_TYPE_PREFIX + ct)[i] != CR
  {
  }
}

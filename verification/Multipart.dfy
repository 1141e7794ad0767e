/** Multipart request bodies (section 5.1.1 of RFC 2046, section 4 of RFC 7578): delimiters, part
    headers and the parser, on bytes. */
module Multipart {
  import opened Common

  newtype byte = x: int | 0 <= x < 256

  type Bytes = seq<byte>

  /** Decoded header text, as Unicode code points. */
  type Text = seq<nat>

  const CR: byte := 13
  const LF: byte := 10
  const DASH: byte := 45
  const SPACE: byte := 32
  const TAB: byte := 9
  const CRLF: Bytes := [CR, LF]
  const BLANK_LINE: Bytes := [CR, LF, CR, LF]
  const DASHES: Bytes := [DASH, DASH]
  const MAX_PARTS: nat := 1024
  const MAX_HEADER_BYTES: nat := 64 * 1024
  /** "content-type" in lower case. */
  const CONTENT_TYPE: Text := [99, 111, 110, 116, 101, 110, 116, 45, 116, 121, 112, 101]

  datatype HeaderError =
    | NotUtf8
    | FoldedHeader
    | MissingColon
    | InvalidName
    | DuplicateContentType
    | EmptyContentType
    | NoContentType

  datatype MultipartError =
    | OpeningNotFound
    | TruncatedBoundary
    | BoundaryWithoutCrlf
    | NoParts
    | HeadersNotTerminated
    | HeadersTooLarge
    | BadHeaders(error: HeaderError)
    | ClosingNotFound
    | TooManyParts

  datatype Part = Part(contentType: Text, body: Bytes)

  // ---- boundaries ----

  predicate Alphanumeric(b: nat) {
    48 <= b <= 57 || 65 <= b <= 90 || 97 <= b <= 122
  }

  /** Letters, digits and ' ( ) + _ , - . / : = ? and space. */
  predicate BoundaryByte(b: byte) {
    Alphanumeric(b as nat) || b in [39, 40, 41, 43, 95, 44, 45, 46, 47, 58, 61, 63, 32]
  }

  predicate ValidBoundary(boundary: Bytes) {
    && 1 <= |boundary| <= 70
    && boundary[|boundary| - 1] != SPACE
    && forall i :: 0 <= i < |boundary| ==> BoundaryByte(boundary[i])
  }

  function Delimiter(boundary: Bytes): Bytes {
    DASHES + boundary
  }

  function Marker(delimiter: Bytes): Bytes {
    CRLF + delimiter
  }

  // ---- searching ----

  predicate StartsWith<T(==)>(s: seq<T>, needle: seq<T>) {
    |needle| <= |s| && s[..|needle|] == needle
  }

  predicate At<T(==)>(s: seq<T>, needle: seq<T>, p: nat) {
    p <= |s| && StartsWith(s[p..], needle)
  }

  /** The first occurrence at or after `from`. */
  function Find<T(==)>(s: seq<T>, needle: seq<T>, from: nat): (r: Option<nat>)
    ensures r.Some? ==> from <= r.value && r.value + |needle| <= |s| && At(s, needle, r.value)
    decreases |s| - from
  {
    if from > |s| then None
    else if At(s, needle, from) then Some(from)
    else Find(s, needle, from + 1)
  }

  lemma {:induction false} FindIsFirst<T>(s: seq<T>, needle: seq<T>, from: nat)
    ensures Find(s, needle, from).Some? ==> forall q :: from <= q < Find(s, needle, from).value ==> !At(s, needle, q)
    ensures Find(s, needle, from).None? ==> forall q :: from <= q ==> !At(s, needle, q)
    decreases |s| - from
  {
    if from <= |s| && !At(s, needle, from) {
      FindIsFirst(s, needle, from + 1);
    }
  }

  lemma FindFinds<T>(s: seq<T>, needle: seq<T>, p: nat)
    requires At(s, needle, p) && forall q :: 0 <= q < p ==> !At(s, needle, q)
    ensures Find(s, needle, 0) == Some(p)
  {
    FindIsFirst(s, needle, 0);
  }

  lemma AtIndex<T>(s: seq<T>, needle: seq<T>, p: nat, i: nat)
    requires At(s, needle, p) && i < |needle|
    ensures p + |needle| <= |s| && s[p + i] == needle[i]
  {
    assert s[p..][..|needle|][i] == needle[i];
  }

  // ---- delimiters ----

  datatype Suffix = PartFollows(consumed: nat) | ClosingDelimiter

  function PaddingLength(s: Bytes, from: nat): (n: nat)
    ensures from <= |s| ==> from <= n <= |s|
    ensures from > |s| ==> n == from
    decreases |s| - from
  {
    if from < |s| && (s[from] == SPACE || s[from] == TAB) then PaddingLength(s, from + 1) else from
  }

  /** What stands on the rest of a delimiter line. */
  function DelimiterSuffix(suffix: Bytes): (r: Option<Suffix>)
    ensures r.Some? && r.value.PartFollows? ==> 2 <= r.value.consumed <= |suffix|
  {
    if StartsWith(suffix, DASHES) then
      var cursor := PaddingLength(suffix, 2);
      if cursor == |suffix| || StartsWith(suffix[cursor..], CRLF) then Some(ClosingDelimiter) else None
    else
      var cursor := PaddingLength(suffix, 0);
      if StartsWith(suffix[cursor..], CRLF) then Some(PartFollows(cursor + 2)) else None
  }

  /** A line break, a delimiter, and a proper rest of line. */
  predicate DelimiterAt(s: Bytes, delimiter: Bytes, p: nat) {
    At(s, Marker(delimiter), p) && p + |Marker(delimiter)| <= |s| && DelimiterSuffix(s[p + |Marker(delimiter)|..]).Some?
  }

  /** The search of the source: non-overlapping marker occurrences, left to right, until one is valid. */
  function NextValid(s: Bytes, delimiter: Bytes, from: nat): (r: Option<nat>)
    ensures r.Some? ==> from <= r.value && r.value + 2 + |delimiter| <= |s| && DelimiterAt(s, delimiter, r.value)
    decreases |s| - from
  {
    match Find(s, Marker(delimiter), from)
    case None => None
    case Some(p) =>
      if DelimiterSuffix(s[p + |Marker(delimiter)|..]).Some? then Some(p)
      else NextValid(s, delimiter, p + |Marker(delimiter)|)
  }

  /** Where the first delimiter begins, after its line break if it has one. */
  function FirstDelimiter(body: Bytes, delimiter: Bytes): (r: Option<nat>)
    ensures r.Some? ==> r.value + |delimiter| <= |body|
  {
    if StartsWith(body, delimiter) && DelimiterSuffix(body[|delimiter|..]).Some? then Some(0)
    else
      match NextValid(body, delimiter, 0)
      case None => None
      case Some(p) => Some(p + 2)
  }

  /** A marker begins with the only carriage return it holds, so it cannot overlap itself. */
  lemma MarkersDoNotOverlap(s: Bytes, boundary: Bytes, p: nat, q: nat)
    requires ValidBoundary(boundary)
    requires At(s, Marker(Delimiter(boundary)), p) && p < q < p + |Marker(Delimiter(boundary))|
    ensures !At(s, Marker(Delimiter(boundary)), q)
  {
    var marker := Marker(Delimiter(boundary));
    AtIndex(s, marker, p, q - p);
    assert marker[q - p] != CR by {
      if q - p >= 4 {
        assert marker[q - p] == boundary[q - p - 4];
      }
    }
  }

  /** So skipping over each rejected marker misses nothing: the search finds the first valid delimiter. */
  lemma {:induction false} NextValidIsFirst(s: Bytes, boundary: Bytes, from: nat)
    requires ValidBoundary(boundary)
    ensures NextValid(s, Delimiter(boundary), from).Some? ==>
              forall q :: from <= q < NextValid(s, Delimiter(boundary), from).value ==>
                  !DelimiterAt(s, Delimiter(boundary), q)
    ensures NextValid(s, Delimiter(boundary), from).None? ==> forall q :: from <= q ==>
        !DelimiterAt(s, Delimiter(boundary), q)
    decreases |s| - from
  {
    hide DelimiterSuffix, At, Find, ValidBoundary;
    var d := Delimiter(boundary);
    var marker := Marker(d);
    FindIsFirst(s, marker, from);
    var found := Find(s, marker, from);
    if found.Some? && DelimiterSuffix(s[found.value + |marker|..]).None? {
      var p := found.value;
      NextValidIsFirst(s, boundary, p + |marker|);
      forall q | p < q < p + |marker| ensures !DelimiterAt(s, d, q) {
        MarkersDoNotOverlap(s, boundary, p, q);
      }
      assert !DelimiterAt(s, d, p);
    }
  }

  // ---- header text ----

  predicate Continuation(b: byte) {
    128 <= b < 192
  }

  function Bits(b: byte, low: nat): nat
    requires 0 < low
  {
    b as nat % low
  }

  /** Strict UTF-8: the scalar at the front and its width. */
  function DecodeOne(s: Bytes): (r: Option<(nat, nat)>)
    requires s != []
    ensures r.Some? ==> 1 <= r.value.1 <= |s|
  {
    var b0 := s[0];
    if b0 < 128 then Some((b0 as nat, 1))
    else if 194 <= b0 < 224 && |s| >= 2 && Continuation(s[1]) then Some((Bits(b0, 32) * 64 + Bits(s[1], 64), 2))
    else if 224 <= b0 < 240 && |s| >= 3 && Continuation(s[1]) && Continuation(s[2])
            && (b0 == 224 ==> s[1] >= 160) && (b0 == 237 ==> s[1] < 160) then
      Some((Bits(b0, 16) * 4096 + Bits(s[1], 64) * 64 + Bits(s[2], 64), 3))
    else if 240 <= b0 < 245 && |s| >= 4 && Continuation(s[1]) && Continuation(s[2]) && Continuation(s[3])
            && (b0 == 240 ==> s[1] >= 144) && (b0 == 244 ==> s[1] < 144) then
      Some((Bits(b0, 8) * 262144 + Bits(s[1], 64) * 4096 + Bits(s[2], 64) * 64 + Bits(s[3], 64), 4))
    else None
  }

  function Decode(s: Bytes): Option<Text> {
    if s == [] then Some([])
    else
      match DecodeOne(s)
      case None => None
      case Some((c, width)) =>
        match Decode(s[width..])
        case None => None
        case Some(rest) => Some([c] + rest)
  }

  function Widen(s: Bytes): Text {
    seq(|s|, i requires 0 <= i < |s| => s[i] as nat)
  }

  /** Unicode White_Space. */
  predicate Whitespace(c: nat) {
    || 9 <= c <= 13 || c == 0x20 || c == 0x85 || c == 0xA0 || c == 0x1680
    || 0x2000 <= c <= 0x200A || c == 0x2028 || c == 0x2029 || c == 0x202F || c == 0x205F || c == 0x3000
  }

  function TrimStart(t: Text): Text {
    if t != [] && Whitespace(t[0]) then TrimStart(t[1..]) else t
  }

  function TrimEnd(t: Text): Text {
    if t != [] && Whitespace(t[|t| - 1]) then TrimEnd(t[..|t| - 1]) else t
  }

  function Trim(t: Text): Text {
    TrimEnd(TrimStart(t))
  }

  function Lower(t: Text): Text {
    seq(|t|, i requires 0 <= i < |t| => if 65 <= t[i] <= 90 then t[i] + 32 else t[i])
  }

  /** Letters, digits and ! # $ % & ' * + - . ^ _ ` | ~ */
  predicate NameChar(c: nat) {
    Alphanumeric(c) || c in [33, 35, 36, 37, 38, 39, 42, 43, 45, 46, 94, 95, 96, 124, 126]
  }

  predicate ValidName(name: Text) {
    name != [] && forall i :: 0 <= i < |name| ==> NameChar(name[i])
  }

  function Lines(t: Text): (ls: seq<Text>)
    ensures ls != []
    decreases |t|
  {
    match Find(t, [13, 10], 0)
    case None => [t]
    case Some(p) => [t[..p]] + Lines(t[p + 2..])
  }

  /** One header line on top of the Content-Type found so far. */
  function HeaderLine(line: Text, found: Option<Text>): Result<Option<Text>, HeaderError> {
    if line != [] && (line[0] == 32 || line[0] == 9) then Err(FoldedHeader)
    else
      match Find(line, [58], 0)
      case None => Err(MissingColon)
      case Some(p) =>
        var name, value := line[..p], Trim(line[p + 1..]);
        if !ValidName(name) then Err(InvalidName)
        else if Lower(name) != CONTENT_TYPE then Ok(found)
        else if found.Some? then Err(DuplicateContentType)
        else if value == [] then Err(EmptyContentType)
        else Ok(Some(value))
  }

  function HeaderLines(lines: seq<Text>, found: Option<Text>): Result<Option<Text>, HeaderError> {
    if lines == [] then Ok(found)
    else
      match HeaderLine(lines[0], found)
      case Err(e) => Err(e)
      case Ok(now) => HeaderLines(lines[1..], now)
  }

  function PartHeaders(headers: Bytes): Result<Text, HeaderError> {
    match Decode(headers)
    case None => Err(NotUtf8)
    case Some(text) =>
      match HeaderLines(Lines(text), None)
      case Err(e) => Err(e)
      case Ok(None) => Err(NoContentType)
      case Ok(Some(ct)) => Ok(ct)
  }

  // ---- the parser ----

  /** The header block and body of one part, and the text at its closing delimiter. */
  function OnePart(text: Bytes, delimiter: Bytes): (r: Result<(Part, Bytes), MultipartError>)
    ensures r.Ok? ==> |r.value.1| <= |text|
    ensures r.Err? ==> r.error != TruncatedBoundary && r.error != BoundaryWithoutCrlf
  {
    match Find(text, BLANK_LINE, 0)
    case None => Err(HeadersNotTerminated)
    case Some(k) =>
      if k > MAX_HEADER_BYTES then Err(HeadersTooLarge)
      else
        match PartHeaders(text[..k])
        case Err(e) => Err(BadHeaders(e))
        case Ok(ct) =>
          var b := text[k + 4..];
          match NextValid(b, delimiter, 0)
          case None => Err(ClosingNotFound)
          case Some(p) => Ok((Part(ct, b[..p]), b[p + 2..]))
  }

  /** From a delimiter, with `count` parts already read, to the closing delimiter. */
  function PartsFrom(rest: Bytes, delimiter: Bytes, count: nat): Result<seq<Part>, MultipartError>
    requires delimiter != []
    decreases |rest|
  {
    if |rest| < |delimiter| then Err(TruncatedBoundary)
    else
      match DelimiterSuffix(rest[|delimiter|..])
      case None => Err(BoundaryWithoutCrlf)
      case Some(ClosingDelimiter) => if count == 0 then Err(NoParts) else Ok([])
      case Some(PartFollows(consumed)) =>
        match OnePart(rest[|delimiter| + consumed..], delimiter)
        case Err(e) => Err(e)
        case Ok((part, next)) =>
          if count + 1 > MAX_PARTS then Err(TooManyParts)
          else
            match PartsFrom(next, delimiter, count + 1)
            case Err(e) => Err(e)
            case Ok(more) => Ok([part] + more)
  }

  function ParseMultipart(body: Bytes, boundary: Bytes): Result<seq<Part>, MultipartError> {
    var delimiter := Delimiter(boundary);
    match FirstDelimiter(body, delimiter)
    case None => Err(OpeningNotFound)
    case Some(start) => PartsFrom(body[start..], delimiter, 0)
  }

}

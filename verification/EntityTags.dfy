/** Entity-tag lists of conditional requests (sections 8.8.3 and 5.3 of RFC 9110): the parser, the
    exact language it accepts, and the joining of repeated header lines. */
module EntityTags {
  import opened Common

  const MAX_ENTITY_TAGS: nat := 32
  const MAX_CONDITION_BYTES: nat := 8 * 1024

  datatype EntityTag = EntityTag(weak: bool, text: string)

  datatype TagList = AnyTag | Tags(tags: seq<EntityTag>)

  datatype TagError =
    | AnyCombined
    | MissingQuote
    | InvalidCharacter
    | NotTerminated
    | TooManyTags
    | MissingComma
    | TrailingComma

  datatype HeaderError = NotVisibleAscii | TooLarge | EmptyList | Malformed(error: TagError)

  // ---- lexical pieces ----

  predicate IsOws(c: char) {
    c == ' ' || c == '\t'
  }

  predicate AllOws(s: string) {
    forall i :: 0 <= i < |s| ==> IsOws(s[i])
  }

  predicate TagChar(c: char) {
    '!' <= c && c != '\U{7F}' && c != '"'
  }

  predicate LegalTag(t: EntityTag) {
    forall i :: 0 <= i < |t.text| ==> TagChar(t.text[i])
  }

  function SkipOws(s: string): string {
    if s != "" && IsOws(s[0]) then SkipOws(s[1..]) else s
  }

  /** How many opaque characters stand before the closing quote. */
  function ScanOpaque(s: string): (r: Result<nat, TagError>)
    ensures r.Ok? ==> r.value < |s| && s[r.value] == '"' && forall i :: 0 <= i < r.value ==> TagChar(s[i])
  {
    if s == "" then Err(NotTerminated)
    else if s[0] == '"' then Ok(0)
    else if s[0] < '!' || s[0] == '\U{7F}' then Err(InvalidCharacter)
    else
      match ScanOpaque(s[1..])
      case Err(e) => Err(e)
      case Ok(k) => Ok(k + 1)
  }

  predicate IsWeak(s: string) {
    |s| >= 2 && s[0] == 'W' && s[1] == '/'
  }

  // ---- the parser ----

  /** A quoted tag at the start of the text, and what follows it. */
  function ReadQuoted(t: string, weak: bool): (r: Result<(EntityTag, string), TagError>)
    ensures r.Ok? ==> |r.value.1| < |t|
  {
    if t == "" || t[0] != '"' then Err(MissingQuote)
    else
      match ScanOpaque(t[1..])
      case Err(e) => Err(e)
      case Ok(k) => Ok((EntityTag(weak, t[1..1 + k]), t[1 + k + 1..]))
  }

  /** One tag at the start of the text, and what follows it. */
  function ReadTag(s: string): (r: Result<(EntityTag, string), TagError>)
    ensures r.Ok? ==> |r.value.1| < |s|
  {
    ReadQuoted(if IsWeak(s) then s[2..] else s, IsWeak(s))
  }

  /** After a tag: the end of the list, or a comma and the next tag. */
  function NextTag(rest: string): (r: Result<Option<string>, TagError>)
    ensures r.Ok? && r.value.Some? ==> |r.value.value| < |rest|
  {
    SkipShortens(rest);
    var u := SkipOws(rest);
    if u == "" then Ok(None)
    else if u[0] != ',' then Err(MissingComma)
    else
      SkipShortens(u[1..]);
      var w := SkipOws(u[1..]);
      if w == "" then Err(TrailingComma) else Ok(Some(w))
  }

  /** From the start of one tag to the end of the text. */
  function ParseTags(s: string, acc: seq<EntityTag>): Result<TagList, TagError>
    decreases |s|
  {
    match ReadTag(s)
    case Err(e) => Err(e)
    case Ok((tag, rest)) =>
      if |acc| + 1 > MAX_ENTITY_TAGS then Err(TooManyTags)
      else
        match NextTag(rest)
        case Err(e) => Err(e)
        case Ok(None) => Ok(Tags(acc + [tag]))
        case Ok(Some(w)) => ParseTags(w, acc + [tag])
  }

  lemma {:induction false} SkipShortens(s: string)
    ensures |SkipOws(s)| <= |s|
  {
    if s != "" && IsOws(s[0]) {
      SkipShortens(s[1..]);
    }
  }

  function ParseTagList(value: string): Result<TagList, TagError> {
    var s := SkipOws(value);
    if s != "" && s[0] == '*' then
      if SkipOws(s[1..]) == "" then Ok(AnyTag) else Err(AnyCombined)
    else ParseTags(s, [])
  }

  // ---- the language ----

  datatype Pad = Pad(before: string, after: string)

  predicate PadsOk(pads: seq<Pad>) {
    forall i :: 0 <= i < |pads| ==> AllOws(pads[i].before) && AllOws(pads[i].after)
  }

  function PrintTag(t: EntityTag): string {
    (if t.weak then "W/" else "") + "\"" + t.text + "\""
  }

  /** Tags separated by commas, each with its own optional whitespace on both sides. */
  function Printed(ts: seq<EntityTag>, pads: seq<Pad>): string
    requires |ts| == |pads| > 0
  {
    var first := pads[0].before + PrintTag(ts[0]) + pads[0].after;
    if |ts| == 1 then first else first + "," + Printed(ts[1..], pads[1..])
  }

  predicate LegalList(ts: seq<EntityTag>) {
    0 < |ts| <= MAX_ENTITY_TAGS && forall i :: 0 <= i < |ts| ==> LegalTag(ts[i])
  }

  ghost predicate IsListing(value: string, ts: seq<EntityTag>) {
    LegalList(ts) && exists pads: seq<Pad> :: Lists(value, ts, pads)
  }

  ghost predicate Lists(value: string, ts: seq<EntityTag>, pads: seq<Pad>) {
    |ts| == |pads| > 0 && PadsOk(pads) && value == Printed(ts, pads)
  }

  // ---- printing then parsing ----

  lemma {:induction false} SkipsPadding(pad: string, rest: string)
    requires AllOws(pad) && (rest != "" ==> !IsOws(rest[0]))
    ensures SkipOws(pad + rest) == rest
  {
    if pad == "" {
      assert pad + rest == rest;
    } else {
      assert (pad + rest)[1..] == pad[1..] + rest;
      SkipsPadding(pad[1..], rest);
    }
  }

  lemma {:induction false} ScansOpaque(body: string, rest: string)
    requires forall i :: 0 <= i < |body| ==> TagChar(body[i])
    ensures ScanOpaque(body + "\"" + rest) == Ok(|body|)
  {
    var s := body + "\"" + rest;
    if body != "" {
      assert s[1..] == body[1..] + "\"" + rest;
      ScansOpaque(body[1..], rest);
    }
  }

  /** One printed tag followed by anything is read back as that tag. */
  lemma ReadsPrinted(t: EntityTag, rest: string)
    requires LegalTag(t)
    ensures var s := PrintTag(t) + rest;
      s != "" && !IsOws(s[0]) && s[0] != '*' && ReadTag(s) == Ok((t, rest))
  {
    var s := PrintTag(t) + rest;
    var quoted := "\"" + t.text + "\"" + rest;
    PrintSplits(t, rest);
    QuotedParts(t.text, rest);
    ScansOpaque(t.text, rest);
    hide PrintTag, ScanOpaque;
    if t.weak {
      WeakParts(quoted);
    }
  }

  lemma WeakParts(quoted: string)
    ensures IsWeak("W/" + quoted) && ("W/" + quoted)[2..] == quoted
  {
  }

  lemma QuotedParts(text: string, rest: string)
    ensures var quoted := "\"" + text + "\"" + rest;
      && quoted[0] == '"' && !IsWeak(quoted) && quoted[1..] == text + "\"" + rest
      && quoted[1..1 + |text|] == text && quoted[1 + |text| + 1..] == rest
  {
  }

  lemma NextAfterPad(pad: string, before: string, s: string)
    requires AllOws(pad) && AllOws(before) && s != "" && !IsOws(s[0])
    ensures NextTag(pad) == Ok(None)
    ensures NextTag(pad + "," + (before + s)) == Ok(Some(s))
  {
    assert pad + "" == pad;
    SkipsPadding(pad, "");
    var tail := "," + (before + s);
    assert pad + "," + (before + s) == pad + tail && tail[1..] == before + s;
    SkipsPadding(pad, tail);
    SkipsPadding(before, s);
  }

  lemma {:induction false} ParsesPrinted(ts: seq<EntityTag>, pads: seq<Pad>, acc: seq<EntityTag>)
    requires |ts| == |pads| > 0 && PadsOk(pads) && |acc| + |ts| <= MAX_ENTITY_TAGS
    requires forall i :: 0 <= i < |ts| ==> LegalTag(ts[i])
    ensures var text := Printed(ts, pads);
      var s := text[|pads[0].before|..];
      && text[..|pads[0].before|] == pads[0].before
      && s != "" && !IsOws(s[0]) && s[0] != '*' && ParseTags(s, acc) == Ok(Tags(acc + ts))
    decreases |ts|
  {
    hide ReadTag, NextTag, PrintTag, IsOws, LegalTag;
    var text := Printed(ts, pads);
    var s := text[|pads[0].before|..];
    var all := acc + [ts[0]];
    if |ts| == 1 {
      assert s == PrintTag(ts[0]) + pads[0].after;
      ReadsPrinted(ts[0], pads[0].after);
      NextAfterPad(pads[0].after, "", s);
      assert acc + ts == all;
    } else {
      var more := Printed(ts[1..], pads[1..]);
      var after := pads[0].after + "," + more;
      assert s == PrintTag(ts[0]) + after;
      ReadsPrinted(ts[0], after);
      ParsesPrinted(ts[1..], pads[1..], all);
      var w := more[|pads[1].before|..];
      assert more == pads[1].before + w;
      NextAfterPad(pads[0].after, pads[1].before, w);
      assert all + ts[1..] == acc + ts;
    }
  }

  // ---- parsing then printing ----

  lemma {:induction false} SkippedIsPadding(s: string) returns (pad: string)
    ensures AllOws(pad) && s == pad + SkipOws(s)
  {
    if s != "" && IsOws(s[0]) {
      pad := SkippedIsPadding(s[1..]);
      pad := [s[0]] + pad;
    } else {
      pad := "";
    }
  }

  /** What one turn of the parser consumed. */
  lemma TagWasPrinted(s: string)
    requires ReadTag(s).Ok?
    ensures var (tag, rest) := ReadTag(s).value; LegalTag(tag) && s == PrintTag(tag) + rest
  {
    var t := if IsWeak(s) then s[2..] else s;
    var k := ScanOpaque(t[1..]).value;
    var (tag, rest) := ReadTag(s).value;
    QuotedSplits(t, k);
    PrefixSplits(s);
    PrintSplits(tag, rest);
  }

  lemma PrefixSplits(s: string)
    ensures IsWeak(s) ==> s == "W/" + s[2..]
  {
  }

  lemma PrintSplits(tag: EntityTag, rest: string)
    ensures PrintTag(tag) + rest == if tag.weak then "W/" + ("\"" + tag.text + "\"" + rest)
        else "\"" + tag.text + "\"" + rest
  {
    var quoted := "\"" + tag.text + "\"";
    if tag.weak {
      assert PrintTag(tag) == "W/" + quoted;
      assert ("W/" + quoted) + rest == "W/" + (quoted + rest);
    } else {
      assert PrintTag(tag) == quoted;
    }
  }

  lemma QuotedSplits(t: string, k: nat)
    requires k + 2 <= |t| && t[0] == '"' && t[1 + k] == '"'
    ensures t == "\"" + t[1..1 + k] + "\"" + t[1 + k + 1..]
  {
  }

  lemma NextWasSeparated(rest: string) returns (after: string, before: string)
    requires NextTag(rest).Ok?
    ensures AllOws(after) && AllOws(before)
    ensures NextTag(rest).value.None? ==> rest == after
    ensures NextTag(rest).value.Some? ==> rest == after + "," + (before + NextTag(rest).value.value)
  {
    after := SkippedIsPadding(rest);
    before := "";
    var u := SkipOws(rest);
    if u != "" {
      before := SkippedIsPadding(u[1..]);
      assert u == "," + u[1..];
      assert rest == after + "," + u[1..];
    }
  }

  lemma {:induction false} ParsedWasPrinted(s: string, acc: seq<EntityTag>) returns (ts: seq<EntityTag>, pads: seq<Pad>)
    requires ParseTags(s, acc).Ok?
    ensures ParseTags(s, acc).value == Tags(acc + ts) && |acc + ts| <= MAX_ENTITY_TAGS
    ensures |ts| == |pads| > 0 && PadsOk(pads) && s == Printed(ts, pads) && pads[0].before == ""
    ensures forall i :: 0 <= i < |ts| ==> LegalTag(ts[i])
    decreases |s|
  {
    hide ReadTag, NextTag, PrintTag, LegalTag, AllOws;
    TagWasPrinted(s);
    var (tag, rest) := ReadTag(s).value;
    var after, before := NextWasSeparated(rest);
    NoPadding();
    if NextTag(rest).value.None? {
      ts, pads := [tag], [Pad("", after)];
      assert s == "" + PrintTag(tag) + after;
    } else {
      var w := NextTag(rest).value.value;
      var moreTags, morePads := ParsedWasPrinted(w, acc + [tag]);
      var moved := [Pad(before, morePads[0].after)] + morePads[1..];
      PadMoves(moreTags, before, w, morePads);
      ts, pads := [tag] + moreTags, [Pad("", after)] + moved;
      assert acc + [tag] + moreTags == acc + ts;
      assert ts[1..] == moreTags && pads[1..] == moved;
      assert s == "" + PrintTag(tag) + after + "," + Printed(moreTags, moved);
    }
  }

  lemma NoPadding()
    ensures AllOws("")
  {
  }

  /** Leading whitespace can be counted to the first pad. */
  lemma PadMoves(ts: seq<EntityTag>, before: string, w: string, pads: seq<Pad>)
    requires |ts| == |pads| > 0 && pads[0].before == "" && w == Printed(ts, pads)
    ensures before + w == Printed(ts, [Pad(before, pads[0].after)] + pads[1..])
  {
    hide PrintTag, AllOws;
    var moved := [Pad(before, pads[0].after)] + pads[1..];
    assert moved[1..] == pads[1..];
    var tag := PrintTag(ts[0]);
    assert "" + tag == tag;
    Regroup(before, tag, pads[0].after);
    if |ts| > 1 {
      var tail := Printed(ts[1..], pads[1..]);
      Regroup(before, tag + pads[0].after, ",");
      Regroup(before, tag + pads[0].after + ",", tail);
    }
  }

  lemma Regroup(a: string, b: string, c: string)
    ensures a + (b + c) == a + b + c
  {
  }

  lemma MovedPadsOk(pads: seq<Pad>, before: string)
    requires pads != [] && PadsOk(pads) && AllOws(before)
    ensures PadsOk([Pad(before, pads[0].after)] + pads[1..])
  {
    hide AllOws;
  }

  lemma {:induction false} ParsedIsListing(value: string, ts: seq<EntityTag>)
    requires ParseTagList(value) == Ok(Tags(ts))
    ensures IsListing(value, ts)
  {
    hide ParseTags, Printed, LegalTag, PadsOk, AllOws, SkipOws;
    var before := SkippedIsPadding(value);
    var s := SkipOws(value);
    var read, pads := ParsedWasPrinted(s, []);
    assert [] + read == read;
    hide ParseTagList;
    PadMoves(ts, before, s, pads);
    MovedPadsOk(pads, before);
    assert Lists(value, ts, [Pad(before, pads[0].after)] + pads[1..]);
  }

  lemma {:induction false} ListingParses(value: string, ts: seq<EntityTag>)
    requires IsListing(value, ts)
    ensures ParseTagList(value) == Ok(Tags(ts))
  {
    hide ParseTags, LegalTag;
    var pads: seq<Pad> :| Lists(value, ts, pads);
    ParsesPrinted(ts, pads, []);
    assert [] + ts == ts;
    SkipsPadding(pads[0].before, value[|pads[0].before|..]);
    assert value == pads[0].before + value[|pads[0].before|..];
  }

  /** Exactness: the parser returns a list of tags for exactly the texts that print that list, with any
      optional whitespace; so printing any 1 to 32 legal tags and parsing gives them back. */
  lemma TagListIsExact(value: string, ts: seq<EntityTag>)
    ensures ParseTagList(value) == Ok(Tags(ts)) <==> IsListing(value, ts)
  {
    hide ParseTagList, IsListing;
    if ParseTagList(value) == Ok(Tags(ts)) {
      ParsedIsListing(value, ts);
    }
    if IsListing(value, ts) {
      ListingParses(value, ts);
    }
  }

  /** The wildcard is recognised exactly when it stands alone. */
  lemma AnyIsExact(value: string)
    ensures ParseTagList(value) == Ok(AnyTag) <==>
        exists before, after :: AllOws(before) && AllOws(after) && value == before + "*" + after
  {
    if ParseTagList(value) == Ok(AnyTag) {
      var before := SkippedIsPadding(value);
      var s := SkipOws(value);
      if s != "" && s[0] == '*' {
        var after := SkippedIsPadding(s[1..]);
        assert after + "" == after && value == before + "*" + after;
      } else {
        var read, pads := ParsedWasPrinted(s, []);
      }
    }
    if before, after :| AllOws(before) && AllOws(after) && value == before + "*" + after {
      assert value == before + ("*" + after);
      SkipsPadding(before, "*" + after);
      assert ("*" + after)[1..] == after + "";
      SkipsPadding(after, "");
    }
  }

  // ---- header lines ----

  lemma {:induction false} PrintedJoins(xs: seq<EntityTag>, ps: seq<Pad>, ys: seq<EntityTag>, qs: seq<Pad>)
    requires |xs| == |ps| > 0 && |ys| == |qs| > 0
    ensures Printed(xs, ps) + "," + Printed(ys, qs) == Printed(xs + ys, ps + qs)
    decreases |xs|
  {
    assert (xs + ys)[1..] == xs[1..] + ys && (ps + qs)[1..] == ps[1..] + qs;
    var first := ps[0].before + PrintTag(xs[0]) + ps[0].after;
    if |xs| > 1 {
      PrintedJoins(xs[1..], ps[1..], ys, qs);
      assert first + "," + Printed(xs[1..], ps[1..]) + "," + Printed(ys, qs)
          == first + "," + (Printed(xs[1..], ps[1..]) + "," + Printed(ys, qs));
    }
  }

  /** Joining two lists with a comma parses to their concatenation exactly when the total fits. */
  lemma JoinParsesToConcatenation(a: string, xs: seq<EntityTag>, b: string, ys: seq<EntityTag>)
    requires ParseTagList(a) == Ok(Tags(xs)) && ParseTagList(b) == Ok(Tags(ys))
    ensures ParseTagList(a + "," + b) == Ok(Tags(xs + ys)) <==> |xs| + |ys| <= MAX_ENTITY_TAGS
  {
    TagListIsExact(a, xs);
    TagListIsExact(b, ys);
    var ps: seq<Pad> :| Lists(a, xs, ps);
    var qs: seq<Pad> :| Lists(b, ys, qs);
    PrintedJoins(xs, ps, ys, qs);
    assert Lists(a + "," + b, xs + ys, ps + qs);
    TagListIsExact(a + "," + b, xs + ys);
  }

  /** The text that the header loop has gathered: a comma before each line but the first non-empty one. */
  function Joined(lines: seq<string>): string {
    if lines == [] then ""
    else
      var before := Joined(lines[..|lines| - 1]);
      if before == "" then lines[|lines| - 1] else before + "," + lines[|lines| - 1]
  }

  /** The characters that a header value may show as text. */
  predicate Visible(line: string) {
    forall i :: 0 <= i < |line| ==> ' ' <= line[i] <= '~' || line[i] == '\t'
  }

  /** The first line that is not text, or that does not fit when it is added. */
  function LineFault(lines: seq<string>): Option<HeaderError> {
    if lines == [] then None
    else
      match LineFault(lines[..|lines| - 1])
      case Some(e) => Some(e)
      case None =>
        if !Visible(lines[|lines| - 1]) then Some(NotVisibleAscii)
        else if |Joined(lines)| > MAX_CONDITION_BYTES then Some(TooLarge)
        else None
  }

  function ParseHeader(lines: seq<string>): Result<Option<TagList>, HeaderError> {
    if LineFault(lines).Some? then Err(LineFault(lines).value)
    else if lines == [] then Ok(None)
    else if Joined(lines) == "" then Err(EmptyList)
    else
      match ParseTagList(Joined(lines))
      case Err(e) => Err(Malformed(e))
      case Ok(list) => Ok(Some(list))
  }

  function Flatten(tss: seq<seq<EntityTag>>): seq<EntityTag> {
    if tss == [] then [] else Flatten(tss[..|tss| - 1]) + tss[|tss| - 1]
  }

  lemma {:induction false} JoinedParses(lines: seq<string>, tss: seq<seq<EntityTag>>)
    requires |lines| == |tss| > 0
    requires forall i :: 0 <= i < |lines| ==> ParseTagList(lines[i]) == Ok(Tags(tss[i]))
    requires |Flatten(tss)| <= MAX_ENTITY_TAGS
    ensures Joined(lines) != "" && ParseTagList(Joined(lines)) == Ok(Tags(Flatten(tss)))
    decreases |lines|
  {
    var n := |lines| - 1;
    NonEmptyText(lines[n], tss[n]);
    if n == 0 {
      assert Flatten(tss) == [] + tss[0] == tss[0];
    } else {
      JoinedParses(lines[..n], tss[..n]);
      JoinParsesToConcatenation(Joined(lines[..n]), Flatten(tss[..n]), lines[n], tss[n]);
    }
  }

  lemma NonEmptyText(value: string, ts: seq<EntityTag>)
    requires ParseTagList(value) == Ok(Tags(ts))
    ensures value != ""
  {
  }

  /** A joined text never gets shorter, so lines fit one by one exactly when they fit together. */
  lemma {:induction false} FitsTogether(lines: seq<string>)
    ensures LineFault(lines).None? <==>
            (forall i :: 0 <= i < |lines| ==> Visible(lines[i])) && |Joined(lines)| <= MAX_CONDITION_BYTES
    decreases |lines|
  {
    hide Visible;
    if lines != [] {
      var n := |lines| - 1;
      FitsTogether(lines[..n]);
      assert |Joined(lines[..n])| <= |Joined(lines)|;
      assert forall i :: 0 <= i < n ==> lines[..n][i] == lines[i];
    }
  }

  /** Repeated header lines mean the concatenation of their separate lists if and only if they are
      text and their bytes and tags together stay within the limits. */
  lemma HeaderConcatenates(lines: seq<string>, tss: seq<seq<EntityTag>>)
    requires |lines| == |tss| > 0
    requires forall i :: 0 <= i < |lines| ==> ParseTagList(lines[i]) == Ok(Tags(tss[i]))
    ensures ParseHeader(lines) == Ok(Some(Tags(Flatten(tss)))) <==>
            && (forall i :: 0 <= i < |lines| ==> Visible(lines[i]))
            && |Joined(lines)| <= MAX_CONDITION_BYTES && |Flatten(tss)| <= MAX_ENTITY_TAGS
  {
    hide LineFault, Visible, Joined, ParseTagList, IsListing;
    FitsTogether(lines);
    if |Flatten(tss)| <= MAX_ENTITY_TAGS {
      JoinedParses(lines, tss);
    } else {
      TooManyToParse(Joined(lines), Flatten(tss));
    }
  }

  lemma TooManyToParse(value: string, ts: seq<EntityTag>)
    requires |ts| > MAX_ENTITY_TAGS
    ensures ParseTagList(value) != Ok(Tags(ts))
  {
    hide ParseTagList;
    TagListIsExact(value, ts);
  }

  // ---- the loops ----

  method SkipOwsFrom(bytes: string, start: nat) returns (cursor: nat)
    requires start <= |bytes|
    ensures start <= cursor <= |bytes| && bytes[cursor..] == SkipOws(bytes[start..])
  {
    cursor := start;
    while cursor < |bytes| && IsOws(bytes[cursor])
      invariant start <= cursor <= |bytes|
      invariant SkipOws(bytes[cursor..]) == SkipOws(bytes[start..])
    {
      assert bytes[cursor..][1..] == bytes[cursor + 1..];
      cursor := cursor + 1;
    }
  }

  method ScanOpaqueFrom(bytes: string, start: nat) returns (r: Result<nat, TagError>)
    requires start <= |bytes|
    ensures r.Ok? <==> ScanOpaque(bytes[start..]).Ok?
    ensures r.Ok? ==>
        start <= r.value < |bytes| && bytes[r.value] == '"' && ScanOpaque(bytes[start..]) == Ok(r.value - start)
    ensures r.Err? ==> r.error == ScanOpaque(bytes[start..]).error
  {
    var cursor := start;
    ghost var whole := ScanOpaque(bytes[start..]);
    while cursor < |bytes| && bytes[cursor] != '"'
      invariant start <= cursor <= |bytes|
      invariant var here := ScanOpaque(bytes[cursor..]);
        whole == if here.Ok? then Ok(here.value + (cursor - start)) else here
    {
      if bytes[cursor] < '!' || bytes[cursor] == '\U{7F}' {
        return Err(InvalidCharacter);
      }
      assert bytes[cursor..][1..] == bytes[cursor + 1..];
      cursor := cursor + 1;
    }
    return if cursor == |bytes| then Err(NotTerminated) else Ok(cursor);
  }

  lemma SliceOfSlice(bytes: string, a: nat, b: nat, c: nat)
    requires a <= b <= c <= |bytes|
    ensures bytes[a..][b - a..] == bytes[b..]
    ensures bytes[a..][b - a..c - a] == bytes[b..c]
  {
  }

  lemma WeakAt(bytes: string, cursor: nat)
    requires cursor <= |bytes|
    ensures IsWeak(bytes[cursor..]) <==> cursor + 2 <= |bytes| && bytes[cursor] == 'W' && bytes[cursor + 1] == '/'
  {
  }

  /** A tag at the cursor is what stands at its quote, marked weak or strong. */
  lemma OpenQuoteAt(bytes: string, cursor: nat, open: nat)
    requires cursor <= open <= |bytes| && open == if IsWeak(bytes[cursor..]) then cursor + 2 else cursor
    ensures ReadTag(bytes[cursor..]) == ReadQuoted(bytes[open..], IsWeak(bytes[cursor..]))
  {
    hide ScanOpaque;
    SliceOfSlice(bytes, cursor, open, open);
  }

  lemma NoQuoteAt(bytes: string, open: nat, weak: bool)
    requires open <= |bytes| && (open == |bytes| || bytes[open] != '"')
    ensures ReadQuoted(bytes[open..], weak) == Err(MissingQuote)
  {
    hide ScanOpaque;
  }

  lemma FaultAt(bytes: string, open: nat, weak: bool)
    requires open < |bytes| && bytes[open] == '"' && ScanOpaque(bytes[open + 1..]).Err?
    ensures ReadQuoted(bytes[open..], weak) == Err(ScanOpaque(bytes[open + 1..]).error)
  {
    hide ScanOpaque;
    SliceOfSlice(bytes, open, open + 1, open + 1);
  }

  lemma QuotedAt(bytes: string, open: nat, close: nat, weak: bool)
    requires open < close < |bytes| && bytes[open] == '"' && ScanOpaque(bytes[open + 1..]) == Ok(close - open - 1)
    ensures ReadQuoted(bytes[open..], weak) == Ok((EntityTag(weak, bytes[open + 1..close]), bytes[close + 1..]))
  {
    hide ScanOpaque;
    SliceOfSlice(bytes, open, open + 1, close);
    SliceOfSlice(bytes, open, close + 1, |bytes|);
  }

  /** One turn of the loop in `parse_tag_list`, up to the closing quote. */
  method ReadTagFrom(bytes: string, cursor: nat) returns (r: Result<(EntityTag, nat), TagError>)
    requires cursor <= |bytes|
    ensures r.Ok? ==> cursor < r.value.1 <= |bytes| && ReadTag(bytes[cursor..]) == Ok((r.value.0, bytes[r.value.1..]))
    ensures r.Err? ==> ReadTag(bytes[cursor..]) == Err(r.error)
  {
    hide IsWeak, ReadTag, ReadQuoted, ScanOpaque;
    var weak := cursor + 2 <= |bytes| && bytes[cursor] == 'W' && bytes[cursor + 1] == '/';
    var open := if weak then cursor + 2 else cursor;
    WeakAt(bytes, cursor);
    OpenQuoteAt(bytes, cursor, open);
    if open == |bytes| || bytes[open] != '"' {
      NoQuoteAt(bytes, open, weak);
      return Err(MissingQuote);
    }
    var close := ScanOpaqueFrom(bytes, open + 1);
    if close.Err? {
      FaultAt(bytes, open, weak);
      return Err(close.error);
    }
    QuotedAt(bytes, open, close.value, weak);
    return Ok((EntityTag(weak, bytes[open + 1..close.value]), close.value + 1));
  }

  method NextTagFrom(bytes: string, start: nat) returns (r: Result<Option<nat>, TagError>)
    requires start <= |bytes|
    ensures r.Err? ==> NextTag(bytes[start..]) == Err(r.error)
    ensures r == Ok(None) ==> NextTag(bytes[start..]) == Ok(None)
    ensures r.Ok? && r.value.Some? ==>
        start <= r.value.value <= |bytes| && NextTag(bytes[start..]) == Ok(Some(bytes[r.value.value..]))
  {
    var cursor := SkipOwsFrom(bytes, start);
    if cursor == |bytes| {
      return Ok(None);
    }
    if bytes[cursor] != ',' {
      return Err(MissingComma);
    }
    assert bytes[cursor..][1..] == bytes[cursor + 1..];
    cursor := SkipOwsFrom(bytes, cursor + 1);
    return if cursor == |bytes| then Err(TrailingComma) else Ok(Some(cursor));
  }

  /** `parse_tag_list`: the cursor loop computes the parser. */
  method ReadTagList(bytes: string) returns (r: Result<TagList, TagError>)
    ensures r == ParseTagList(bytes)
  {
    var cursor := SkipOwsFrom(bytes, 0);
    assert bytes[0..] == bytes;
    if cursor < |bytes| && bytes[cursor] == '*' {
      assert bytes[cursor..][1..] == bytes[cursor + 1..];
      cursor := SkipOwsFrom(bytes, cursor + 1);
      return if cursor == |bytes| then Ok(AnyTag) else Err(AnyCombined);
    }
    hide ReadTag, NextTag;
    var tags: seq<EntityTag> := [];
    while true
      invariant cursor <= |bytes|
      invariant ParseTags(bytes[cursor..], tags) == ParseTagList(bytes)
      decreases |bytes| - cursor
    {
      var one := ReadTagFrom(bytes, cursor);
      if one.Err? {
        return Err(one.error);
      }
      tags := tags + [one.value.0];
      if |tags| > MAX_ENTITY_TAGS {
        return Err(TooManyTags);
      }
      var next := NextTagFrom(bytes, one.value.1);
      if next.Err? {
        return Err(next.error);
      }
      if next.value.None? {
        return Ok(Tags(tags));
      }
      cursor := next.value.value;
    }
  }

  /** `parse_header`: the joining loop with its running size limit. */
  method ReadHeader(lines: seq<string>) returns (r: Result<Option<TagList>, HeaderError>)
    ensures r == ParseHeader(lines)
  {
    var combined := "";
    var found := false;
    for i := 0 to |lines|
      invariant combined == Joined(lines[..i]) && found == (i > 0) && LineFault(lines[..i]).None?
    {
      found := true;
      assert lines[..i + 1][..i] == lines[..i];
      if !Visible(lines[i]) {
        FaultStays(lines, i + 1);
        return Err(NotVisibleAscii);
      }
      if |combined| + |lines[i]| + (if combined != "" then 1 else 0) > MAX_CONDITION_BYTES {
        FaultStays(lines, i + 1);
        return Err(TooLarge);
      }
      if combined != "" {
        combined := combined + ",";
      }
      combined := combined + lines[i];
    }
    assert lines[..|lines|] == lines;
    if !found {
      return Ok(None);
    }
    if combined == "" {
      return Err(EmptyList);
    }
    var parsed := ReadTagList(combined);
    return if parsed.Err? then Err(Malformed(parsed.error)) else Ok(Some(parsed.value));
  }

  lemma {:induction false} FaultStays(lines: seq<string>, n: nat)
    requires n <= |lines| && LineFault(lines[..n]).Some?
    ensures LineFault(lines) == LineFault(lines[..n])
    decreases |lines| - n
  {
    if n == |lines| {
      assert lines[..n] == lines;
    } else {
      assert lines[..n + 1][..n] == lines[..n];
      FaultStays(lines, n + 1);
    }
  }
}
